/** Pure specification of a key/value chain: the sequence of (fd, data)
    pairs a list holds, read from head to tail, and the operations the
    list performs on it. */
module ListSpec {

  /** One mapping: a file-descriptor key and its opaque value. */
  type Entry<V> = (int, V)

  /** Keys never decrease from head to tail (the ORDERED invariant). */
  predicate Sorted<V>(s: seq<Entry<V>>) {
    forall i, j :: 0 <= i < j < |s| ==> s[i].0 <= s[j].0
  }

  /** Some entry of `s` has key `fd`. */
  predicate Contains<V>(s: seq<Entry<V>>, fd: int) {
    exists i :: 0 <= i < |s| && s[i].0 == fd
  }

  /** `x` placed at position `p`, everything else in its old order. */
  function InsertAt<V>(s: seq<Entry<V>>, p: nat, x: Entry<V>): (r: seq<Entry<V>>)
    requires p <= |s|
    ensures |r| == |s| + 1 && r[p] == x
    ensures forall i :: 0 <= i < p ==> r[i] == s[i]
    ensures forall i :: p < i < |r| ==> r[i] == s[i - 1]
  {
    s[..p] + [x] + s[p..]
  }

  /** The entry at position `p` taken out, everything else in its old order. */
  function RemoveAt<V>(s: seq<Entry<V>>, p: nat): (r: seq<Entry<V>>)
    requires p < |s|
    ensures |r| == |s| - 1
    ensures forall i :: 0 <= i < p ==> r[i] == s[i]
    ensures forall i :: p <= i < |r| ==> r[i] == s[i + 1]
  {
    s[..p] + s[p + 1..]
  }

  /** Where the ORDERED insertion puts a new key: the first position whose
      key is at least `fd`, or the end when there is none. */
  function InsertPos<V>(s: seq<Entry<V>>, fd: int): (p: nat)
    ensures p <= |s|
    ensures forall i :: 0 <= i < p ==> s[i].0 < fd
    ensures p < |s| ==> fd <= s[p].0
  {
    if s == [] || fd <= s[0].0 then 0 else 1 + InsertPos(s[1..], fd)
  }

  /** ORDERED insertion: the new entry goes before the first entry whose
      key is at least `fd`, or at the tail. */
  function Insert<V>(s: seq<Entry<V>>, fd: int, v: V): (r: seq<Entry<V>>)
    ensures |r| == |s| + 1 && r[InsertPos(s, fd)] == (fd, v)
  {
    InsertAt(s, InsertPos(s, fd), (fd, v))
  }

  /** Position of the first entry with key `fd`, or |s| when there is none. */
  function FirstIndex<V>(s: seq<Entry<V>>, fd: int): (p: nat)
    ensures p <= |s|
    ensures forall i :: 0 <= i < p ==> s[i].0 != fd
    ensures p < |s| ==> s[p].0 == fd
    ensures p < |s| <==> Contains(s, fd)
  {
    if s == [] then 0
    else if s[0].0 == fd then 0
    else 1 + FirstIndex(s[1..], fd)
  }

  /** Removal of the first entry with key `fd`; no change when there is none. */
  function RemoveFirst<V>(s: seq<Entry<V>>, fd: int): (r: seq<Entry<V>>)
    ensures |r| == if Contains(s, fd) then |s| - 1 else |s|
  {
    var p := FirstIndex(s, fd);
    if p < |s| then RemoveAt(s, p) else s
  }

  /** The values stored under key `fd`, from head to tail. */
  function ValuesOf<V>(s: seq<Entry<V>>, fd: int): (r: seq<V>)
    ensures |r| <= |s|
  {
    if s == [] then []
    else (if s[0].0 == fd then [s[0].1] else []) + ValuesOf(s[1..], fd)
  }

  /** The sum of the lengths of a sequence of chains. */
  function TotalSize<V>(b: seq<seq<Entry<V>>>): nat {
    if b == [] then 0 else TotalSize(b[..|b| - 1]) + |b[|b| - 1]|
  }

  // ---------------------------------------------------------------------
  // The per-key view

  lemma {:induction false} ValuesOfConcat<V>(a: seq<Entry<V>>, b: seq<Entry<V>>, fd: int)
    ensures ValuesOf(a + b, fd) == ValuesOf(a, fd) + ValuesOf(b, fd)
  {
    if a == [] {
      assert a + b == b;
    } else {
      var ab := a + b;
      assert ab[0] == a[0];
      assert ab[1..] == a[1..] + b;
      ValuesOfConcat(a[1..], b, fd);
      var h := if a[0].0 == fd then [a[0].1] else [];
      assert ValuesOf(ab, fd) == h + ValuesOf(a[1..] + b, fd);
      assert ValuesOf(a, fd) == h + ValuesOf(a[1..], fd);
    }
  }

  /** A prefix holding no entry with key `fd` contributes no values to it. */
  lemma {:induction false} ValuesOfNone<V>(s: seq<Entry<V>>, fd: int)
    requires forall i :: 0 <= i < |s| ==> s[i].0 != fd
    ensures ValuesOf(s, fd) == []
  {
    if s != [] {
      ValuesOfNone(s[1..], fd);
    }
  }

  /** The values under `fd` are empty exactly when the chain has no such
      key; otherwise the first of them is the value at FirstIndex. */
  lemma ValuesOfFirst<V>(s: seq<Entry<V>>, fd: int)
    ensures ValuesOf(s, fd) == [] <==> !Contains(s, fd)
    ensures Contains(s, fd) ==>
      ValuesOf(s, fd) == [s[FirstIndex(s, fd)].1] + ValuesOf(s[FirstIndex(s, fd) + 1..], fd)
  {
    var p := FirstIndex(s, fd);
    if p < |s| {
      var pre, post := s[..p], s[p..];
      assert s == pre + post;
      ValuesOfConcat(pre, post, fd);
      ValuesOfNone(pre, fd);
      assert post[0] == s[p] && post[1..] == s[p + 1..];
      assert ValuesOf(post, fd) == [s[p].1] + ValuesOf(s[p + 1..], fd);
    } else {
      ValuesOfNone(s, fd);
    }
  }

  /** ORDERED insertion puts the new value first among the values of its
      key and leaves the values of every other key as they were. */
  lemma InsertValues<V>(s: seq<Entry<V>>, fd: int, v: V, k: int)
    ensures ValuesOf(Insert(s, fd, v), k) ==
      if k == fd then [v] + ValuesOf(s, k) else ValuesOf(s, k)
  {
    var p := InsertPos(s, fd);
    var pre, post := s[..p], s[p..];
    assert pre + post == s;
    assert Insert(s, fd, v) == (pre + [(fd, v)]) + post;
    AppendValues(pre, fd, v, k);
    ValuesOfConcat(pre + [(fd, v)], post, k);
    ValuesOfConcat(pre, post, k);
    if k == fd {
      ValuesOfNone(pre, k);
    }
  }

  /** In ORDERED mode a removal right after an insertion of the same key
      takes out the entry just added: the chain is as before. */
  lemma InsertRemoveFirst<V>(s: seq<Entry<V>>, fd: int, v: V)
    ensures RemoveFirst(Insert(s, fd, v), fd) == s
  {
    var p := InsertPos(s, fd);
    var r := Insert(s, fd, v);
    FirstIndexUnique(r, fd, p);
    assert RemoveAt(r, p) == s;
  }

  /** Tail insertion adds the new value last among the values of its key. */
  lemma AppendValues<V>(s: seq<Entry<V>>, fd: int, v: V, k: int)
    ensures ValuesOf(s + [(fd, v)], k) ==
      if k == fd then ValuesOf(s, k) + [v] else ValuesOf(s, k)
  {
    ValuesOfConcat(s, [(fd, v)], k);
  }

  /** Removing the first entry with key `fd` drops the first value of that
      key and leaves the values of every other key as they were. */
  lemma RemoveFirstValues<V>(s: seq<Entry<V>>, fd: int, k: int)
    ensures ValuesOf(RemoveFirst(s, fd), k) ==
      if k == fd && ValuesOf(s, k) != [] then ValuesOf(s, k)[1..] else ValuesOf(s, k)
  {
    var p := FirstIndex(s, fd);
    if p < |s| {
      var pre, x, post := s[..p], s[p], s[p + 1..];
      assert s == pre + ([x] + post);
      assert RemoveFirst(s, fd) == pre + post;
      var vx := if x.0 == k then [x.1] else [];
      assert ValuesOf([x], k) == vx by {
        assert [x][1..] == [];
      }
      ValuesOfConcat(pre, [x] + post, k);
      ValuesOfConcat([x], post, k);
      ValuesOfConcat(pre, post, k);
      assert ValuesOf(s, k) == ValuesOf(pre, k) + (vx + ValuesOf(post, k));
      if k == fd {
        ValuesOfNone(pre, k);
        assert ValuesOf(s, k) == [x.1] + ValuesOf(post, k);
      }
    } else {
      ValuesOfNone(s, fd);
    }
  }

  // ---------------------------------------------------------------------
  // Order and contents

  /** ORDERED insertion keeps the keys non-decreasing. */
  lemma InsertSorted<V>(s: seq<Entry<V>>, fd: int, v: V)
    requires Sorted(s)
    ensures Sorted(Insert(s, fd, v))
  {
    var p := InsertPos(s, fd);
    var r := Insert(s, fd, v);
    forall i, j | 0 <= i < j < |r| ensures r[i].0 <= r[j].0 {
      if j == p {
        assert r[i] == s[i];
      } else if i == p {
        assert r[j] == s[j - 1];
      }
    }
  }

  /** ORDERED insertion adds exactly the new entry: a permutation of the old
      entries plus it. */
  lemma InsertMultiset<V>(s: seq<Entry<V>>, fd: int, v: V)
    ensures multiset(Insert(s, fd, v)) == multiset(s) + multiset{(fd, v)}
  {
    var p := InsertPos(s, fd);
    assert s == s[..p] + s[p..];
  }

  /** InsertPos is the only position with a smaller key at every earlier
      position and, if it is not the end, a key at least `fd` there. */
  lemma InsertPosUnique<V>(s: seq<Entry<V>>, fd: int, i: nat)
    requires i <= |s| && forall j :: 0 <= j < i ==> s[j].0 < fd
    requires i < |s| ==> fd <= s[i].0
    ensures InsertPos(s, fd) == i
  {
  }

  /** FirstIndex is the only position holding `fd` with no `fd` before it. */
  lemma FirstIndexUnique<V>(s: seq<Entry<V>>, fd: int, i: nat)
    requires i <= |s| && forall j :: 0 <= j < i ==> s[j].0 != fd
    requires i < |s| ==> s[i].0 == fd
    ensures FirstIndex(s, fd) == i
  {
  }

  /** Appending at the tail is insertion at the end. */
  lemma InsertAtEnd<V>(s: seq<Entry<V>>, x: Entry<V>)
    ensures InsertAt(s, |s|, x) == s + [x]
  {
  }

  /** Taking out the head leaves the rest. */
  lemma RemoveAtFront<V>(s: seq<Entry<V>>)
    requires s != []
    ensures RemoveAt(s, 0) == s[1..]
  {
  }

  /** A duplicate key lands immediately before the first existing entry
      with that key. */
  lemma InsertBeforeFirstEqual<V>(s: seq<Entry<V>>, fd: int, v: V)
    requires Sorted(s) && Contains(s, fd)
    ensures InsertPos(s, fd) == FirstIndex(s, fd)
    ensures Insert(s, fd, v)[InsertPos(s, fd) + 1].0 == fd
  {
  }

  /** Removing one entry keeps the keys non-decreasing. */
  lemma RemoveFirstSorted<V>(s: seq<Entry<V>>, fd: int)
    requires Sorted(s)
    ensures Sorted(RemoveFirst(s, fd))
  {
    var p := FirstIndex(s, fd);
    if p < |s| {
      var r := RemoveAt(s, p);
      forall i, j | 0 <= i < j < |r| ensures r[i].0 <= r[j].0 {
        assert r[i] == s[if i < p then i else i + 1];
        assert r[j] == s[if j < p then j else j + 1];
      }
    }
  }

  /** Taking out position p removes exactly that entry. */
  lemma RemoveAtMultiset<V>(s: seq<Entry<V>>, p: nat)
    requires p < |s|
    ensures multiset(RemoveAt(s, p)) == multiset(s) - multiset{s[p]}
  {
    var l, r := s[..p], s[p + 1..];
    assert s == l + [s[p]] + r;
    assert RemoveAt(s, p) == l + r;
  }

  /** Removal takes out exactly one entry with key `fd` when there is one. */
  lemma RemoveFirstMultiset<V>(s: seq<Entry<V>>, fd: int)
    ensures Contains(s, fd) ==>
      multiset(RemoveFirst(s, fd)) == multiset(s) - multiset{s[FirstIndex(s, fd)]}
    ensures !Contains(s, fd) ==> RemoveFirst(s, fd) == s
  {
    var p := FirstIndex(s, fd);
    if p < |s| {
      RemoveAtMultiset(s, p);
    }
  }

  /** The ORDERED early exit is sound: once a key exceeds `fd`, no later
      entry has key `fd`. */
  lemma SortedEarlyExit<V>(s: seq<Entry<V>>, i: nat, fd: int)
    requires Sorted(s) && i < |s| && fd < s[i].0
    requires forall j :: 0 <= j < i ==> s[j].0 != fd
    ensures !Contains(s, fd)
  {
    forall j | 0 <= j < |s| ensures s[j].0 != fd {
      if i < j {
        assert s[i].0 <= s[j].0;
      }
    }
  }

  /** The scan of an ORDERED lookup, on any chain: from the head it stops
      at the first key equal to `fd` (found) or greater than `fd` (given
      up). */
  function EarlyExitFind<V>(s: seq<Entry<V>>, fd: int): (found: bool)
    ensures found ==> Contains(s, fd)
  {
    if s == [] then false
    else if s[0].0 == fd then true
    else if fd < s[0].0 then false
    else
      var f := EarlyExitFind(s[1..], fd);
      assert f ==> s[1 + FirstIndex(s[1..], fd)].0 == fd;
      f
  }

  /** On a sorted chain the early-exit scan finds exactly the keys that are
      present. */
  lemma {:induction false} EarlyExitFindSorted<V>(s: seq<Entry<V>>, fd: int)
    requires Sorted(s)
    ensures EarlyExitFind(s, fd) <==> Contains(s, fd)
  {
    if s != [] && s[0].0 != fd {
      if fd < s[0].0 {
        SortedEarlyExit(s, 0, fd);
      } else {
        EarlyExitFindSorted(s[1..], fd);
        if Contains(s, fd) {
          assert s[FirstIndex(s, fd)].0 == fd;
          assert s[1..][FirstIndex(s, fd) - 1].0 == fd;
        }
      }
    }
  }

  /** The front of a sorted chain has the smallest key. */
  lemma SortedFrontIsMinimum<V>(s: seq<Entry<V>>)
    requires Sorted(s) && s != []
    ensures forall i :: 0 <= i < |s| ==> s[0].0 <= s[i].0
  {
    forall i | 0 < i < |s| ensures s[0].0 <= s[i].0 {
      assert s[0].0 <= s[i].0;
    }
  }

  /** Replacing one chain changes the total by the change in its length. */
  lemma {:induction false} TotalSizeUpdate<V>(b: seq<seq<Entry<V>>>, h: nat, c: seq<Entry<V>>)
    requires h < |b|
    ensures TotalSize(b[h := c]) == TotalSize(b) - |b[h]| + |c|
  {
    var n := |b| - 1;
    if h < n {
      assert b[h := c][..n] == b[..n][h := c];
      TotalSizeUpdate(b[..n], h, c);
    } else {
      assert b[h := c][..n] == b[..n];
    }
  }

  // ---------------------------------------------------------------------
  // The insertion position as the source computes it (see README, Findings)

  /** The position the ORDERED insertion loop reaches as written: it
      advances through the new node's forward link, which is still null,
      so it stops after looking at the head. */
  function AsWrittenInsertPos<V>(s: seq<Entry<V>>, fd: int): (p: nat)
    ensures p == 0 || p == |s|
    ensures p == 0 <==> (s == [] || fd <= s[0].0)
  {
    if s == [] || fd <= s[0].0 then 0 else |s|
  }

  /** The insertion as written. */
  function AsWrittenInsert<V>(s: seq<Entry<V>>, fd: int, v: V): (r: seq<Entry<V>>)
    ensures r == if s == [] || fd <= s[0].0 then [(fd, v)] + s else s + [(fd, v)]
  {
    InsertAt(s, AsWrittenInsertPos(s, fd), (fd, v))
  }

  /** On a sorted chain the as-written position agrees with the intended one
      exactly when the new key goes first or last. */
  lemma AsWrittenAgreement<V>(s: seq<Entry<V>>, fd: int)
    requires Sorted(s)
    ensures AsWrittenInsertPos(s, fd) == InsertPos(s, fd) <==>
      (s == [] || fd <= s[0].0 || s[|s| - 1].0 < fd)
  {
    var p := InsertPos(s, fd);
    if s != [] && s[0].0 < fd && fd <= s[|s| - 1].0 {
      assert p != |s|;
    } else if s != [] && s[|s| - 1].0 < fd {
      forall i | 0 <= i < |s| ensures s[i].0 < fd {
        assert s[i].0 <= s[|s| - 1].0;
      }
      assert p == |s|;
    }
  }

  /** The keys 1 and 5 with 3 added: as written the chain comes out
      unsorted. */
  lemma AsWrittenBreaksOrder<V>(a: V, b: V, c: V)
    ensures var s := [(1, a), (5, b)];
      AsWrittenInsert(s, 3, c) == [(1, a), (5, b), (3, c)] &&
      !Sorted(AsWrittenInsert(s, 3, c)) &&
      Insert(s, 3, c) == [(1, a), (3, c), (5, b)] && Sorted(Insert(s, 3, c))
  {
    var s := [(1, a), (5, b)];
    assert InsertPos(s, 3) == 1 by {
      assert s[1..] == [(5, b)];
    }
    var w := AsWrittenInsert(s, 3, c);
    assert w[1].0 > w[2].0;
  }

  /** As written, the scan of the lookup then misses a key that is present:
      on 1, 5, 3 it gives up at 5 when looking for 3. The intended insertion
      keeps 3 findable. */
  lemma AsWrittenMissesKey<V>(a: V, b: V, c: V)
    ensures var w := AsWrittenInsert([(1, a), (5, b)], 3, c);
      Contains(w, 3) && !EarlyExitFind(w, 3)
    ensures EarlyExitFind(Insert([(1, a), (5, b)], 3, c), 3)
  {
    var w := AsWrittenInsert([(1, a), (5, b)], 3, c);
    assert w[2].0 == 3;
    assert w[1..][1..] == [(3, c)];
    AsWrittenBreaksOrder(a, b, c);
    var r := Insert([(1, a), (5, b)], 3, c);
    assert r[1..][0].0 == 3;
  }

  /** Adding the keys 5, 1, 3 in turn as written gives the chain 1, 5, 3. */
  lemma AsWrittenAddSequence<V>(a: V, b: V, c: V)
    ensures AsWrittenInsert(AsWrittenInsert(AsWrittenInsert([], 5, a), 1, b), 3, c)
      == [(1, b), (5, a), (3, c)]
  {
    var s1 := [(5, a)];
    var s2 := [(1, b), (5, a)];
    assert AsWrittenInsert([], 5, a) == s1;
    assert AsWrittenInsert(s1, 1, b) == s2;
  }

  /** Adding the keys 5, 1, 3 in turn as intended gives the chain 1, 3, 5. */
  lemma OrderedAddSequence<V>(a: V, b: V, c: V)
    ensures Insert(Insert(Insert([], 5, a), 1, b), 3, c) == [(1, b), (3, c), (5, a)]
  {
    var s1 := [(5, a)];
    var s2 := [(1, b), (5, a)];
    assert Insert([], 5, a) == s1;
    assert InsertPos(s1, 1) == 0;
    assert Insert(s1, 1, b) == s2;
    assert InsertPos(s2, 3) == 1 by {
      assert s2[1..] == s1;
    }
  }
}
