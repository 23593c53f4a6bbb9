/** The fixed-size hash table from file descriptors to data: an array of
    ORDERED lists, the bucket of a key chosen by the key modulo the number
    of buckets, and a running count of the mappings held. */
module Fdmap {
  import opened ListSpec
  import opened FdmapList

  /** The bucket count used when the requested size is not positive. */
  const DefaultSize: int := 10

  /** C's `%` for a positive divisor: the remainder truncated toward zero,
      so it takes the sign of the dividend. It agrees with the Euclidean
      remainder on non-negative dividends and is odd in the dividend. */
  function CRem(a: int, n: int): (r: int)
    requires n > 0
    ensures 0 <= a ==> r == a % n && 0 <= r < n
    ensures a < 0 ==> r == -CRem(-a, n) && -n < r <= 0
    decreases if a < 0 then 1 else 0
  {
    if a >= 0 then a % n else -((-a) % n)
  }

  /** Every entry of the chain `s` has a non-negative key whose bucket, out
      of `n`, is `i`. */
  predicate HashedTo<V>(s: seq<Entry<V>>, i: int, n: int)
    requires n > 0
  {
    forall k :: 0 <= k < |s| ==> s[k].0 >= 0 && CRem(s[k].0, n) == i
  }

  /** The values stored under `fd`, most recent first, in the buckets `bs`:
      those of its own bucket. */
  function LookupIn<V>(bs: seq<seq<Entry<V>>>, fd: int): (r: seq<V>)
    requires |bs| > 0 && fd >= 0
    ensures |r| <= |bs[CRem(fd, |bs|)]|
  {
    ValuesOf(bs[CRem(fd, |bs|)], fd)
  }

  /** Every bucket empty, as after creation. */
  function EmptyBuckets<V>(n: nat): (bs: seq<seq<Entry<V>>>)
    ensures |bs| == n && forall i :: 0 <= i < n ==> bs[i] == []
  {
    seq(n, _ => [])
  }

  /** A map with no entries has no values under any key and holds nothing. */
  lemma EmptyLookup<V>(n: nat, fd: int)
    requires n > 0 && fd >= 0
    ensures LookupIn(EmptyBuckets<V>(n), fd) == []
    ensures TotalSize(EmptyBuckets<V>(n)) == 0
  {
    EmptyTotal(EmptyBuckets<V>(n));
  }

  /** Chains that are all empty add up to nothing. */
  lemma {:induction false} EmptyTotal<V>(bs: seq<seq<Entry<V>>>)
    requires forall i :: 0 <= i < |bs| ==> bs[i] == []
    ensures TotalSize(bs) == 0
  {
    if bs != [] {
      EmptyTotal(bs[..|bs| - 1]);
    }
  }

  /** Adding under `fd` puts the new value in front of the earlier values of
      `fd` and leaves every other key's values alone. */
  lemma LookupAfterAdd<V>(bs: seq<seq<Entry<V>>>, fd: int, v: V, k: int)
    requires |bs| > 0 && fd >= 0 && k >= 0
    ensures var h := CRem(fd, |bs|);
      LookupIn(bs[h := Insert(bs[h], fd, v)], k) ==
        if k == fd then [v] + LookupIn(bs, k) else LookupIn(bs, k)
  {
    var h := CRem(fd, |bs|);
    if CRem(k, |bs|) == h {
      InsertValues(bs[h], fd, v, k);
    }
  }

  /** Removing under `fd` drops the most recent value of `fd` and leaves
      every other key's values alone. */
  lemma LookupAfterRm<V>(bs: seq<seq<Entry<V>>>, fd: int, k: int)
    requires |bs| > 0 && fd >= 0 && k >= 0
    ensures var h := CRem(fd, |bs|);
      LookupIn(bs[h := RemoveFirst(bs[h], fd)], k) ==
        if k == fd && LookupIn(bs, k) != [] then LookupIn(bs, k)[1..] else LookupIn(bs, k)
  {
    var h := CRem(fd, |bs|);
    if CRem(k, |bs|) == h {
      RemoveFirstValues(bs[h], fd, k);
    }
  }

  /** The values stored under `fd` in every bucket, first bucket to last:
      what a search of the whole table would find. */
  function ValuesIn<V>(bs: seq<seq<Entry<V>>>, fd: int): seq<V> {
    if bs == [] then [] else ValuesIn(bs[..|bs| - 1], fd) + ValuesOf(bs[|bs| - 1], fd)
  }

  /** A bucket holding only its own keys holds no value for a key of
      another bucket. */
  lemma LookupOtherBucket<V>(bs: seq<seq<Entry<V>>>, fd: int, i: int)
    requires |bs| > 0 && fd >= 0 && 0 <= i < |bs| && i != CRem(fd, |bs|)
    requires HashedTo(bs[i], i, |bs|)
    ensures ValuesOf(bs[i], fd) == []
  {
    ValuesOfNone(bs[i], fd);
  }

  /** The first `m` buckets hold the values of `fd` exactly when its own
      bucket is among them. */
  lemma {:induction false} ValuesInPrefix<V>(bs: seq<seq<Entry<V>>>, fd: int, m: nat)
    requires |bs| > 0 && fd >= 0 && m <= |bs|
    requires forall i :: 0 <= i < |bs| ==> HashedTo(bs[i], i, |bs|)
    ensures ValuesIn(bs[..m], fd) == if CRem(fd, |bs|) < m then LookupIn(bs, fd) else []
  {
    if m > 0 {
      assert bs[..m][..m - 1] == bs[..m - 1];
      ValuesInPrefix(bs, fd, m - 1);
      if m - 1 != CRem(fd, |bs|) {
        LookupOtherBucket(bs, fd, m - 1);
      }
    }
  }

  /** Looking only in the key's own bucket misses nothing: when every
      bucket holds only its own keys, it finds what a search of the whole
      table would. */
  lemma LookupComplete<V>(bs: seq<seq<Entry<V>>>, fd: int)
    requires |bs| > 0 && fd >= 0
    requires forall i :: 0 <= i < |bs| ==> HashedTo(bs[i], i, |bs|)
    ensures LookupIn(bs, fd) == ValuesIn(bs, fd)
  {
    ValuesInPrefix(bs, fd, |bs|);
    assert bs[..|bs|] == bs;
  }

  /** Three keys of the default bucket 5 added as written: 25, then 5, then
      15. The bucket's chain becomes 5, 25, 15, and the ORDERED scan for 15
      gives up at 25 although 15 is present. */
  lemma AsWrittenBucketMiss<V>(a: V, b: V, c: V)
    ensures var w := AsWrittenInsert(AsWrittenInsert(AsWrittenInsert([], 25, a), 5, b), 15, c);
      w == [(5, b), (25, a), (15, c)] && HashedTo(w, 5, DefaultSize) &&
      Contains(w, 15) && !EarlyExitFind(w, 15)
  {
    var w1 := AsWrittenInsert([], 25, a);
    assert w1 == [(25, a)];
    var w2 := AsWrittenInsert(w1, 5, b);
    assert w2 == [(5, b), (25, a)];
    var w := AsWrittenInsert(w2, 15, c);
    assert w == [(5, b), (25, a), (15, c)];
    assert w[2].0 == 15;
    assert w[1..] == [(25, a), (15, c)];
  }

  /** ORDERED insertion of a key that belongs to bucket `i` keeps bucket `i`
      holding only its own keys. */
  lemma HashedInsert<V>(s: seq<Entry<V>>, i: int, n: int, fd: int, v: V)
    requires n > 0 && HashedTo(s, i, n) && fd >= 0 && CRem(fd, n) == i
    ensures HashedTo(Insert(s, fd, v), i, n)
  {
    InsertMultiset(s, fd, v);
    var r := Insert(s, fd, v);
    forall k | 0 <= k < |r| ensures r[k].0 >= 0 && CRem(r[k].0, n) == i {
      assert r[k] in multiset(r);
      if r[k] != (fd, v) {
        assert r[k] in multiset(s);
        var m :| 0 <= m < |s| && s[m] == r[k];
      }
    }
  }

  /** Removal keeps a bucket holding only its own keys. */
  lemma HashedRemove<V>(s: seq<Entry<V>>, i: int, n: int, fd: int)
    requires n > 0 && HashedTo(s, i, n)
    ensures HashedTo(RemoveFirst(s, fd), i, n)
  {
    RemoveFirstMultiset(s, fd);
    var r := RemoveFirst(s, fd);
    forall k | 0 <= k < |r| ensures r[k].0 >= 0 && CRem(r[k].0, n) == i {
      assert r[k] in multiset(r);
      assert r[k] in multiset(s);
      var m :| 0 <= m < |s| && s[m] == r[k];
    }
  }

  class FdMap<V> {
    /** The number of mappings in the table. */
    var items: int
    /** The number of buckets. */
    var size: int
    /** The buckets. */
    var table: array?<List?<V>>

    /** The chain of each bucket: the abstract value. */
    ghost var Buckets: seq<seq<Entry<V>>>
    /** Every object the map uses: itself, the table, the lists and their
        nodes. */
    ghost var Repr: set<object>
    /** False once the map has been released. */
    ghost var Live: bool

    /** Bucket `i` is a well-formed ORDERED list with its own footprint,
        holding `Buckets[i]`, whose keys all belong to it. */
    ghost predicate BucketOk(i: int)
      reads this, Repr
      requires table != null && table in Repr && 0 <= i < table.Length
      requires |Buckets| == table.Length && size > 0
    {
      table[i] != null && table[i] in Repr && table[i].Repr <= Repr &&
      this !in table[i].Repr && table !in table[i].Repr &&
      table[i].Valid() && table[i].kind == Ordered &&
      table[i].Contents == Buckets[i] && HashedTo(Buckets[i], i, size)
    }

    /** Buckets `i` and `j` share no object. */
    ghost predicate Disjoint(i: int, j: int)
      reads this, Repr
      requires table != null && table in Repr && 0 <= i < table.Length && 0 <= j < table.Length
      requires |Buckets| == table.Length && size > 0 && BucketOk(i) && BucketOk(j)
    {
      table[i].Repr !! table[j].Repr
    }

    /** The map invariant: `size` buckets, each well formed, with footprints
        apart, and `items` counting every mapping. */
    ghost predicate Valid()
      reads this, Repr
    {
      this in Repr && table != null && table in Repr && Live &&
      0 < size == table.Length == |Buckets| &&
      (forall i :: 0 <= i < size ==> BucketOk(i)) &&
      (forall i, j :: 0 <= i < j < size ==> Disjoint(i, j)) &&
      items == TotalSize(Buckets)
    }

    /** The values stored under `fd`, most recent first. */
    ghost function Lookup(fd: int): (r: seq<V>)
      reads this
      requires |Buckets| > 0 && fd >= 0
      ensures |r| <= |Buckets[CRem(fd, |Buckets|)]|
    {
      LookupIn(Buckets, fd)
    }

    /** The validity test: a map and its table both present. A map holding
        its invariant passes it. */
    static predicate IsValid(m: FdMap?<V>): (ok: bool)
      reads m, if m != null then m.Repr else {}
      ensures ok ==> m != null
      ensures m != null && m.Valid() ==> ok
    {
      m != null && m.table != null
    }

    /** The bucket of `fd`: for a non-negative key an index of the table. */
    function Hash(fd: int): (h: int)
      reads this
      requires size > 0
      ensures fd >= 0 ==> 0 <= h < size && h == fd % size
      ensures fd < 0 ==> -size < h <= 0
    {
      CRem(fd, size)
    }

    /** A new map with `initialSize` buckets, or the default 10 when that is
        not positive, each an empty ORDERED list. */
    constructor (initialSize: int)
      ensures Valid() && fresh(Repr)
      ensures size == if initialSize > 0 then initialSize else DefaultSize
      ensures items == 0 && Buckets == EmptyBuckets(size)
    {
      var n := if initialSize > 0 then initialSize else DefaultSize;
      var t, R := NewTable(n);
      items, size, table := 0, n, t;
      Buckets := EmptyBuckets(n);
      Repr := R + {this};
      Live := true;
      EmptyTotal(EmptyBuckets<V>(n));
    }

    /** A fresh table of `n` empty ORDERED lists with pairwise disjoint
        footprints, all inside `R`. */
    static method NewTable(n: nat) returns (t: array<List?<V>>, ghost R: set<object>)
      ensures t.Length == n && t in R && fresh(R)
      ensures forall i :: 0 <= i < n ==>
        t[i] != null && t[i] in R && t[i].Repr <= R && t !in t[i].Repr &&
        t[i].Valid() && t[i].kind == Ordered && t[i].Contents == []
      ensures forall i, j :: 0 <= i < j < n ==> t[i].Repr !! t[j].Repr
    {
      t := new List?<V>[n];
      R := {t};
      var index := 0;
      while index < n
        invariant 0 <= index <= n && t in R && fresh(R)
        invariant forall i :: 0 <= i < index ==>
          t[i] != null && t[i] in R && t[i].Repr <= R && t !in t[i].Repr &&
          t[i].Valid() && t[i].kind == Ordered && t[i].Contents == []
        invariant forall i, j :: 0 <= i < j < index ==> t[i].Repr !! t[j].Repr
      {
        var list := List<V>.New(OrderedTag);
        t[index] := list;
        R := R + list.Repr;
        index := index + 1;
      }
    }

    /** Release the map; it may not be used afterwards. */
    method Free()
      requires Valid()
      modifies this
      ensures !Live
    {
      Live := false;
    }

    /** Add a mapping for `fd` to its bucket; duplicates are kept and the
        count grows by one in every case. */
    method Add(fd: int, data: V)
      requires Valid() && fd >= 0
      modifies Repr
      ensures Valid() && fresh(Repr - old(Repr)) && size == old(size)
      ensures items == old(items) + 1
      ensures var h := Hash(fd); Buckets == old(Buckets[h := Insert(Buckets[h], fd, data)])
    {
      var h := Hash(fd);
      var list := table[h];
      assert BucketOk(h);
      list.Add(fd, data);
      HashedInsert(old(Buckets[h]), h, size, fd, data);
      TotalSizeUpdate(old(Buckets), h, list.Contents);
      items := items + 1;
      Buckets := Buckets[h := list.Contents];
      Repr := Repr + list.Repr;
      assert Valid() by {
        BucketReplaced(h);
      }
    }

    /** The map invariant survives a change of bucket `h` that kept that
        list valid, only grew its footprint by new objects, left everything
        else in the map as it was, and is recorded in `Buckets` and `items`. */
    twostate lemma BucketReplaced(h: int)
      requires old(Valid()) && 0 <= h < old(size)
      requires table == old(table) && size == old(size) && Live
      requires old(table[h]) != null && old(table[h]).Valid() && old(table[h]).kind == Ordered
      requires old(table[h].Repr) <= old(table[h]).Repr
      requires fresh(old(table[h]).Repr - old(table[h].Repr))
      requires forall o: object :: o in old(Repr) && o != this && o !in old(table[h].Repr) ==> unchanged(o)
      requires Repr == old(Repr) + old(table[h]).Repr
      requires Buckets == old(Buckets)[h := old(table[h]).Contents]
      requires HashedTo(Buckets[h], h, size)
      requires items == TotalSize(Buckets)
      ensures Valid()
    {
      assert old(BucketOk(h));
      assert unchanged(table);
      assert table[h] == old(table[h]);
      forall j | 0 <= j < size && j != h
        ensures BucketOk(j) && table[j].Repr == old(table[j].Repr)
      {
        assert old(BucketOk(j) && BucketOk(h));
        if j < h {
          assert old(Disjoint(j, h));
        } else {
          assert old(Disjoint(h, j));
        }
      }
      assert BucketOk(h);
      forall i, j | 0 <= i < j < size ensures Disjoint(i, j) {
        assert old(BucketOk(i) && BucketOk(j) && Disjoint(i, j));
        if i == h || j == h {
          var o := if i == h then j else i;
          assert table[o].Repr <= old(Repr);
          assert forall x :: x in table[h].Repr && x !in old(table[h].Repr) ==> x !in old(Repr);
        }
      }
    }

    /** Remove the most recent mapping for `fd`, if any; the count drops by
        one exactly when a mapping was removed. */
    method Rm(fd: int)
      requires Valid() && fd >= 0
      modifies Repr
      ensures Valid() && Repr == old(Repr) && size == old(size)
      ensures var h := Hash(fd);
        items == old(items) - (if Contains(old(Buckets[h]), fd) then 1 else 0) &&
        Buckets == old(Buckets[h := RemoveFirst(Buckets[h], fd)])
    {
      var h := Hash(fd);
      var list := table[h];
      assert BucketOk(h);
      HashedRemove(Buckets[h], h, size, fd);
      TotalSizeUpdate(Buckets, h, RemoveFirst(Buckets[h], fd));
      var removed := list.Rm(fd);
      if removed {
        items := items - 1;
      }
      Buckets := Buckets[h := list.Contents];
      assert Valid() by {
        BucketReplaced(h);
      }
    }

    /** The most recent value stored under `fd`; when there is none the
        result is false and `prior`, the caller's location, comes back
        unchanged. */
    method Find(fd: int, prior: V) returns (found: bool, data: V)
      requires Valid() && fd >= 0
      ensures found <==> Lookup(fd) != []
      ensures found ==> data == Lookup(fd)[0]
      ensures !found ==> data == prior
    {
      var list := table[Hash(fd)];
      assert BucketOk(Hash(fd));
      found, data := list.Find(fd, prior);
      ValuesOfFirst(list.Contents, fd);
    }

  }
}
