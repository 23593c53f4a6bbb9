/** The doubly linked key/value list: a head, a tail and a size counter
    over nodes linked both ways, used either as a FIFO queue or as a chain
    kept sorted by key. */
module FdmapList {
  import opened ListSpec

  /** The two kinds of list. */
  datatype ListType = Fifo | Ordered

  /** The integer values of the list-type enumeration. */
  const FifoTag: int := 0
  const OrderedTag: int := 1

  /** Where `Link` puts a node relative to its reference node. */
  datatype Placement = Before | After

  /** Position of object `x` in `s`: the first index holding it. */
  function IndexOf<T(==)>(s: seq<T>, x: T): (k: nat)
    requires x in s
    ensures k < |s| && s[k] == x
    ensures forall i :: 0 <= i < k ==> s[i] != x
  {
    if s[0] == x then 0 else 1 + IndexOf(s[1..], x)
  }

  /** Each node's prev and next are its neighbours in `ns`, null at the
      ends. */
  ghost predicate Links<V>(ns: seq<Node<V>>)
    reads ns
  {
    (forall i {:trigger ns[i].next} :: 0 <= i < |ns| ==>
       ns[i].next == (if i == |ns| - 1 then null else ns[i + 1])) &&
    (forall i {:trigger ns[i].prev} :: 0 <= i < |ns| ==>
       ns[i].prev == (if i == 0 then null else ns[i - 1]))
  }

  /** The entries `cs` are the keys and values stored in the nodes `ns`. */
  ghost predicate Holds<V>(ns: seq<Node<V>>, cs: seq<Entry<V>>) {
    |cs| == |ns| && forall k :: 0 <= k < |ns| ==> cs[k] == (ns[k].fd, ns[k].data)
  }

  /** Positions k and m of `s` hold different elements. */
  ghost predicate Apart<T>(s: seq<T>, k: nat, m: nat)
    requires k < |s| && m < |s|
  {
    s[k] != s[m]
  }

  /** No element occurs twice. */
  ghost predicate Distinct<T>(s: seq<T>) {
    forall k, m :: 0 <= k < m < |s| ==> Apart(s, k, m)
  }

  /** In a sequence without repeats, position p holds an element found
      nowhere else. */
  lemma DistinctAt<T>(s: seq<T>, p: nat)
    requires Distinct(s) && p < |s|
    ensures forall i :: 0 <= i < |s| && i != p ==> s[i] != s[p]
  {
    forall i | 0 <= i < |s| && i != p ensures s[i] != s[p] {
      if i < p {
        assert Apart(s, i, p);
      } else {
        assert Apart(s, p, i);
      }
    }
  }

  /** Node `x` set between positions p - 1 and p of `ns`, with its
      neighbours pointing at it and every other link as in a linked
      sequence, gives a linked sequence one longer. */
  lemma LinksInsert<V>(ns: seq<Node<V>>, p: nat, x: Node<V>)
    requires p <= |ns|
    requires x.prev == (if p == 0 then null else ns[p - 1])
    requires x.next == (if p == |ns| then null else ns[p])
    requires p > 0 ==> ns[p - 1].next == x
    requires p < |ns| ==> ns[p].prev == x
    requires forall i {:trigger ns[i].next} :: 0 <= i < |ns| && i + 1 != p ==>
      ns[i].next == (if i == |ns| - 1 then null else ns[i + 1])
    requires forall i {:trigger ns[i].prev} :: 0 <= i < |ns| && i != p ==>
      ns[i].prev == (if i == 0 then null else ns[i - 1])
    ensures Links(ns[..p] + [x] + ns[p..])
  {
    var ms := ns[..p] + [x] + ns[p..];
    assert forall i :: 0 <= i < |ms| ==> ms[i] == if i < p then ns[i] else if i == p then x else ns[i - 1];
    forall j | 0 <= j < |ms|
      ensures ms[j].prev == (if j == 0 then null else ms[j - 1])
      ensures ms[j].next == (if j == |ms| - 1 then null else ms[j + 1])
    {
      if j < p {
        assert ms[j] == ns[j];
        assert ns[j].prev == (if j == 0 then null else ns[j - 1]);
        assert j + 1 < p ==> ns[j].next == ns[j + 1];
      } else if j > p {
        assert ms[j] == ns[j - 1];
        assert j - 1 > p ==> ns[j - 1].prev == ns[j - 2];
        assert ns[j - 1].next == (if j - 1 == |ns| - 1 then null else ns[j]);
      }
    }
  }

  /** The node at position k bypassed by its neighbours, every other link as
      in a linked sequence, leaves a linked sequence one shorter. */
  lemma LinksRemove<V>(ns: seq<Node<V>>, k: nat)
    requires k < |ns|
    requires k > 0 ==> ns[k - 1].next == (if k == |ns| - 1 then null else ns[k + 1])
    requires k < |ns| - 1 ==> ns[k + 1].prev == (if k == 0 then null else ns[k - 1])
    requires forall i {:trigger ns[i].next} :: 0 <= i < |ns| && i + 1 != k ==>
      ns[i].next == (if i == |ns| - 1 then null else ns[i + 1])
    requires forall i {:trigger ns[i].prev} :: 0 <= i < |ns| && i != k + 1 ==>
      ns[i].prev == (if i == 0 then null else ns[i - 1])
    ensures Links(ns[..k] + ns[k + 1..])
  {
    var ms := ns[..k] + ns[k + 1..];
    assert forall i :: 0 <= i < |ms| ==> ms[i] == if i < k then ns[i] else ns[i + 1];
    forall j | 0 <= j < |ms|
      ensures ms[j].prev == (if j == 0 then null else ms[j - 1])
      ensures ms[j].next == (if j == |ms| - 1 then null else ms[j + 1])
    {
      if j < k {
        assert ms[j] == ns[j];
        assert ns[j].prev == (if j == 0 then null else ns[j - 1]);
        assert j + 1 < k ==> ns[j].next == ns[j + 1];
      } else {
        assert ms[j] == ns[j + 1];
        assert j > k ==> ns[j + 1].prev == ns[j];
        assert j + 1 < |ns| - 1 ==> ns[j + 1].next == ns[j + 2];
      }
    }
  }

  /** Inserting a new element keeps the elements distinct and adds exactly it. */
  lemma DistinctInsert<T>(s: seq<T>, p: nat, x: T)
    requires Distinct(s) && p <= |s| && x !in s
    ensures Distinct(s[..p] + [x] + s[p..])
  {
    var r := s[..p] + [x] + s[p..];
    assert forall i :: 0 <= i < |r| ==> r[i] == if i < p then s[i] else if i == p then x else s[i - 1];
    assert s == s[..p] + s[p..];
    forall k, m | 0 <= k < m < |r| ensures Apart(r, k, m) {
      if k != p && m != p {
        var k', m' := if k < p then k else k - 1, if m < p then m else m - 1;
        assert r[k] == s[k'] && r[m] == s[m'] && Apart(s, k', m');
      }
    }
  }

  /** Removing an element keeps the rest distinct and drops exactly it. */
  lemma DistinctRemove<T>(s: seq<T>, k: nat)
    requires Distinct(s) && k < |s|
    ensures Distinct(s[..k] + s[k + 1..])
    ensures forall y :: y in s[..k] + s[k + 1..] <==> y != s[k] && y in s
  {
    DistinctAt(s, k);
    var r := s[..k] + s[k + 1..];
    assert forall i :: 0 <= i < |r| ==> r[i] == if i < k then s[i] else s[i + 1];
    assert s == s[..k] + [s[k]] + s[k + 1..];
    forall a, b | 0 <= a < b < |r| ensures Apart(r, a, b) {
      var a', b' := if a < k then a else a + 1, if b < k then b else b + 1;
      assert r[a] == s[a'] && r[b] == s[b'] && Apart(s, a', b');
    }
  }

  /** Every node of the spliced sequence is in the enlarged footprint. */
  lemma SpliceMembers<V>(ns: seq<Node<V>>, p: nat, x: Node<V>, r: set<object>)
    requires p <= |ns| && x in r
    requires forall i :: 0 <= i < |ns| ==> ns[i] in r
    ensures forall y :: y in ns[..p] + [x] + ns[p..] ==> y in r
  {
    var ms := ns[..p] + [x] + ns[p..];
    forall y | y in ms ensures y in r {
      var j :| 0 <= j < |ms| && ms[j] == y;
      if j < p {
        assert ms[j] == ns[j];
      } else if j > p {
        assert ms[j] == ns[j - 1];
      }
    }
  }

  /** The entries follow the nodes through an insertion. */
  lemma HoldsInsert<V>(ns: seq<Node<V>>, cs: seq<Entry<V>>, p: nat, x: Node<V>)
    requires Holds(ns, cs) && p <= |ns|
    ensures Holds(ns[..p] + [x] + ns[p..], InsertAt(cs, p, (x.fd, x.data)))
  {
    var ms := ns[..p] + [x] + ns[p..];
    forall j | 0 <= j < |ms| ensures InsertAt(cs, p, (x.fd, x.data))[j] == (ms[j].fd, ms[j].data) {
      if j < p {
        assert ms[j] == ns[j];
      } else if p < j {
        assert ms[j] == ns[j - 1];
      }
    }
  }

  /** The entries follow the nodes through a removal. */
  lemma HoldsRemove<V>(ns: seq<Node<V>>, cs: seq<Entry<V>>, k: nat)
    requires Holds(ns, cs) && k < |ns|
    ensures Holds(ns[..k] + ns[k + 1..], RemoveAt(cs, k))
  {
    var ms := ns[..k] + ns[k + 1..];
    forall j | 0 <= j < |ms| ensures RemoveAt(cs, k)[j] == (ms[j].fd, ms[j].data) {
      if j < k {
        assert ms[j] == ns[j];
      } else {
        assert ms[j] == ns[j + 1];
      }
    }
  }

  /** One link of the chain; its key and value are fixed when it is made. */
  class Node<V> {
    const fd: int
    const data: V
    var prev: Node?<V>
    var next: Node?<V>

    constructor (fd: int, data: V, prev: Node?<V>, next: Node?<V>)
      ensures this.fd == fd && this.data == data
      ensures this.prev == prev && this.next == next
    {
      this.fd := fd;
      this.data := data;
      this.prev, this.next := prev, next;
    }
  }

  class List<V> {
    var kind: ListType
    var size: nat
    var head: Node?<V>
    var tail: Node?<V>

    /** The nodes from head to tail. */
    ghost var Nodes: seq<Node<V>>
    /** The (fd, data) pairs from head to tail: the abstract value. */
    ghost var Contents: seq<Entry<V>>
    /** Every object the list uses: itself and its nodes. */
    ghost var Repr: set<object>
    /** False once the list has been released. */
    ghost var Live: bool

    /** The doubly linked shape: head and tail are the ends of `Nodes`, each
        node's prev and next are its neighbours in `Nodes` (null at the
        ends), no node appears twice, and `size` counts the nodes. */
    ghost predicate Chain()
      reads this, Repr
    {
      this in Repr && (forall x :: x in Nodes ==> x in Repr) &&
      size == |Nodes| &&
      (if Nodes == [] then head == null && tail == null
       else head == Nodes[0] && tail == Nodes[|Nodes| - 1]) &&
      Links(Nodes) && Holds(Nodes, Contents) && Distinct(Nodes)
    }

    /** A live list with its shape intact and, in ORDERED mode, sorted. */
    ghost predicate Valid()
      reads this, Repr
    {
      Chain() && Live && (kind == Ordered ==> Sorted(Contents))
    }

    /** An empty list of the given kind. */
    constructor (kind: ListType)
      ensures Valid() && fresh(Repr)
      ensures this.kind == kind && Contents == []
      ensures head == null && tail == null && size == 0
    {
      this.kind := kind;
      size := 0;
      head, tail := null, null;
      Nodes, Contents := [], [];
      Repr := {this};
      Live := true;
    }

    /** Create a list from the integer list type; any value other than the
        two known ones yields null. */
    static method New(t: int) returns (list: List?<V>)
      ensures list != null <==> (t == FifoTag || t == OrderedTag)
      ensures list != null ==>
        list.Valid() && fresh(list.Repr) && list.Contents == [] &&
        list.head == null && list.tail == null && list.size == 0 &&
        list.kind == (if t == FifoTag then Fifo else Ordered)
    {
      if t != FifoTag && t != OrderedTag {
        return null;
      }
      list := new List<V>(if t == FifoTag then Fifo else Ordered);
    }

    /** Release the list; it may not be used afterwards. */
    method Free()
      requires Valid()
      modifies this
      ensures !Live
    {
      Live := false;
    }

    /** The number of mappings held. */
    function Size(): (n: nat)
      reads this, Repr
      requires Valid()
      ensures n == |Contents|
      ensures n == 0 <==> head == null
    {
      size
    }

    /** The neighbours of the node at position `k`. */
    lemma ChainAt(k: nat)
      requires Chain() && k < |Nodes|
      ensures Nodes[k].prev == (if k == 0 then null else Nodes[k - 1])
      ensures Nodes[k].next == (if k == |Nodes| - 1 then null else Nodes[k + 1])
      ensures (Nodes[k].fd, Nodes[k].data) == Contents[k]
      ensures Nodes[k] in Repr
      ensures k > 0 ==> Nodes[k - 1] in Repr
      ensures k < |Nodes| - 1 ==> Nodes[k + 1] in Repr
    {
    }

    /** The index at which `Link` puts its node: a null reference means the
        head for BEFORE and the tail for AFTER. */
    ghost function LinkIndex(placement: Placement, refnode: Node?<V>): (p: nat)
      reads this
      requires refnode == null || refnode in Nodes
      ensures p <= |Nodes|
    {
      if refnode == null then (if placement == Before then 0 else |Nodes|)
      else if placement == Before then IndexOf(Nodes, refnode)
      else IndexOf(Nodes, refnode) + 1
    }

    /** Insert a node that is not yet in the list, before or after
        `refnode`. */
    method Link(node: Node<V>, placement: Placement, refnode: Node?<V>)
      requires Chain() && node !in Repr
      requires refnode == null || refnode in Nodes
      modifies this, Repr, node
      ensures Chain() && kind == old(kind) && Live == old(Live)
      ensures Repr == old(Repr) + {node}
      ensures size == old(size) + 1
      ensures var p := old(LinkIndex(placement, refnode));
        Nodes == old(Nodes[..p] + [node] + Nodes[p..]) &&
        Contents == old(InsertAt(Contents, p, (node.fd, node.data)))
    {
      var ref := refnode;
      if ref == null {
        if head == null {
          LinkOnly(node);
          return;
        }
        ref := if placement == Before then head else tail;
        DistinctAt(Nodes, |Nodes| - 1);
      }
      if placement == Before {
        LinkBefore(node, ref);
      } else {
        LinkAfter(node, ref);
      }
    }

    /** `Link` into an empty list: the only place there is. */
    method LinkOnly(node: Node<V>)
      requires Chain() && node !in Repr && head == null
      modifies this, node
      ensures Chain() && kind == old(kind) && Live == old(Live)
      ensures Repr == old(Repr) + {node}
      ensures size == old(size) + 1
      ensures Nodes == [node] && Contents == [(node.fd, node.data)]
    {
      node.next := null;
      node.prev := null;
      head := node;
      tail := node;
      size := size + 1;
      Nodes, Contents := [node], [(node.fd, node.data)];
      Repr := Repr + {node};
    }

    /** `Link` BEFORE a reference node that is in the list. */
    method LinkBefore(node: Node<V>, ref: Node<V>)
      requires Chain() && node !in Repr && ref in Nodes
      modifies this, Repr, node
      ensures Chain() && kind == old(kind) && Live == old(Live)
      ensures Repr == old(Repr) + {node}
      ensures size == old(size) + 1
      ensures var p := old(IndexOf(Nodes, ref));
        Nodes == old(Nodes[..p] + [node] + Nodes[p..]) &&
        Contents == old(InsertAt(Contents, p, (node.fd, node.data)))
    {
      ghost var N, C := Nodes, Contents;
      ghost var p := IndexOf(N, ref);
      assert forall i :: 0 <= i < |N| ==> N[i] in Repr;
      assert Holds(N, C);
      HoldsInsert(N, C, p, node);
      DistinctInsert(N, p, node);
      SpliceMembers(N, p, node, Repr + {node});
      Nodes, Contents, Repr := N[..p] + [node] + N[p..], InsertAt(C, p, (node.fd, node.data)), Repr + {node};
      SpliceBefore(N, p, node, ref);
    }

    /** `Link` AFTER a reference node that is in the list. */
    method LinkAfter(node: Node<V>, ref: Node<V>)
      requires Chain() && node !in Repr && ref in Nodes
      modifies this, Repr, node
      ensures Chain() && kind == old(kind) && Live == old(Live)
      ensures Repr == old(Repr) + {node}
      ensures size == old(size) + 1
      ensures var p := old(IndexOf(Nodes, ref)) + 1;
        Nodes == old(Nodes[..p] + [node] + Nodes[p..]) &&
        Contents == old(InsertAt(Contents, p, (node.fd, node.data)))
    {
      ghost var N, C := Nodes, Contents;
      ghost var p := IndexOf(N, ref) + 1;
      assert forall i :: 0 <= i < |N| ==> N[i] in Repr;
      assert Holds(N, C);
      HoldsInsert(N, C, p, node);
      DistinctInsert(N, p, node);
      SpliceMembers(N, p, node, Repr + {node});
      Nodes, Contents, Repr := N[..p] + [node] + N[p..], InsertAt(C, p, (node.fd, node.data)), Repr + {node};
      SpliceAfter(N, p, node, ref);
    }

    /** The link updates that put `node` just before `ref`, the node at
        position `p` of the chain `ns`. */
    method SpliceBefore(ghost ns: seq<Node<V>>, ghost p: nat, node: Node<V>, ref: Node<V>)
      requires p < |ns| && ref == ns[p] && node !in ns
      requires Links(ns) && Distinct(ns) && Nodes == ns[..p] + [node] + ns[p..]
      requires head == ns[0] && tail == ns[|ns| - 1] && size == |ns|
      modifies this, node, ns
      ensures Nodes == old(Nodes) && Contents == old(Contents) && Repr == old(Repr)
      ensures Links(Nodes) && head == Nodes[0] && tail == Nodes[|Nodes| - 1]
      ensures size == |Nodes|
      ensures kind == old(kind) && Live == old(Live)
    {
      DistinctAt(ns, p);
      if p > 0 {
        DistinctAt(ns, p - 1);
      }
      node.next := ref;
      node.prev := ref.prev;
      if ref.prev != null {
        ref.prev.next := node;
      } else {
        head := node;
      }
      ref.prev := node;
      size := size + 1;
      assert forall i {:trigger ns[i].next} :: 0 <= i < |ns| && i + 1 != p ==>
        ns[i].next == old(ns[i].next);
      assert forall i {:trigger ns[i].prev} :: 0 <= i < |ns| && i != p ==>
        ns[i].prev == old(ns[i].prev);
      LinksInsert(ns, p, node);
    }

    /** The link updates that put `node` just after `ref`, the node at
        position `p - 1` of the chain `ns`. */
    method SpliceAfter(ghost ns: seq<Node<V>>, ghost p: nat, node: Node<V>, ref: Node<V>)
      requires 0 < p <= |ns| && ref == ns[p - 1] && node !in ns
      requires Links(ns) && Distinct(ns) && Nodes == ns[..p] + [node] + ns[p..]
      requires head == ns[0] && tail == ns[|ns| - 1] && size == |ns|
      modifies this, node, ns
      ensures Nodes == old(Nodes) && Contents == old(Contents) && Repr == old(Repr)
      ensures Links(Nodes) && head == Nodes[0] && tail == Nodes[|Nodes| - 1]
      ensures size == |Nodes|
      ensures kind == old(kind) && Live == old(Live)
    {
      DistinctAt(ns, p - 1);
      if p < |ns| {
        DistinctAt(ns, p);
      }
      node.next := ref.next;
      node.prev := ref;
      if ref.next != null {
        ref.next.prev := node;
      } else {
        tail := node;
      }
      ref.next := node;
      size := size + 1;
      assert forall i {:trigger ns[i].next} :: 0 <= i < |ns| && i + 1 != p ==>
        ns[i].next == old(ns[i].next);
      assert forall i {:trigger ns[i].prev} :: 0 <= i < |ns| && i != p ==>
        ns[i].prev == old(ns[i].prev);
      LinksInsert(ns, p, node);
    }

    /** Take `node` out of the chain, re-patching head and tail. */
    method Unlink(node: Node<V>)
      requires Chain() && node in Nodes
      modifies this, Repr
      ensures Chain() && kind == old(kind) && Live == old(Live)
      ensures Repr == old(Repr)
      ensures size == old(size) - 1
      ensures var k := old(IndexOf(Nodes, node));
        Nodes == old(Nodes[..k] + Nodes[k + 1..]) &&
        Contents == old(RemoveAt(Contents, k))
    {
      ghost var N, C := Nodes, Contents;
      ghost var k := IndexOf(N, node);
      assert forall i :: 0 <= i < |N| ==> N[i] in Repr;
      Nodes, Contents := N[..k] + N[k + 1..], RemoveAt(C, k);
      Bypass(N, k, node);
      assert Holds(N, C);
      HoldsRemove(N, C, k);
      DistinctRemove(N, k);
    }

    /** The link updates that take `node`, at position `k` of the chain
        `ns`, out of it. */
    method Bypass(ghost ns: seq<Node<V>>, ghost k: nat, node: Node<V>)
      requires k < |ns| && node == ns[k] && size > 0
      requires Links(ns) && Distinct(ns)
      modifies this, ns
      ensures Links(ns[..k] + ns[k + 1..])
      ensures head == (if k == 0 then (if |ns| == 1 then null else ns[1]) else old(head))
      ensures tail == (if k == |ns| - 1 then (if k == 0 then null else ns[k - 1]) else old(tail))
      ensures size == old(size) - 1
      ensures kind == old(kind) && Live == old(Live)
      ensures Nodes == old(Nodes) && Contents == old(Contents) && Repr == old(Repr)
    {
      if k > 0 {
        DistinctAt(ns, k - 1);
      }
      if k + 1 < |ns| {
        DistinctAt(ns, k + 1);
      }
      if node.prev != null {
        node.prev.next := node.next;
      } else {
        head := node.next;
      }
      if node.next != null {
        node.next.prev := node.prev;
      } else {
        tail := node.prev;
      }
      size := size - 1;
      assert forall i {:trigger ns[i].next} :: 0 <= i < |ns| && i + 1 != k ==>
        ns[i].next == old(ns[i].next);
      assert forall i {:trigger ns[i].prev} :: 0 <= i < |ns| && i != k + 1 ==>
        ns[i].prev == old(ns[i].prev);
      LinksRemove(ns, k);
    }

    /** The first node holding `fd`, or null. In ORDERED mode the search
        stops at the first larger key. */
    method FdFind(fd: int) returns (node: Node?<V>)
      requires Valid()
      ensures node == null <==> !Contains(Contents, fd)
      ensures node != null ==> node == Nodes[FirstIndex(Contents, fd)]
    {
      node := head;
      ghost var i := 0;
      match kind {
      case Fifo =>
        while node != null
          invariant i <= |Nodes| && node == (if i < |Nodes| then Nodes[i] else null)
          invariant forall j :: 0 <= j < i ==> Contents[j].0 != fd
          decreases |Nodes| - i
        {
          ChainAt(i);
          if node.fd == fd {
            FirstIndexUnique(Contents, fd, i);
            return;
          }
          node := node.next;
          i := i + 1;
        }
      case Ordered =>
        while node != null
          invariant i <= |Nodes| && node == (if i < |Nodes| then Nodes[i] else null)
          invariant forall j :: 0 <= j < i ==> Contents[j].0 != fd
          decreases |Nodes| - i
        {
          ChainAt(i);
          if node.fd == fd {
            FirstIndexUnique(Contents, fd, i);
            return;
          } else if node.fd > fd {
            SortedEarlyExit(Contents, i, fd);
            return null;
          }
          node := node.next;
          i := i + 1;
        }
      }
    }

    /** The data of the first mapping for `fd`. When there is none the
        result is false and `prior`, the caller's location, is returned
        unchanged. */
    method Find(fd: int, prior: V) returns (found: bool, data: V)
      requires Valid()
      ensures found <==> Contains(Contents, fd)
      ensures data == (if found then Contents[FirstIndex(Contents, fd)].1 else prior)
    {
      var node := head;
      ghost var i := 0;
      match kind {
      case Fifo =>
        while node != null
          invariant i <= |Nodes| && node == (if i < |Nodes| then Nodes[i] else null)
          invariant forall j :: 0 <= j < i ==> Contents[j].0 != fd
          decreases |Nodes| - i
        {
          ChainAt(i);
          if node.fd == fd {
            FirstIndexUnique(Contents, fd, i);
            return true, node.data;
          }
          node := node.next;
          i := i + 1;
        }
      case Ordered =>
        while node != null
          invariant i <= |Nodes| && node == (if i < |Nodes| then Nodes[i] else null)
          invariant forall j :: 0 <= j < i ==> Contents[j].0 != fd
          decreases |Nodes| - i
        {
          ChainAt(i);
          if node.fd == fd {
            FirstIndexUnique(Contents, fd, i);
            return true, node.data;
          } else if node.fd > fd {
            SortedEarlyExit(Contents, i, fd);
            return false, prior;
          }
          node := node.next;
          i := i + 1;
        }
      }
      return false, prior;
    }

    /** Add a mapping; duplicates are allowed. FIFO appends at the tail;
        ORDERED inserts before the first node whose key is not smaller, so
        the keys stay sorted. */
    method Add(fd: int, data: V)
      requires Valid()
      modifies Repr
      ensures Valid() && old(Repr) <= Repr && fresh(Repr - old(Repr)) && kind == old(kind)
      ensures Contents == if kind == Fifo then old(Contents) + [(fd, data)]
                          else Insert(old(Contents), fd, data)
    {
      var node := new Node(fd, data, null, null);
      ghost var C := Contents;
      ghost var p: nat;
      var placement, ref;
      match kind {
      case Fifo =>
        // add to the tail
        placement, ref, p := After, tail, |C|;
        if tail != null {
          DistinctAt(Nodes, |Nodes| - 1);
        }
        InsertAtEnd(C, (fd, data));
      case Ordered =>
        // before the first node whose key is not smaller, else at the end
        ref := Seek(fd);
        placement := if ref != null then Before else After;
        p := InsertPos(C, fd);
        if ref != null {
          DistinctAt(Nodes, p);
        }
        InsertSorted(C, fd, data);
      }
      assert LinkIndex(placement, ref) == p;
      Link(node, placement, ref);
    }

    /** The ORDERED search of `Add`: the first node whose key is not smaller
        than `fd`, or null when every key is smaller. */
    method Seek(fd: int) returns (runner: Node?<V>)
      requires Valid()
      ensures var i := InsertPos(Contents, fd);
        runner == if i < |Nodes| then Nodes[i] else null
    {
      runner := head;
      ghost var i := 0;
      while runner != null && runner.fd < fd
        invariant i <= |Nodes| && runner == (if i < |Nodes| then Nodes[i] else null)
        invariant forall j :: 0 <= j < i ==> Contents[j].0 < fd
        decreases |Nodes| - i
      {
        ChainAt(i);
        runner := runner.next;
        i := i + 1;
      }
      if i < |Nodes| {
        ChainAt(i);
      }
      InsertPosUnique(Contents, fd, i);
    }

    /** `Add` with the ORDERED search loop as the C source writes it: the
        runner advances to the new node's own successor, which is null, so
        only the head's key is ever compared. */
    method AddAsWritten(fd: int, data: V)
      requires Chain() && Live
      modifies Repr
      ensures Chain() && Live && old(Repr) <= Repr && fresh(Repr - old(Repr)) && kind == old(kind)
      ensures Contents == if kind == Fifo then old(Contents) + [(fd, data)]
                          else AsWrittenInsert(old(Contents), fd, data)
    {
      var node := new Node(fd, data, null, null);
      ghost var C := Contents;
      ghost var p: nat;
      var placement, ref;
      match kind {
      case Fifo =>
        placement, ref, p := After, tail, |C|;
        if tail != null {
          DistinctAt(Nodes, |Nodes| - 1);
        }
        InsertAtEnd(C, (fd, data));
      case Ordered =>
        ref := SeekAsWritten(fd, node);
        placement := if ref != null then Before else After;
        p := AsWrittenInsertPos(C, fd);
        if ref != null {
          DistinctAt(Nodes, 0);
        } else {
          InsertAtEnd(C, (fd, data));
        }
      }
      assert LinkIndex(placement, ref) == p;
      Link(node, placement, ref);
    }

    /** The ORDERED search loop as written: after the first step the runner
        is the new node's successor, which is null. */
    method SeekAsWritten(fd: int, node: Node<V>) returns (runner: Node?<V>)
      requires Chain() && node.next == null
      ensures runner == if Nodes != [] && fd <= Contents[0].0 then head else null
    {
      runner := head;
      while runner != null && runner.fd < fd
        invariant runner == head || runner == null
        invariant runner == null && head != null ==> head.fd < fd
        decreases if runner == null then 0 else 1
      {
        runner := node.next;
      }
      if head != null {
        ChainAt(0);
      }
    }

    /** Remove the first mapping for `fd`; false when there is none. */
    method Rm(fd: int) returns (removed: bool)
      requires Valid()
      modifies Repr
      ensures Valid() && Repr == old(Repr) && kind == old(kind)
      ensures removed <==> Contains(old(Contents), fd)
      ensures Contents == RemoveFirst(old(Contents), fd)
    {
      var node := FdFind(fd);
      if node != null {
        ghost var k := FirstIndex(Contents, fd);
        DistinctAt(Nodes, k);
        if kind == Ordered {
          RemoveFirstSorted(Contents, fd);
        }
        Unlink(node);
        return true;
      }
      return false;
    }

    /** Remove the head mapping and report it; when the list is empty the
        result is false and `priorFd` and `priorData` come back unchanged. */
    method Pop(priorFd: int, priorData: V) returns (ok: bool, fd: int, data: V)
      requires Valid()
      modifies Repr
      ensures Valid() && Repr == old(Repr) && kind == old(kind)
      ensures ok <==> old(Contents) != []
      ensures ok ==> (fd, data) == old(Contents[0]) && Contents == old(Contents[1..])
      ensures !ok ==> fd == priorFd && data == priorData && Contents == old(Contents)
    {
      if head != null {
        var node := head;
        DistinctAt(Nodes, 0);
        ChainAt(0);
        RemoveAtFront(Contents);
        Unlink(node);
        return true, node.fd, node.data;
      }
      return false, priorFd, priorData;
    }

    /** Report the head mapping without removing it. */
    method Peek(priorFd: int, priorData: V) returns (ok: bool, fd: int, data: V)
      requires Valid()
      ensures ok <==> Contents != []
      ensures ok ==> (fd, data) == Contents[0]
      ensures !ok ==> fd == priorFd && data == priorData
    {
      if head != null {
        ChainAt(0);
        return true, head.fd, head.data;
      }
      return false, priorFd, priorData;
    }
  }
}
