/** Clients of the list and the map that exercise the documented behaviour
    of each mode: the queue order of FIFO lists, the sorted order and the
    most-recent-first duplicates of ORDERED lists, and a map whose keys
    collide in one bucket. */
module Scenarios {
  import opened ListSpec
  import opened FdmapList
  import opened Fdmap

  /** A list type outside the two known ones is refused. */
  method UnknownType(t: int) returns (refused: bool)
    requires t != FifoTag && t != OrderedTag
    ensures refused
  {
    var list := List<int>.New(t);
    refused := list == null;
  }

  /** Add every entry of `es`, in order. */
  method Fill<V>(list: List<V>, es: seq<Entry<V>>)
    requires list.Valid() && list.kind == Fifo
    modifies list.Repr
    ensures list.Valid() && list.kind == Fifo
    ensures old(list.Repr) <= list.Repr && fresh(list.Repr - old(list.Repr))
    ensures list.Contents == old(list.Contents) + es
  {
    var i := 0;
    while i < |es|
      invariant i <= |es| && list.Valid() && list.kind == Fifo
      invariant old(list.Repr) <= list.Repr && fresh(list.Repr - old(list.Repr))
      invariant list.Contents == old(list.Contents) + es[..i]
    {
      list.Add(es[i].0, es[i].1);
      assert es[..i + 1] == es[..i] + [es[i]];
      i := i + 1;
    }
    assert es[..i] == es;
  }

  /** Pop until the list reports empty; the entries come out in list
      order. */
  method Drain<V>(list: List<V>, prior: V) returns (out: seq<Entry<V>>)
    requires list.Valid()
    modifies list.Repr
    ensures list.Valid() && list.Contents == []
    ensures out == old(list.Contents)
  {
    out := [];
    var ok := true;
    while ok
      invariant list.Valid() && list.Repr == old(list.Repr)
      invariant old(list.Contents) == out + list.Contents
      invariant !ok ==> list.Contents == []
      decreases |list.Contents| + (if ok then 1 else 0)
    {
      ghost var rest := list.Contents;
      var fd, data;
      ok, fd, data := list.Pop(0, prior);
      if ok {
        assert list.Contents == rest[1..];
        assert rest == [(fd, data)] + rest[1..];
        out := out + [(fd, data)];
      }
    }
  }

  /** In FIFO mode, adding any entries and then popping until empty gives
      them back in insertion order. */
  method FifoOrder<V>(es: seq<Entry<V>>, prior: V) returns (out: seq<Entry<V>>)
    ensures out == es
  {
    var list := new List<V>(Fifo);
    Fill(list, es);
    out := Drain(list, prior);
  }

  /** In ORDERED mode keys added as 5, 1, 3 come out as 1, 3, 5. */
  method OrderedSorts<V>(u: V, v: V, w: V) returns (a: int, b: int, c: int)
    ensures a == 1 && b == 3 && c == 5
  {
    var list := new List<V>(Ordered);
    list.Add(5, u);
    list.Add(1, v);
    list.Add(3, w);
    OrderedAddSequence(u, v, w);
    var ok, d;
    ok, a, d := list.Pop(0, u);
    ok, b, d := list.Pop(0, u);
    ok, c, d := list.Pop(0, u);
  }

  /** A duplicate key goes in front of the earlier one: find sees the most
      recent value, and after one rm the earlier value again. */
  method OrderedDuplicates<V>(fd: int, u: V, v: V, prior: V) returns (first: V, second: V, gone: bool)
    ensures first == v && second == u && !gone
  {
    var list := new List<V>(Ordered);
    list.Add(fd, u);
    list.Add(fd, v);
    var found;
    found, first := list.Find(fd, prior);
    var removed := list.Rm(fd);
    found, second := list.Find(fd, prior);
    removed := list.Rm(fd);
    var last;
    gone, last := list.Find(fd, prior);
  }

  /** Peek shows the head without taking it. */
  method PeekKeeps<V>(x: int, u: V) returns (a: int, b: int, n: nat)
    ensures a == x && b == x && n == 1
  {
    var list := new List<V>(Fifo);
    list.Add(x, u);
    var ok, d;
    ok, a, d := list.Peek(0, u);
    ok, b, d := list.Peek(0, u);
    n := list.Size();
  }

  /** A map made with a non-positive size gets the default ten buckets, so
      keys 3 and 13 share bucket 3; each keeps its own value there, and the
      count is two. */
  method Colliding<V>(u: V, v: V) returns (m: FdMap<V>)
    ensures m.Valid() && fresh(m.Repr) && m.size == 10 && m.items == 2
    ensures m.Hash(3) == m.Hash(13) == 3
    ensures m.Lookup(3) == [u] && m.Lookup(13) == [v]
  {
    m := new FdMap<V>(0);
    EmptyLookup<V>(10, 3);
    EmptyLookup<V>(10, 13);
    ghost var B := m.Buckets;
    m.Add(3, u);
    LookupAfterAdd(B, 3, u, 3);
    LookupAfterAdd(B, 3, u, 13);
    B := m.Buckets;
    m.Add(13, v);
    LookupAfterAdd(B, 13, v, 3);
    LookupAfterAdd(B, 13, v, 13);
  }

  /** Both colliding keys are found with their own values. */
  method CollisionFind<V>(u: V, v: V, prior: V) returns (a: V, b: V)
    ensures a == u && b == v
  {
    var m := Colliding(u, v);
    var found;
    found, a := m.Find(3, prior);
    found, b := m.Find(13, prior);
  }

  /** Removing one of two colliding keys leaves the other, and the count
      drops to one. */
  method CollisionRm<V>(u: V, v: V, prior: V) returns (c: bool, d: V, count: int)
    ensures !c && d == u && count == 1
  {
    var m := Colliding(u, v);
    ghost var B := m.Buckets;
    assert |B| == m.size;
    m.Rm(13);
    LookupAfterRm(B, 13, 13);
    LookupAfterRm(B, 13, 3);
    var e, found;
    c, e := m.Find(13, prior);
    found, d := m.Find(3, prior);
    count := m.items;
  }
}
