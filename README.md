# fdmap in Dafny

This project models fdmap, a small C library that maps non-negative integer keys
(file descriptors) to opaque values. It proves properties of that model. The
library has two parts, and each is modelled in its own imperative form.

**The key/value list** (`fdmap_list.c`) is a doubly linked list with a head, a
tail and a size counter. It works in one of two modes:

- FIFO mode: `add` appends at the tail, and `pop`/`peek` take from the head.
- ORDERED mode: `add` inserts before the first node whose key is at least the new
  key. `find` and `rm` stop early once a node's key exceeds the search key.

The model has two classes:

- `FdmapList.Node` holds the immutable `fd`/`data` and mutable `prev`/`next`.
- `FdmapList.List` holds `kind`, `size`, `head` and `tail`, plus ghost state:
  - `Nodes`, the node objects from head to tail;
  - `Contents`, their `(fd, data)` pairs, which is the abstract value;
  - `Repr`, the footprint;
  - `Live`, false once freed.

`Chain()` is the link invariant:

- head and tail are the ends of `Nodes`;
- every node's `prev`/`next` are its neighbours in `Nodes`, null at the ends;
- no node repeats;
- `size == |Nodes|`.

`Valid()` adds that an ORDERED list is sorted. The private helpers `link` and
`unlink` are methods that rewrite the links in place. Each one is proved to
insert or remove exactly one position of `Nodes`/`Contents`.

**The hash table** (`fdmap.c`) is `FdMap`. It holds an array `table` of ORDERED
lists; key `fd` lives in bucket `fd % size`. It also keeps a running `items`
counter. The ghost `Buckets` holds each bucket's chain. `Valid()` states:

- each bucket is a valid ORDERED list holding `Buckets[i]`;
- each key sits in its own bucket;
- the lists' footprints are pairwise disjoint;
- `items` is the sum of the bucket lengths.

The pure module `ListSpec` defines the chain operations on `seq<(int, V)>`, and
the methods are proved against them:

- `Insert`: the ORDERED insertion;
- `RemoveFirst`: removal of the first match;
- `FirstIndex`: the position of the first match;
- `ValuesOf`: the values of one key, head to tail.

The module `Scenarios` holds client methods for the documented behaviours:

- queue order in FIFO mode;
- sorting and duplicates in ORDERED mode;
- colliding keys in one bucket of the default-sized table.

Conventions:

- Out-parameters: `data_t *data` and `int *fd` become a `prior` input that comes
  back unchanged when nothing is found. This is the caller's old value of the
  location.
- `data_t` (a `void *`) is a type parameter `V`.
- The list type is the datatype `ListType`. `List.New` takes the enumeration's
  integer value, so that the failure case for an unknown type is kept.
- The C `assert`s are preconditions.
- `%` is C's truncating remainder (`Fdmap.CRem`). Because the table demands
  `fd >= 0`, it agrees with Dafny's `%` wherever it is used.

## Model

| member | source | states |
|---|---|---|
| ListSpec.InsertAt | fdmap_list.c:104-147 | placing an entry at position p shifts every later entry by one and keeps the earlier ones |
| ListSpec.RemoveAt | fdmap_list.c:152-175 | removing position p shifts every later entry back by one and keeps the earlier ones |
| ListSpec.InsertPos | fdmap_list.c:296-298 | the ORDERED insertion point: every earlier key is smaller than fd, and the key there, if any, is at least fd (the comment at line 297) |
| ListSpec.Insert | fdmap_list.c:294-307 | the intended ORDERED insertion: one entry longer, with the new entry at the insertion point |
| ListSpec.InsertPosUnique | fdmap_list.c:297-305 | that insertion point is the only position with those two properties |
| ListSpec.FirstIndex | fdmap_list.c:178-200 | the first position holding key fd; it is before the end exactly when the key is present |
| ListSpec.FirstIndexUnique | fdmap_list.c:182-186 | a position with fd there and no fd before it is FirstIndex |
| ListSpec.RemoveFirst | fdmap_list.c:319-330 | removal shortens the chain by one exactly when the key is present |
| ListSpec.ValuesOf | fdmap_list.c:246-273 | the values stored under key fd, head to tail, never more than the chain holds; find returns the first of them |
| ListSpec.InsertSorted | fdmap_list.c:294-307 | ORDERED insertion keeps the keys non-decreasing |
| ListSpec.InsertMultiset | fdmap_list.c:294-307 | ORDERED insertion adds exactly the new entry: the old entries are kept as a multiset |
| ListSpec.InsertBeforeFirstEqual | fdmap_list.c:299 | a duplicate key is inserted immediately before the first existing entry with that key |
| ListSpec.InsertAtEnd | fdmap_list.c:290-292 | linking after the tail appends |
| ListSpec.RemoveAtFront | fdmap_list.c:347-349 | unlinking the head leaves the rest of the chain |
| ListSpec.RemoveFirstSorted | fdmap_list.c:319-330 | removal keeps an ORDERED chain sorted |
| ListSpec.RemoveAtMultiset | fdmap_list.c:152-175 | unlinking a position removes exactly its entry |
| ListSpec.RemoveFirstMultiset | fdmap_list.c:319-330 | rm takes out exactly one entry with key fd when there is one, and changes nothing otherwise |
| ListSpec.SortedEarlyExit | fdmap_list.c:189-194 | the ORDERED early exit is sound: on a sorted chain, once a key exceeds fd with no fd before it, fd is absent |
| ListSpec.EarlyExitFind | fdmap_list.c:261-272 | the ORDERED lookup scan on any chain: it reports found only when the key is present |
| ListSpec.EarlyExitFindSorted | fdmap_list.c:261-272 | on a sorted chain the ORDERED lookup scan finds exactly the keys that are present |
| ListSpec.SortedFrontIsMinimum | fdmap_list.c:368-380 | the head of an ORDERED chain, which peek returns, has the smallest key |
| ListSpec.ValuesOfNone | fdmap_list.c:254-259 | a chain without the key holds no value for it |
| ListSpec.ValuesOfFirst | fdmap_list.c:246-273 | a key has no values exactly when it is absent, and otherwise its first value is the one at FirstIndex, which find returns |
| ListSpec.InsertValues | fdmap_list.c:294-307 | ORDERED add puts the new value first among its key's values and leaves every other key's values alone |
| ListSpec.AppendValues | fdmap_list.c:290-292 | FIFO add puts the new value last among its key's values and leaves every other key's values alone |
| ListSpec.RemoveFirstValues | fdmap_list.c:319-330 | rm drops the first value of its key and leaves every other key's values alone |
| ListSpec.InsertRemoveFirst | fdmap_list.c:294-330 | in ORDERED mode an rm right after an add of the same key takes out the entry just added and restores the chain |
| ListSpec.TotalSizeUpdate | fdmap.c:113-127 | replacing one bucket's chain changes the total by the change in that chain's length |
| ListSpec.AsWrittenInsertPos | fdmap_list.c:298 | the insertion point the loop reaches as written: the head when the list is empty or fd is at most the head's key, the end otherwise |
| ListSpec.AsWrittenInsert | fdmap_list.c:294-307 | the ORDERED add as written: the new entry goes in front when the chain is empty or fd is at most the head's key, and at the tail otherwise |
| ListSpec.AsWrittenAgreement | fdmap_list.c:298 | on a sorted chain the as-written point equals the intended one exactly when the new key belongs first or last |
| ListSpec.AsWrittenBreaksOrder | fdmap_list.c:298 | adding key 3 to keys 1, 5 as written gives 1, 5, 3, which is unsorted; the intended insertion gives 1, 3, 5 |
| ListSpec.AsWrittenAddSequence | fdmap_list.c:294-307 | adding keys 5, 1, 3 in turn as written gives 1, 5, 3 |
| ListSpec.AsWrittenMissesKey | fdmap_list.c:261-272 | after the as-written add of 3 to keys 1, 5 the chain holds 3, but the ORDERED lookup scan gives up at 5 and misses it; the intended add keeps 3 findable |
| ListSpec.OrderedAddSequence | fdmap_list.c:294-307 | adding keys 5, 1, 3 in turn as intended gives 1, 3, 5 |
| FdmapList.LinksInsert | fdmap_list.c:104-147 | a node spliced in with both neighbours pointing at it yields a correctly linked chain one longer |
| FdmapList.LinksRemove | fdmap_list.c:156-172 | a node bypassed by both neighbours leaves a correctly linked chain one shorter |
| FdmapList.DistinctInsert | fdmap_list.c:75-149 | inserting a node not yet in the list keeps the nodes distinct |
| FdmapList.DistinctRemove | fdmap_list.c:152-175 | unlinking keeps the rest distinct and drops exactly that node |
| FdmapList.HoldsInsert | fdmap_list.c:104-147 | after a splice the entries are the nodes' keys and values, with the new one at its position |
| FdmapList.HoldsRemove | fdmap_list.c:152-175 | after an unlink the entries are the remaining nodes' keys and values |
| FdmapList.Node.constructor | fdmap_list.c:44-53 | a new node holds the given key, value and links |
| FdmapList.List.constructor | fdmap_list.c:219-223 | a new list of a given kind is valid and empty: head and tail null, size 0 |
| FdmapList.List.New | fdmap_list.c:211-224 | a list comes back exactly when the type is FIFO or ORDERED, and then it is empty and of that kind |
| FdmapList.List.Free | fdmap_list.c:226-235 | the list is released and no longer live |
| FdmapList.List.Size | fdmap_list.c:237-241 | the size is the number of entries, and it is zero exactly when head is null |
| FdmapList.List.ChainAt | fdmap_list.c:20-36 | in a well-formed chain, each node's prev and next are its neighbours and it holds its entry |
| FdmapList.List.LinkIndex | fdmap_list.c:96-97 | a null reference node means the head for BEFORE and the end for AFTER |
| FdmapList.List.Link | fdmap_list.c:75-149 | link inserts the node at the requested side of the reference node: exactly one node added, size up by one, chain shape and prev/next agreement kept |
| FdmapList.List.LinkOnly | fdmap_list.c:83-94 | linking into an empty list makes the node both head and tail |
| FdmapList.List.LinkBefore | fdmap_list.c:104-124 | linking BEFORE puts the node at the reference node's position, moving head when the reference was the head |
| FdmapList.List.LinkAfter | fdmap_list.c:127-147 | linking AFTER puts the node just past the reference node, moving tail when the reference was the tail |
| FdmapList.List.SpliceBefore | fdmap_list.c:106-120 | the BEFORE link updates leave the chain linked with the new node in place |
| FdmapList.List.SpliceAfter | fdmap_list.c:129-143 | the AFTER link updates leave the chain linked with the new node in place |
| FdmapList.List.Unlink | fdmap_list.c:152-175 | unlink removes exactly that node, keeps the others in order, decrements size and re-patches head and tail |
| FdmapList.List.Bypass | fdmap_list.c:156-174 | the unlink link updates: head and tail move exactly when the node was first or last (both become null for the sole node) |
| FdmapList.List.FdFind | fdmap_list.c:178-200 | the node returned is the first with key fd, or null exactly when there is none; ORDERED mode stops early |
| FdmapList.List.Find | fdmap_list.c:246-273 | found exactly when some entry has key fd, with the first such value; otherwise the caller's value is left alone |
| FdmapList.List.Add | fdmap_list.c:281-310 | FIFO add appends at the tail; ORDERED add inserts at the intended position, keeping the list sorted |
| FdmapList.List.Seek | fdmap_list.c:296-298 | the intended scan stops at the node at the insertion point, or null at the end |
| FdmapList.List.AddAsWritten | fdmap_list.c:281-310 | add with the loop as written: FIFO appends, and ORDERED inserts at the as-written point |
| FdmapList.List.SeekAsWritten | fdmap_list.c:298 | the as-written scan yields the head when the list is empty or fd is at most the head's key, and null otherwise |
| FdmapList.List.Rm | fdmap_list.c:318-330 | true exactly when the key was present, and then exactly its first entry is removed; otherwise nothing changes |
| FdmapList.List.Pop | fdmap_list.c:342-356 | on a non-empty list, returns and removes the head entry; on an empty list, returns false and changes nothing |
| FdmapList.List.Peek | fdmap_list.c:368-380 | on a non-empty list, returns the head entry; otherwise false with the caller's values untouched; it never changes the list |
| Fdmap.CRem | fdmap.c:51-54 | C's remainder: equal to Dafny's `%` and within [0, n) for non-negative dividends, odd in the dividend otherwise |
| Fdmap.LookupIn | fdmap.c:136-144 | the values a key has in the table are those of its own bucket fd % size, no more than that bucket holds |
| Fdmap.EmptyBuckets | fdmap.c:79-82 | the initial table has the requested number of buckets, all empty |
| Fdmap.EmptyLookup | fdmap.c:71-83 | a fresh table has no value under any key and a total of zero |
| Fdmap.EmptyTotal | fdmap.c:71 | empty buckets add up to zero items |
| Fdmap.LookupAfterAdd | fdmap.c:107-116 | after add(fd, v), looking up fd gives v first, ahead of its earlier values, and every other key is unaffected |
| Fdmap.LookupAfterRm | fdmap.c:118-128 | after rm(fd), fd loses its most recent value and every other key is unaffected |
| Fdmap.LookupOtherBucket | fdmap.c:51-54 | a bucket holding only its own keys holds no value for a key that hashes elsewhere |
| Fdmap.ValuesInPrefix | fdmap.c:136-144 | the first m buckets hold values of fd exactly when fd's own bucket is among them |
| Fdmap.LookupComplete | fdmap.c:136-144 | looking only in the key's own bucket finds what a search of every bucket would |
| Fdmap.AsWrittenBucketMiss | fdmap.c:107-144 | with the as-written add and the default 10 buckets, adding 25, 5, 15 leaves bucket 5 as 5, 25, 15, and the lookup of 15 gives up at 25 although 15 is present |
| Fdmap.HashedInsert | fdmap.c:113-114 | adding a key to its own bucket keeps every key of that bucket hashing to it |
| Fdmap.HashedRemove | fdmap.c:124-125 | removal keeps every key of the bucket hashing to it |
| Fdmap.FdMap.Lookup | fdmap.c:136-144 | the values stored under fd, most recent first: those of its own bucket |
| Fdmap.FdMap.IsValid | fdmap.c:44-49 | the validity test fails for a null map, and a map holding its invariant (so with a non-null table) passes it |
| Fdmap.FdMap.Hash | fdmap.c:51-54 | for fd >= 0 the bucket is fd % size, an index in [0, size) |
| Fdmap.FdMap.constructor | fdmap.c:63-84 | size is initial_size when positive and 10 otherwise; every bucket is an empty ORDERED list and items is 0 |
| Fdmap.FdMap.NewTable | fdmap.c:74-82 | the loop fills n slots with fresh, empty ORDERED lists whose footprints are disjoint |
| Fdmap.FdMap.Free | fdmap.c:86-96 | the map is released and no longer live |
| Fdmap.FdMap.Add | fdmap.c:107-116 | only bucket fd % size changes, by ORDERED insertion; items grows by one even for a duplicate; size is kept |
| Fdmap.FdMap.BucketReplaced | fdmap.c:113-127 | changing one bucket in place, with the other buckets untouched and the counters updated, keeps the map invariant, including items == the sum of the bucket sizes |
| Fdmap.FdMap.Rm | fdmap.c:118-128 | only bucket fd % size changes, by removing the first match; items drops by one exactly when a mapping was removed |
| Fdmap.FdMap.Find | fdmap.c:136-144 | found exactly when fd has a value, which is then its most recent one; otherwise the caller's value is left alone |
| Scenarios.UnknownType | fdmap_list.c:215-218 | creating a list of an unknown type fails |
| Scenarios.Fill | fdmap_list.c:290-292 | FIFO adds of a sequence of entries append them in order |
| Scenarios.Drain | fdmap_list.c:342-356 | popping until failure returns every entry in list order and leaves the list empty |
| Scenarios.FifoOrder | fdmap_list.c:290-356 | in FIFO mode, N adds followed by pops return the entries in insertion order |
| Scenarios.OrderedSorts | fdmap_list.c:294-307 | in ORDERED mode, keys added as 5, 1, 3 pop as 1, 3, 5 |
| Scenarios.OrderedDuplicates | fdmap_list.c:299 | with a duplicate key, find sees the most recent value, then the earlier one after one rm, then nothing |
| Scenarios.PeekKeeps | fdmap_list.c:368-380 | peeking twice gives the same head and leaves the size unchanged |
| Scenarios.Colliding | fdmap.c:63-116 | with the default 10 buckets, keys 3 and 13 share bucket 3 and each keeps its own value |
| Scenarios.CollisionFind | fdmap.c:136-144 | both colliding keys are found with their own values |
| Scenarios.CollisionRm | fdmap.c:118-144 | removing one colliding key leaves the other, and items drops to one |

## Left out

- Allocation failure. `malloc`/`calloc` always succeed here, so the `NULL` returns
  of `fdmap_node_new`, `fdmap_list_new` and `fdmap_new` on allocation failure are
  not modelled. The same goes for the process exit through `err` in
  `fdmap_list_add` and `fdmap_new`. The unknown-type failure of `fdmap_list_new`
  is kept.
- Memory reclamation. `fdmap_list_free`, `fdmap_node_free_fwd`, `fdmap_node_free`
  and `fdmap_free` are modelled as clearing the ghost flag `Live`. Nothing is
  deallocated. The recursion of `fdmap_node_free_fwd` over the chain is not
  modelled, because it has no observable effect beyond the release.
- FdmapList.List.Free, Fdmap.FdMap.Free: only record the release. A released
  structure fails `Valid()` and so cannot be used again.
- FdmapList.List.Rm, FdmapList.List.Pop: the removed node is not freed and stays in
  the ghost footprint `Repr`. It is no longer in `Nodes`.
- Null out-parameters. `fdmap_list_pop` and `fdmap_list_peek` skip a null `fd` or
  `data` location. The model always returns both values, and a caller that passed
  null ignores them.
- The `fd_set fs` field of the map. It is never read or written.
- `compareints`, and the commented-out `fdmap_resize` and `fdmap_isin`. These are
  unused or dead code.
- The `default: assert(0)` branch of `fdmap_list_fd_find` and the silent fall-through
  of `fdmap_list_find` for a list type other than FIFO or ORDERED. The type is a
  two-valued datatype, so those branches cannot be reached.
- Integer widths. `size_t size`, `int items` and `int size` are unbounded here.
  Overflow after 2^31 adds is not modelled, and neither is the `size_t` underflow
  that `unlink`'s `size--` could cause on a corrupt list. `Chain()` rules the
  latter out.
- Fdmap.FdMap.Add, Fdmap.FdMap.Rm, Fdmap.FdMap.Find: require `fd >= 0`, as the C
  asserts do. The hash of a negative key, a non-positive remainder, is described
  by Fdmap.CRem and Fdmap.FdMap.Hash but never used as an index.
- Concurrency: none in the library, and the model is sequential.

## Findings

| source | as written | input that shows it | evidently intended | confidence | as-written member | corrected member |
|---|---|---|---|---|---|---|
| fdmap_list.c:298 | the ORDERED insertion loop advances with `runner = node->next`, the new node's still-null link, so it stops after the head: the node goes before the head if fd is at most the head's key, otherwise at the tail | an ORDERED list holding keys 1 and 5; add key 3: the chain becomes 1, 5, 3, and `fdmap_list_find` for 3 then stops at 5 and returns 0 (from empty, adding 5, 1, 3 also gives 1, 5, 3). In a table with the default 10 buckets, adding 25, 5, 15 and then calling `fdmap_find` for 15 returns 0 | `runner = runner->next`: run to the first node whose key is at least fd and insert before it, or at the tail (the comment at line 297), keeping the list sorted | high; not executed | ListSpec.AsWrittenBreaksOrder, ListSpec.AsWrittenMissesKey, ListSpec.AsWrittenAddSequence, Fdmap.AsWrittenBucketMiss, FdmapList.List.AddAsWritten | ListSpec.InsertSorted, ListSpec.EarlyExitFindSorted, FdmapList.List.Add |

The rest of the model, the hash table included, uses the corrected
`FdmapList.List.Add`. `FdmapList.List.AddAsWritten` only needs `Chain()`, because
as written the list does not stay sorted. `ListSpec.AsWrittenAgreement` gives the
exact condition under which the two agree: the new key belongs first or last.
