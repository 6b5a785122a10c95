# InsideLoop hash map and static 2-D array, modelled in Dafny

This project models two containers of the InsideLoop C++ library.

**`il::HashMap<K, V, F>`** (il/container/hash/HashMap.h) is an open-addressing hash table.
- All its state is one array of `KeyValue` slots plus two counters, `nb_entries_` and `nb_tombstones_`.
- A slot is empty, a tombstone or occupied, according to whether its key equals the key policy's empty sentinel, its tombstone sentinel, or neither.
- `search` probes from `hash & (capacity - 1)` with triangular steps 1, 2, 3, …. It makes at most `capacity` probes and answers with one signed integer:
  - `i >= 0`: found at slot `i`;
  - `-(1 + j)`: absent, insert at `j`;
  - `-(1 + capacity)`: absent, no room.
- `insert` grows the table first when needed, then stores at the decoded slot.
- `erase` writes a tombstone.
- `grow` rehashes the occupied slots into a fresh array and drops the tombstones.
- The iterator walks the occupied slots in index order.

**`il::StaticArray2D<T, n0, n1>`** (il/container/2d/StaticArray2D.h) is a fixed `n0 x n1` array. It is stored column by column in one buffer of `n0 * n1` elements, or of one element when that product is 0.

## Layout

| file | module | contents |
|---|---|---|
| arith.dfy | `Arith` | powers of two, Euclidean division facts, triangular numbers, set cardinality |
| sizing.dfy | `Sizing` | `next_power_of_2` on `bv64`, exactly as written, and `nb_bucket` |
| probing.dfy | `Probing` | the probe sequence, and the proof that it visits every slot of a power-of-two table |
| slots.dfy | `Slots` | `KeyValue`, the key policy, slot states, slot counts, and the map a slot array represents |
| search.dfy | `Search` | `search` as a function of the slots; the table invariant and the lemmas that store, erase and value updates keep it |
| iteration.dfy | `Iteration` | `HashMapIterator` as a class, and what a whole iteration visits |
| displacement.dfy | `Displacement` | the counts behind `displaced()` and `displaced_twice()` |
| hashmap.dfy | `HashMaps` | the `HashMap` class, with its bucket array, counters and methods |
| findings.dfy | `Findings` | the out-of-bounds store of `insert` on a table full of tombstones |
| staticarray2d.dfy | `StaticArrays` | the `StaticArray2D` class over an `array<T>` |

### How the source is modelled

**Key policy.** `HashFunction<K>` becomes a `Policy` value with three parts:
- a hash function into the integers;
- the empty sentinel;
- the tombstone sentinel.

Key equality is Dafny's `==`.

**Masking.** `hash & (capacity - 1)` is written `hash % capacity`. For a power-of-two capacity this is the two's-complement mask, negative hashes included.

**The `HashMap` class** keeps `bucket_` as an `array<KeyValue<K, V>>` field, reallocated by `grow`. Its class invariant `Valid()` says:
- the sentinels differ;
- the capacity is 0 or a power of two;
- the table is well formed: a search for the key of any occupied slot stops at that slot;
- `nb_entries_` is the number of occupied slots;
- the number of tombstone slots is at most `nb_tombstones_`.

**The represented map.** `Elements()` is the key/value map of the occupied slots. Every state-changing method states its effect on the array, on the counters and on `Elements()`.

**Search.** `search` is a method whose loop is proved equal to the recursive function `SearchSlots`. All the properties of search are proved about that function.

**Integer widths.** Entry counts are bounded by `MaxEntries = 2^60`. This keeps `3n/2 + 1` below the `2^62` from which the 64-bit `next_power_of_2` overflows.

## Model

| member | source | states |
|---|---|---|
| Sizing.NextPowerOf2Bits | il/container/hash/HashMap.h:364-380 | next_power_of_2 as written, on bv64: the five (six on 64 bits) shift-or steps, then + 1. It has no contract of its own; NextPowerOf2BitsCorrect proves it equal to NextPowerOf2 below 2^62, and NextPowerOf2BitsOverflow states what it gives above |
| Sizing.NextPowerOf2 | il/container/hash/HashMap.h:365-380 | the reference for next_power_of_2: a power of two strictly above i, at most 2i for i > 0, and the smallest such (r/2 <= i) |
| Sizing.NextPowerOf2BitsCorrect | il/container/hash/HashMap.h:365-380 | the bit-smearing code (shifts by 1, 2, 4, 8, 16, 32, then + 1) computes exactly NextPowerOf2(i) for every 0 <= i < 2^62 |
| Sizing.NextPowerOf2BitsZero | il/container/hash/HashMap.h:365-380 | next_power_of_2(0) is 1 |
| Sizing.NextPowerOf2BitsDoubles | il/container/hash/HashMap.h:365-380 | for a non-zero argument the result is twice the result for the argument shifted right by one |
| Sizing.NextPowerOf2BitsOverflow | il/container/hash/HashMap.h:365-380 | from 2^62 to 2^63 - 1 the smear yields 2^63 - 1 and the closing i + 1 is a signed overflow of il::int_t, undefined behaviour in C++; with wrap-around (as on bv64) the result is 2^63, the sign bit, so the value is negative and IL_ASSERT(i >= 0) fails |
| Sizing.NbBucket | il/container/hash/HashMap.h:383-385 | nb_bucket(0) == 1; otherwise a power of two above 3n/2 + 1 and at most 3n + 2; always above n |
| Probing.ProbeInRange | il/container/hash/HashMap.h:181-199 | every probed index lies in [0, capacity) |
| Probing.ProbeClosedForm | il/container/hash/HashMap.h:181-199 | probe step k lands on (hash + k(k+1)/2) mod capacity |
| Probing.ProbeInjective | il/container/hash/HashMap.h:184-199 | on a power-of-two capacity, the first capacity probes are pairwise distinct |
| Probing.ProbedCard | il/container/hash/HashMap.h:184-199 | the first n <= capacity probes of a power-of-two table visit n distinct slots |
| Probing.ProbeCovers | il/container/hash/HashMap.h:184-199 | on a power-of-two capacity, every slot is probed within the first capacity steps |
| Slots.DefaultSlot | il/container/hash/HashMap.h:29-33 | a default-constructed KeyValue holds the empty key and V{}, and so is an empty slot |
| Slots.CountUpdate | il/container/hash/HashMap.h:30-33 | overwriting one slot moves one unit from its old state's count to its new state's count |
| Slots.CountSum | il/container/hash/HashMap.h:30-33 | every slot is in exactly one state: empty + tombstone + occupied == capacity |
| Slots.CountZero | il/container/hash/HashMap.h:30-33 | a state's count is 0 exactly when no slot is in that state |
| Slots.CountWitness | il/container/hash/HashMap.h:30-33 | a positive count names a slot in that state |
| Slots.ContentsKeys | il/container/hash/HashMap.h:109-111 | a key is in the represented map exactly when some occupied slot holds it |
| Slots.ContentsValue | il/container/hash/HashMap.h:109-111 | with unique keys, the map sends each occupied slot's key to that slot's value |
| Slots.UniquePrefix | il/container/hash/HashMap.h:109-111 | a prefix of a table with unique keys has unique keys |
| Slots.LastKeyFresh | il/container/hash/HashMap.h:109-111 | in a table with unique keys, an occupied last slot's key is held by no earlier slot |
| Slots.ContentsSize | il/container/hash/HashMap.h:109-111 | with unique keys, the map has as many keys as there are occupied slots |
| Slots.ContentsStore | il/container/hash/HashMap.h:220-221 | storing a new key in a non-occupied slot adds exactly that pair to the map |
| Slots.ContentsErase | il/container/hash/HashMap.h:233-239 | a tombstone over an occupied slot removes exactly that slot's key from the map |
| Slots.ContentsSetValue | il/container/hash/HashMap.h:252-254 | a new value in an occupied slot updates that key's value; in any other slot it leaves the map unchanged |
| Slots.ContentsOfEmpty | il/container/hash/HashMap.h:142-145 | a table of empty slots represents the empty map |
| Search.SearchSlots | il/container/hash/HashMap.h:169-202 | search(key) as a function of the slots; its answer is always one of the three encodings, -(1 + capacity) <= r < capacity. What each answer means is stated by SearchFound, SearchNotFound, SearchNoSpace and SearchFoundIff, and HashMap.Search proves the loop equal to it |
| Search.SearchFound | il/container/hash/HashMap.h:184-187 | a non-negative answer i is in range and bucket_[i].key == key |
| Search.SearchNotFound | il/container/hash/HashMap.h:176-201 | an answer -(1 + j) other than -(1 + capacity) names a slot j in range that is not occupied and does not hold key, reached at some probe step k < capacity of key's sequence (InsertsAt). No earlier probe holds key, the empty key or a tombstone. Either j is empty, or j is the first tombstone probed and a later probe step k2 < capacity is empty, with no probe before k2 holding key or the empty key |
| Search.SearchNoSpace | il/container/hash/HashMap.h:176-201 | on a capacity 0 or power-of-two table, the answer is -(1 + capacity) exactly when no slot is empty and none holds key, whether or not a tombstone was passed |
| Search.SearchHasRoom | il/container/hash/HashMap.h:176-201 | a power-of-two table without tombstones and with fewer entries than slots never answers no-space |
| Search.WellformedUnique | il/container/hash/HashMap.h:170-202 | in a well-formed table no key is held by two occupied slots |
| Search.SearchFoundIff | il/container/hash/HashMap.h:170-207 | on a well-formed table, found(search(key)) exactly when key is in the map, and then the slot holds key and the map's value for it |
| Search.EmptyTableWellformed | il/container/hash/HashMap.h:142-145 | a table of empty slots is well formed, represents the empty map, and has no occupied and no tombstone slot |
| Search.StoreKeepsWellformed | il/container/hash/HashMap.h:212-222 | storing at the slot a not-found search named keeps the table well formed; a new search finds the key there; the map gains exactly that pair; occupied +1, tombstones not increased |
| Search.EraseKeepsWellformed | il/container/hash/HashMap.h:233-239 | a tombstone over an occupied slot keeps the table well formed; the map loses that key; occupied -1, tombstones +1 |
| Search.SetValueKeepsWellformed | il/container/hash/HashMap.h:252-254 | writing a slot's value keeps the table well formed and all counts; only an occupied slot changes the map |
| Iteration.NextOccupied | il/container/hash/HashMap.h:96-104 | the first occupied slot at or after pos, or the end; every slot skipped is empty or a tombstone |
| Iteration.WalkFrom | il/container/hash/HashMap.h:82-104 | walking with ++ from the first occupied slot at or after pos yields the occupied slots from pos on |
| Iteration.OccupiedFromMembers | il/container/hash/HashMap.h:82-104 | those slots are exactly the occupied ones from pos on, in strictly increasing order |
| Iteration.OccupiedFromLength | il/container/hash/HashMap.h:82-104 | their number is the occupied count from pos on |
| Iteration.IterationVisitsOccupied | il/container/hash/HashMap.h:320-342 | from begin() to end() by ++, an iteration visits every occupied slot exactly once, in index order; as many steps as occupied slots |
| Iteration.HashMapIterator.constructor | il/container/hash/HashMap.h:55-59 | an iterator stores its position and the end position of one bucket array |
| Iteration.HashMapIterator.Current | il/container/hash/HashMap.h:61-64 | operator*: the slot at the iterator's position. It has no contract of its own; IterationVisitsOccupied states which positions an iteration stands on |
| Iteration.HashMapIterator.Equals | il/container/hash/HashMap.h:71-74 | operator==: the two iterators point at the same slot of the same bucket array. It has no contract of its own; Begin, End and Increment state the positions it compares |
| Iteration.HashMapIterator.AdvancePastEmptyBuckets | il/container/hash/HashMap.h:96-104 | the position becomes NextOccupied(old position) |
| Iteration.HashMapIterator.Increment | il/container/hash/HashMap.h:82-86 | ++it moves to NextOccupied(old position + 1) |
| Displacement.DisplacedBounds | il/container/hash/HashMap.h:277-312 | displaced-twice count <= displaced count <= number of occupied slots |
| HashMaps.Found | il/container/hash/HashMap.h:204-207 | found(i) holds exactly for the answers that do not decode to a slot index -(1 + i) >= 0, so found and not-found answers partition the integers; SearchFoundIff ties it to membership in the map |
| HashMaps.GrowTarget | il/container/hash/HashMap.h:215-219 | the capacity insert grows to: a power of two above the entry count, never below the current capacity, and nb_bucket(nb_entries_) whenever the table is full |
| HashMaps.InsertSlotInBounds | il/container/hash/HashMap.h:212-222 | when insert does not grow, the slot -(1 + i) it writes is in bounds and not occupied |
| HashMaps.HashMap.Empty | il/container/hash/HashMap.h:142-145 | HashMap(): no slots, no entries, empty map |
| HashMaps.HashMap.WithCapacity | il/container/hash/HashMap.h:163-167 | HashMap(n): nb_bucket(n) empty slots (more than n), no entries |
| HashMaps.HashMap.FromList | il/container/hash/HashMap.h:148-160 | HashMap(il::value, list) with distinct keys: nb_bucket(n) slots, n entries, no tombstones; the map holds exactly the list's pairs |
| HashMaps.HashMap.Search | il/container/hash/HashMap.h:170-202 | the probing loop returns SearchSlots(key); with no modifies clause it changes nothing |
| HashMaps.HashMap.Store | il/container/hash/HashMap.h:220-222 | the closing store of insert: only slot j changes; nb_entries_ + 1 |
| HashMaps.HashMap.InsertAt | il/container/hash/HashMap.h:210-223 | insert(key, value, io, i) after a not-found search: the map gains the pair; size + 1; search now finds the pair. Without growth only slot -(1 + i) changes; with growth the array is fresh, of GrowTarget slots, without tombstones. The capacity never shrinks |
| HashMaps.HashMap.Insert | il/container/hash/HashMap.h:226-230 | insert(key, value) of an absent key: the map gains the pair; size + 1; search finds the pair. For i the search answer before the call: without growth the array is the same, only slot -(1 + i) changes, nb_tombstones_ is unchanged; with growth the array is fresh, of GrowTarget slots, with no tombstone and nb_tombstones_ == 0. The capacity never shrinks and the tombstone slots never increase |
| HashMaps.HashMap.Erase | il/container/hash/HashMap.h:233-239 | erase(i): slot i becomes (tombstone key, V{}), no other slot changes; nb_entries_ - 1; nb_tombstones_ + 1; the map loses that key |
| HashMaps.HashMap.Key | il/container/hash/HashMap.h:241-244 | key(i) reads slot i's key; it is a real key (neither sentinel) exactly when slot i is occupied |
| HashMaps.HashMap.Value | il/container/hash/HashMap.h:246-249 | value(i) reads slot i's value. It has no contract of its own; SlotIsElement states that at an occupied slot it is the map's value for key(i) |
| HashMaps.HashMap.SlotIsElement | il/container/hash/HashMap.h:242-249 | through key(i) and value(i) an occupied slot shows one pair of the map |
| HashMaps.HashMap.SetValue | il/container/hash/HashMap.h:252-254 | value(i) = v changes only slot i's value; an occupied slot's key now maps to v |
| HashMaps.HashMap.Size | il/container/hash/HashMap.h:257-259 | size() is the number of occupied slots and the number of keys in the map |
| HashMaps.HashMap.Capacity | il/container/hash/HashMap.h:262-264 | capacity() is 0 or a power of two, and at least size() |
| HashMaps.HashMap.IsEmpty | il/container/hash/HashMap.h:315-317 | empty() exactly when the map holds no key |
| HashMaps.HashMap.Reserve | il/container/hash/HashMap.h:267-269 | reserve(r): capacity nb_bucket(r); same map and size; no tombstones |
| HashMaps.HashMap.Grow | il/container/hash/HashMap.h:345-362 | grow(n), n >= capacity a power of two: a fresh array of n slots holding the same map and size, with no tombstone slot and nb_tombstones_ == 0 |
| HashMaps.HashMap.Displaced | il/container/hash/HashMap.h:277-293 | the loop counts the occupied slots away from their home slot hash & (capacity - 1) |
| HashMaps.HashMap.DisplacedTwice | il/container/hash/HashMap.h:296-312 | the loop counts the occupied slots neither at home nor, for i > 0, just after it |
| HashMaps.HashMap.Begin | il/container/hash/HashMap.h:320-336 | begin(): end() for an empty map, otherwise an iterator at the first occupied slot; the unbounded scan terminates |
| HashMaps.HashMap.End | il/container/hash/HashMap.h:339-342 | end(): an iterator one past the last slot |
| HashMaps.ListMapKeys | il/container/hash/HashMap.h:148-160 | the map of a pair list holds exactly the list's keys |
| HashMaps.ListMapStep | il/container/hash/HashMap.h:154-159 | the next pair of a list with distinct keys adds a fresh key |
| HashMaps.RehashStep | il/container/hash/HashMap.h:354-360 | re-inserting an occupied old slot into the new table finds room without growth; the new table stays well formed and holds the old prefix's map |
| HashMaps.RehashSkip | il/container/hash/HashMap.h:354-360 | skipping an empty or tombstone old slot leaves the map and the count unchanged |
| Findings.TombstoneTableWritesPastEnd | il/container/hash/HashMap.h:201 | a one-slot table holding a tombstone: search answers -(1 + 1); insert as written does not grow; it writes index 1, past the end; the corrected test grows |
| Findings.TombstoneTable | il/container/hash/HashMap.h:210-239 | HashMap(), then insert(a), then erase reaches that one-slot tombstone table |
| Findings.InsertIntoTombstoneTable | il/container/hash/HashMap.h:210-223 | with the corrected growth test, inserting b into that table grows it and leaves the map {b: vb} with no tombstones |
| StaticArrays.OffsetInRange | il/container/2d/StaticArray2D.h:166-178 | for in-range (i0, i1), the offset i1 * n0 + i0 is in [0, n0 * n1), and n0 * n1 is then the buffer length |
| StaticArrays.OffsetDecode | il/container/2d/StaticArray2D.h:166-178 | the offset divided by n0 gives i1, and its remainder gives i0 |
| StaticArrays.OffsetInjective | il/container/2d/StaticArray2D.h:173-178 | distinct in-range pairs have distinct offsets |
| StaticArrays.OffsetSeparates | il/container/2d/StaticArray2D.h:173-178 | the offset of (i0, i1) differs from that of every other in-range pair |
| StaticArrays.OffsetCovers | il/container/2d/StaticArray2D.h:32 | every one of the n0 * n1 elements is the offset of some in-range pair |
| StaticArrays.StaticArray2D.Default | il/container/2d/StaticArray2D.h:135-144 | StaticArray2D(): a buffer of n0 * n1 elements (1 if that is 0), contents unspecified |
| StaticArrays.StaticArray2D.Fill | il/container/2d/StaticArray2D.h:146-151 | StaticArray2D(value): all n0 * n1 elements, and so every A(i0, i1), equal value |
| StaticArrays.StaticArray2D.FromLists | il/container/2d/StaticArray2D.h:153-163 | StaticArray2D(il::value, list), with n1 inner lists of n0 elements each: A(i0, i1) == list[i1][i0] for every in-range pair |
| StaticArrays.StaticArray2D.Get | il/container/2d/StaticArray2D.h:165-171 | the const operator(): the element at offset i1 * n0 + i0, in bounds by OffsetInRange. It has no contract of its own; Fill, FromLists and Set state their effect through it |
| StaticArrays.StaticArray2D.Set | il/container/2d/StaticArray2D.h:165-178 | A(i0, i1) = v through the mutable accessor: the const accessor then reads v at (i0, i1) and the old value at every other pair |
| StaticArrays.StaticArray2D.Size | il/container/2d/StaticArray2D.h:180-184 | size(0) == n0 and size(1) == n1, for d in {0, 1} |

## Left out

- `HashFunction<K>` and `il::Array` are not part of this model. The key policy is an abstract hash function, `==`, and two distinct sentinels. The bucket array is a Dafny `array`, reallocated on growth.
- Both `insert` overloads declare the value parameter with type `K`. The model gives it type `V`, the value type of the map.
- `load()`, and the `double` ratios returned by `displaced()` and `displaced_twice()`, are floating point; on an empty map they divide by zero. Only the integer counts are modelled.
- HashMaps.HashMap.Displaced: returns the count `nb_displaced`, not the ratio `nb_displaced / nb_entries_` that the source returns as a `double`.
- HashMaps.HashMap.DisplacedTwice: returns the count `nb_displaced_twice`, not the `double` ratio.
- HashMaps.HashMap.WithCapacity: entry counts are limited to below 2^60. This keeps `nb_bucket` and `next_power_of_2` clear of 64-bit overflow, so their wrap-around is not modelled. Sizing.NextPowerOf2BitsOverflow states what happens beyond 2^62.
- HashMaps.HashMap.Reserve: requires `nb_bucket(r)` to be at least the current capacity, as the `IL_ASSERT` of `grow` demands. It is subject to the same 2^60 bound.
- HashMaps.HashMap.Erase: requires slot `i` to be occupied, the answer of a successful search. The source does not check this. Erasing an empty slot or a tombstone would make `nb_entries_` disagree with the table; the model does not follow that path.
- HashMaps.HashMap.Key and HashMaps.HashMap.Value: require `i` to be in bounds. The source reads `bucket_[i]` unchecked in a release build.
- `nb_tombstones_` is only an upper bound on the tombstone slots. Insert does not decrement it when it reuses a tombstone slot, and nothing reads it. So the invariant "live count + tombstone counter <= capacity" does not hold for the code. The model states the version that does hold: live + tombstone + empty slots == capacity (Slots.CountSum).
- `grow` re-inserts through the two-argument `insert`. The model inlines that call as a search and a store, and proves that its growth branch is never taken during the rehash (HashMaps.RehashStep).
- The post-increment `operator++(int)` returns a reference to a local copy, which dangles. It is not modelled. Pre-increment is modelled (Iteration.HashMapIterator.Increment).
- `operator->` is not modelled separately, as it is the same pointer as `operator*` (Iteration.HashMapIterator.Current). `operator!=` is not modelled separately, as it is the negation of `operator==` (Iteration.HashMapIterator.Equals). Iterator positions are offsets into the bucket array, not raw pointers.
- The debug-only `IL_DEFAULT_VALUE` fill in the `StaticArray2D` default constructor is not modelled. In a release build the buffer is left uninitialised, which the model expresses as unspecified contents.
- StaticArrays.StaticArray2D.Set and StaticArrays.StaticArray2D.Get: require in-range indices. The source checks bounds only in debug mode (`IL_EXPECT_BOUND`); out of range is undefined behaviour.
- StaticArrays.StaticArray2D.FromLists: requires `n1` inner lists of `n0` elements each. The source checks this only with `IL_EXPECT_FAST`; otherwise the behaviour is undefined.
- The doc comment of the initializer-list constructor shows a flat list of six values. The code takes a list of lists, one per column, and the model follows the code.
- The members `size_0_` and `size_1_` duplicate the template parameters `n0` and `n1`. The model keeps only `n0` and `n1`.
- `data()`, the raw pointer to the buffer, is not modelled. The buffer itself is the class's `data` array.
- The gdb pretty-printer text inside a comment of StaticArray2D.h is not code and is not modelled.

## Findings

| source | as written | input that shows it | evidently intended | confidence | as-written member | corrected member |
|---|---|---|---|---|---|---|
| il/container/hash/HashMap.h:215-221 | `insert` grows only when `nb_entries_ >= capacity`. A table whose slots are all occupied or tombstones, with fewer entries than slots, gets the answer `-(1 + capacity)` from `search`, and then `bucket_[capacity]` is written | `HashMap()`, `insert(a, va)`, `erase(search(a))`, `insert(b, vb)`: the table has one slot holding a tombstone; `search(b)` returns -2; index 1 is written in a one-slot array | grow also when search reports no space, to `max(nb_bucket(nb_entries_), capacity)`, before storing | not executed | Findings.TombstoneTableWritesPastEnd | HashMaps.HashMap.InsertAt |

The as-written growth test is `Findings.GrowsAsWritten`. `Findings.TombstoneTable` shows that the one-slot tombstone table is reachable through the class's own methods.

The corrected test is `HashMaps.GrowsOnInsert`, used by `HashMaps.HashMap.InsertAt`. Its store is proved in bounds (`HashMaps.InsertSlotInBounds`), and `Findings.InsertIntoTombstoneTable` follows the same scenario through it.
