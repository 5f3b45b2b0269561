# Verified model of the low-level containers of c-data-structures

This project models four containers of the C library, all in Dafny.

- **Flat dynamic array** (`c-data-structures/arraylike.h`). `IMPL_ARRAYLIKE` generates it once per element type, so the model is the generic class `ArrayLike.DynArray<T>` with the iterator `ArrayLike.DynArrayIterator<T>`.
  - `table` is the whole buffer; its length is `capacity`. `size` counts the elements, so the contents are `table[0, size)`.
  - `zero` is the element whose bytes are all zero, which `calloc` and `memset` produce.
  - A pointer that a `_ref` function returns is the index of its slot. A method `Store` writes through such a slot.
- **Growable list `AList`** (`struct/alist.c`): `ArrayList.AList<T>` and its cursor `ArrayList.ALIter<T>`.
  - `arr` is the buffer of `tableSz` slots, and the list grows by `DEFAULT_ARRAY_SZ` (6) slots when full.
  - `Get` reads the slot that `alist_get` points at. `Put` writes through the slot that `alist_add` returns.
- **Segmented list `SList`** (`struct/slist.c`): `StableList.SList`, with its block directory held in an `AList<Block?>`.
  - A block is a freshly allocated `StableList.Block` object.
  - A new block is appended exactly when `_size == num_blocks * SLIST_BLOCK_SIZE` (32).
  - Blocks are never moved or freed, and every directory entry in use is a different block.
  - The counter behaviour on its own is the function pair `AddLastCounters`/`RemoveLastCounters`. `Run` applies them along a sequence of operations starting from init.
- **Keyed list** (`struct/keyed_list.c`): `KeyedLists.KeyedList<K>`.
  - It pairs an `SList` of entries with a key map, `map<K, nat>`, from a key to the position of its entry.
  - `Inserted`/`EntryFor` specify insert-or-get on the abstract state `KState` (map, entry count).

Flat-array functions that only read state are Dafny functions over the object (`Get`, `Last`, `Size`, and so on). Operations that change state are methods with `modifies` clauses. Their postconditions give the new contents in terms of the old contents. They also keep the object invariant `Valid()`.

The C code has no `init(block_capacity)` that fails on zero; the block size of the segmented list is the compile-time constant 32. `struct/slist.c` implements no `get`, `set` or `pop_back`, and `slist_add_last` returns no address.

## Model

| member | source | states |
|---|---|---|
| `ArrayLike.RoundUp` | c-data-structures/arraylike.h:247-249 | the capacity asked for is the least multiple of DEFAULT_TABLE_SIZE (8) not below the request: a multiple of 8, in [n, n+8) |
| `ArrayLike.RoundUpIsLeast` | c-data-structures/arraylike.h:247-249 | no multiple of 8 that holds n elements is smaller than RoundUp(n) |
| `ArrayLike.Reserve` | c-data-structures/arraylike.h:250-257 | the buffer after ensure_capacity holds at least the request, never shrinks, keeps slots [0, size), is unchanged when the rounded request fits, and otherwise has exactly the rounded length with zeroes from `size` on |
| `ArrayLike.DynArray.constructor` | c-data-structures/arraylike_test.cc:30 | a zero-initialised array struct: no capacity, no elements, empty buffer |
| `ArrayLike.DynArray.InitCapacity` | c-data-structures/arraylike.h:194-202 | fails exactly for capacity 0 and changes nothing then; otherwise capacity is the requested one, there are no elements and the buffer is zeroed |
| `ArrayLike.DynArray.Init` | c-data-structures/arraylike.h:204-206 | succeeds with capacity DEFAULT_TABLE_SIZE and no elements |
| `ArrayLike.DynArray.EnsureCapacity` | c-data-structures/arraylike.h:244-258 | capacity unchanged when RoundUp(n) <= capacity, otherwise exactly RoundUp(n); afterwards capacity >= n, capacity never decreases, elements [0, size) unchanged |
| `ArrayLike.DynArray.ShiftLeft` | c-data-structures/arraylike.h:260-265 | with 0 < amount <= start (the source's assertion), slots [start, size) move down by `amount`; the slots before and after the moved range, size and capacity are unchanged |
| `ArrayLike.DynArray.ShiftRight` | c-data-structures/arraylike.h:267-274 | capacity reaches size + amount; slots [start, size) move up by `amount`, the opened slots are zero, the prefix is kept and size is unchanged |
| `ArrayLike.DynArray.Clear` | c-data-structures/arraylike.h:276-279 | no elements; buffer and capacity untouched |
| `ArrayLike.DynArray.PushFront` | c-data-structures/arraylike.h:281-288 | contents become [v] + old contents; capacity grows only through shift_right on a non-empty array |
| `ArrayLike.DynArray.PushFrontRef` | c-data-structures/arraylike.h:290-297 | returns slot 0; contents become [x] + old contents, x being zero after a shift and the stale slot 0 on an empty array |
| `ArrayLike.DynArray.PopFrontUnchecked` | c-data-structures/arraylike.h:299-307 | on a non-empty array returns old[0] and leaves old[1..] |
| `ArrayLike.DynArray.PopFront` | c-data-structures/arraylike.h:309-320 | fails on an empty array, writing nothing and changing nothing; otherwise returns old[0] and leaves old[1..] |
| `ArrayLike.DynArray.PushBack` | c-data-structures/arraylike.h:322-326 | contents become old contents + [v]; capacity is what ensure_capacity(size + 1) gives |
| `ArrayLike.DynArray.PushBackRef` | c-data-structures/arraylike.h:328-332 | returns slot old size; contents gain one element at the end, holding what ensure_capacity left in that slot |
| `ArrayLike.DynArray.PopBackUnchecked` | c-data-structures/arraylike.h:334-339 | on a non-empty array returns the last element and leaves old[..size-1]; buffer untouched |
| `ArrayLike.DynArray.PopBack` | c-data-structures/arraylike.h:341-349 | fails on an empty array without change; otherwise returns the last element and leaves old[..size-1] |
| `ArrayLike.DynArray.LShrink` | c-data-structures/arraylike.h:351-359 | for k > 0: fails without change when size < k, otherwise leaves old[k..]; capacity unchanged |
| `ArrayLike.DynArray.RShrink` | c-data-structures/arraylike.h:361-368 | fails without change when size < k, otherwise leaves old[..size-k]; buffer and capacity unchanged |
| `ArrayLike.DynArray.Set` | c-data-structures/arraylike.h:370-381 | fails without change exactly for i < 0; otherwise size becomes max(size, i+1), element i is v, other elements below the old size are unchanged, and the gap slots hold what ensure_capacity left |
| `ArrayLike.DynArray.SetRef` | c-data-structures/arraylike.h:383-394 | same bounds rule and extension as set; returns slot i and writes nothing |
| `ArrayLike.DynArray.SetRefUnchecked` | c-data-structures/arraylike.h:396-403 | for a non-negative index: extends like set_ref and returns slot i |
| `ArrayLike.DynArray.Store` | c-data-structures/arraylike_test.cc:135-139 | a write through a returned slot replaces that one element and nothing else |
| `ArrayLike.DynArray.Get` | c-data-structures/arraylike.h:405-412 | succeeds iff 0 <= i < size, and then yields element i |
| `ArrayLike.DynArray.GetUnchecked` | c-data-structures/arraylike.h:414-417 | for an in-range index agrees with the checked get |
| `ArrayLike.DynArray.GetRef` | c-data-structures/arraylike.h:419-425 | yields a slot iff 0 <= i < size; the slot is i and holds element i |
| `ArrayLike.DynArray.MutableRef` | c-data-structures/arraylike.h:427-434 | agrees with get_ref; the slot is below size |
| `ArrayLike.DynArray.MutableRefUnchecked` | c-data-structures/arraylike.h:440-443 | for an in-range index agrees with get_ref |
| `ArrayLike.DynArray.GetRefUnchecked` | c-data-structures/arraylike.h:436-438 | for an in-range index, the slot is the index itself (`&table[index]`), below size, holding the element get_unchecked returns |
| `ArrayLike.DynArray.Last` | c-data-structures/arraylike.h:445-448 | succeeds iff the array is not empty, yielding the last element, as get(size - 1) does |
| `ArrayLike.DynArray.LastUnchecked` | c-data-structures/arraylike.h:450-453 | on a non-empty array agrees with last |
| `ArrayLike.DynArray.LastRef` | c-data-structures/arraylike.h:455-458 | yields a slot iff the array is not empty, the slot size - 1 |
| `ArrayLike.DynArray.LastRefUnchecked` | c-data-structures/arraylike.h:460-463 | on a non-empty array agrees with last_ref |
| `ArrayLike.DynArray.Remove` | c-data-structures/arraylike.h:465-476 | on a valid index returns old[i] and leaves old[..i] + old[i+1..]; on an invalid one fails without change |
| `ArrayLike.DynArray.RemoveUnchecked` | c-data-structures/arraylike.h:478-486 | on a valid index returns old[i] and leaves old[..i] + old[i+1..] |
| `ArrayLike.DynArray.Size` | c-data-structures/arraylike.h:488-491 | the number of elements, never above capacity |
| `ArrayLike.DynArray.IsEmpty` | c-data-structures/arraylike.h:493-496 | true iff there are no elements, iff last fails |
| `ArrayLike.DynArray.Copy` | c-data-structures/arraylike.h:498-507 | a new, separate array of the same capacity with the same elements |
| `ArrayLike.DynArray.Append` | c-data-structures/arraylike.h:509-514 | contents become head + tail, also when tail is head itself |
| `ArrayLike.DynArray.AppendRange` | c-data-structures/arraylike.h:516-529 | fails without change unless 0 <= s <= e <= tail.size; otherwise contents become head + tail[s..e] |
| `ArrayLike.DynArrayIterator.constructor` | c-data-structures/arraylike.h:531-535 | the iterator starts at index 0 of the given array |
| `ArrayLike.DynArrayIterator.HasNext` | c-data-structures/arraylike.h:537-540 | true iff get at the iterator's index succeeds, so value is defined there |
| `ArrayLike.DynArrayIterator.Next` | c-data-structures/arraylike.h:542-545 | only before the end; advances the index by one |
| `ArrayLike.DynArrayIterator.Value` | c-data-structures/arraylike.h:547-550 | the element at the iterator's index |
| `ArrayLike.DynArrayIterator.MutableValue` | c-data-structures/arraylike.h:552-555 | the slot at the iterator's index, as mutable_ref gives it |
| `ArrayLike.Traverse` | c-data-structures/arraylike_test.cc:269-284 | the has_next/value/next loop visits exactly the contents, in index order |
| `ArrayLike.PushBackThenPopBack` | c-data-structures/arraylike_test.cc:46-58 | push_back(v) then pop_back returns v and restores the contents |
| `ArrayLike.PushFrontTwiceThenPopFront` | c-data-structures/arraylike_test.cc:73-87 | front pushes pop in reverse order and restore the contents |
| `ArrayLike.PushAllThenGet` | c-data-structures/arraylike.h:405-412 | after pushing v0..vn-1 at the back, get(old size + i) yields vi and get(old size + n) fails |
| `ArrayList.AList.Init` | struct/alist.c:21-27 | _len is 0 and the buffer, _table_sz and _obj_sz are the ones given |
| `ArrayList.AList.Append` | struct/alist.c:29-38 | stores v at index old _len, returns old _len, increments _len, keeps earlier elements; _table_sz grows by exactly 6, and only when _len == _table_sz |
| `ArrayList.AList.Add` | struct/alist.c:40-47 | returns the slot at old _len, increments _len, keeps earlier elements, same growth rule; without growth the buffer is untouched |
| `ArrayList.AList.Put` | struct/slist.c:22-23 | a store through a slot of the list replaces that element only |
| `ArrayList.AList.RemoveLast` | struct/alist.c:49-54 | no-op on an empty list, otherwise drops the last element; buffer untouched |
| `ArrayList.AList.Get` | struct/alist.c:67-70 | for i < _len, element i |
| `ArrayList.AList.Len` | struct/alist.c:72-75 | the number of elements, within _table_sz |
| `ArrayList.AList.Iterate` | struct/alist.c:77-82 | the action receives slots 0 .. _len-1, each once, in ascending order |
| `ArrayList.ALIter.Forward` | struct/alist.c:84-87 | a forward cursor at 0 |
| `ArrayList.ALIter.Reverse` | struct/alist.c:89-92 | a reverse cursor at _len - 1 (-1 for an empty list) |
| `ArrayList.ALIter.Value` | struct/alist.c:94 | the element at the cursor |
| `ArrayList.ALIter.Inc` | struct/alist.c:96-102 | the cursor moves one step down when reverse, one step up otherwise |
| `ArrayList.ALIter.Has` | struct/alist.c:104-110 | within the range the cursor moves in (below _len for a reverse cursor, from 0 up for a forward one), true iff 0 <= _i < _len, so al_value is defined |
| `ArrayList.VisitForward` | struct/alist.c:84-110 | a forward cursor visits exactly the elements, ascending |
| `ArrayList.VisitReverse` | struct/alist.c:89-110 | a reverse cursor visits the same elements descending, and none on an empty list |
| `StableList.BlocksFor` | struct/slist.c:20-24 | the block count ceil(n / 32): enough blocks for n members, with no empty block to spare |
| `StableList.Block.constructor` | struct/slist.c:23 | a block allocated for `_member_size * SLIST_BLOCK_SIZE` bytes has exactly the byte size it was given |
| `StableList.AddLastCounters` | struct/slist.c:21-26 | add_last on the counters: _size grows by one, and the block count grows (by one) exactly when _size == num_blocks * 32; the members stay within the blocks |
| `StableList.RemoveLastCounters` | struct/slist.c:29 | remove_last on the counters of a non-empty list: _size drops, no block is freed, the members stay within the blocks |
| `StableList.AddLastKeepsBound` | struct/slist.c:20-26 | one add_last keeps _size <= num_blocks * 32 and leaves at least one block, so the lookup of the last block is in range |
| `StableList.RunTracksPeak` | struct/slist.c:20-29 | along any legal sequence of add_last/remove_last from init, num_blocks is exactly ceil(peak size / 32) and _size never exceeds the peak |
| `StableList.RunIsBounded` | struct/slist.c:20-29 | along any legal sequence of operations from init, _size <= num_blocks * 32 |
| `StableList.RunWithoutRemovals` | struct/slist.c:20-26 | with no removals from init, _size is the number of adds and num_blocks == ceil(_size / 32) |
| `StableList.RunPeakWithoutRemovals` | struct/slist.c:20-26 | with no removals the peak size is the current size |
| `StableList.SList.Init` | struct/slist.c:7-12 | _size 0, zero blocks, a directory buffer of 32 handles, member size kept |
| `StableList.SList.Len` | struct/slist.c:16 | _size, which the blocks have room for |
| `StableList.SList.AddLast` | struct/slist.c:20-27 | appends a fresh block iff _size == num_blocks * 32 before the call, otherwise the block count is unchanged; _size grows by one; existing blocks are neither replaced nor reordered |
| `StableList.SList.RemoveLast` | struct/slist.c:29 | with _size > 0 (not checked by the source): _size drops by one and no block is freed |
| `KeyedLists.Inserted` | struct/keyed_list.c:27-34 | after insert the key is known, every key already known keeps its entry, no other key appears, and the entry count grows by one exactly for a new key |
| `KeyedLists.EntryFor` | struct/keyed_list.c:27-34 | the entry handed back through `*entry` is the one the key owns after the insert; in a consistent state it is an existing entry exactly when the key was already known |
| `KeyedLists.InsertKeepsConsistent` | struct/keyed_list.c:25-35 | insert keeps "as many keys as entries, each key on an existing entry, distinct keys on distinct entries", and the key then maps to the entry handed out |
| `KeyedLists.InsertTwice` | struct/keyed_list.c:25-35 | inserting a key twice yields the same entry both times and grows the list at most once |
| `KeyedLists.InsertExtendsLayout` | struct/keyed_list.c:27-31 | a new key takes the entry after the last one; a known key leaves the layout as it is |
| `KeyedLists.FirstOccurrencesMembers` | struct/keyed_list.c:27-31 | the first-occurrence order lists exactly the keys inserted |
| `KeyedLists.InsertAllOrder` | struct/keyed_list.c:25-35 | after any sequence of inserts from init, the i-th distinct key to arrive owns entry i, every entry has exactly one key, and the known keys are exactly those inserted |
| `KeyedLists.InsertDistinctInOrder` | struct/keyed_list.c:25-35 | distinct keys k1, k2, ... get entries 0, 1, ... in the order of insertion, whatever their values |
| `KeyedLists.FirstOccurrencesOfDistinct` | struct/keyed_list.c:25-35 | with no repeated key the first-occurrence order is the insertion order |
| `KeyedLists.KeyedList.Init` | struct/keyed_list.c:12-17 | empty entry list with zero blocks and empty map |
| `KeyedLists.KeyedList.Insert` | struct/keyed_list.c:25-35 | absent key: one entry appended, key recorded on it, entry handed out, NULL returned; present key: the existing entry handed out and returned, list and map unchanged; afterwards lookup yields the entry |
| `KeyedLists.KeyedList.Lookup` | struct/keyed_list.c:37-40 | the mapped entry (always an existing entry) or NULL; reads only |
| `KeyedLists.InsertSameKeyTwice` | struct/keyed_list.c:25-35 | two inserts of one key hand out the same entry, "created" only the first time, one entry added at most |

## Left out

- `c-data-structures/stable_arraylike.h` declares a pointer-stable array but holds no implementation. Its test file exercises that missing code. Pointer stability is modelled only at the level `struct/slist.c` supports: blocks are appended and never moved.
- `slist_get` has an empty body. `slist_add_last` has no return statement at all (struct/slist.c:20-27): it computes the last block and returns nothing. The model therefore has no index-to-(block, offset) mapping.
- `KeyedLists.KeyedList.Insert`: in the code as written, `keyedlist_insert` stores the undefined return value of `slist_add_last` in `*entry` and in the map (struct/keyed_list.c:29-30). The model instead hands out the position just past the list's old end. `Inserted`, `EntryFor`, `InsertKeepsConsistent`, `InsertTwice`, `InsertAllOrder` and `InsertDistinctInOrder` describe the evidently intended insert-or-get, not that code.
- In `slist_add_last`, the block pointer is stored through a `char *`, which truncates it. The model stores the block handle itself.
- `SL_iter`, `slist_iter`, `sl_has`, `sl_inc` and `sl_value` are declared without bodies.
- `alist_remove_at` and `alist_sort` are declared without bodies.
- Keyed-list iteration (`keyedlist_iter`, `kl_has`, `kl_inc`, `kl_key`, `kl_value`) delegates to a map iterator whose order is unknown. The map implementation is not part of this model, and the map is a Dafny `map`.
- Memory management is not modelled. This covers `create`, `create_capacity`, `create_copy`, `finalize`, `delete`, `__alist_create`, `alist_finalize`, `alist_delete`, `slist_finalize`, `keyedlist_finalize`, and allocation failure: the source aborts on a NULL allocation, and the model always allocates. Buffers are sequences, and `memmove`, `memset` and `memcpy` are sequence operations.
- The `0x0` bytes written by `calloc` and `memset` are the generic element `zero`.
- Slots that `realloc` adds to an `AList` hold an arbitrary value. The same arbitrary value fills all of them.
- Index parameters are unbounded integers. The `int32_t` width of indices and the `size_t`/`int32_t` conversions are not modelled. On an empty array, `last` is modelled by the integer `size - 1 = -1`; on an empty `AList`, the reverse cursor starts at `-1`. This is what the conversions the source relies on produce.
- `ArrayLike.DynArray.LShrink`: the amount must be positive, because `lshrink(0)` trips the assertion in `shift_left`.
- `ArrayLike.DynArray.Copy`: promises nothing about the copy's slots past `size`, which `malloc` leaves indeterminate.
- `ArrayList.AList.Iterate`: the action is a foreign call whose effect is unknown. The model records the slots the action receives.
- `ArrayList.ALIter`: the source writes the reverse flag as `.is_reverse` while the struct field is `_is_reverse`. The model keeps the intended reverse flag.
- `objSz` (and `memberSize`) are kept as numbers only. Byte-level addressing `_arr + i * _obj_sz` is the slot index `i`.
- The test files are used as evidence for the scenario methods only. The gtest harness itself is not modelled.
- `ArrayLike.DynArray.PushFrontRef`, `PushBackRef`, `SetRef`, `SetRefUnchecked`, `GetRef`, `GetRefUnchecked`, `MutableRef`, `MutableRefUnchecked`, `LastRef`, `LastRefUnchecked`, `DynArrayIterator.MutableValue` and `Store`: a returned slot index stays valid across a reallocation, while the C pointer `&table[i]` dangles after any `ensure_capacity` that reallocates (reached from push_back, push_back_ref, push_front and push_front_ref through shift_right, set, set_ref and set_ref_unchecked past the end, append and append_range). A `Store` after such a call has no C counterpart, and the model does not capture pointer invalidation or aliasing of the buffer.
- `StableList.SList.RemoveLast`: requires `size > 0`. On an empty list the source decrements the `size_t` `_size`, which wraps to SIZE_MAX; the model does not follow that wrap-around.
- `ArrayList.AList.Put` and `ArrayList.AList.Add` (likewise `Get`): a slot index survives the `REALLOC_SZ` of a growing `alist_append` or `alist_add` (struct/alist.c:33, 44), while the C pointer into `_arr` may dangle after it. The model does not capture that invalidation. Its only use, `StableList.SList.AddLast` (struct/slist.c:22-23), writes through the slot straight after `alist_add`, with no growth in between.
