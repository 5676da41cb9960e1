# useful: containers and compile-time list algorithms, modelled in Dafny

This project models the core of the header-only C++ library `useful`:

- **handle_map**: a slot map with stable handles over a swap-and-pop dense array.
- **stable_vector**: a vector whose erase leaves a hole, recycled by the next add.
- **tree**: an append-only tree over a handle_map.
- **small_vector**: a vector that keeps its elements in an inline buffer until they outgrow it.
- **sliding_window** and **sliding_window_map**: a ring buffer over a circular iterator, and a window into it addressed by integer keys.
- **circular_iterator**: an iterator that wraps around.
- **index_sort**: an argsort.
- **soa**: a struct-of-arrays container with an element proxy.
- **static_json**: a serialiser.
- **type list**, **integer sequence** and **type descriptor**: compile-time algorithms.

Each header is one module (`HandleMaps`, `StableVectors`, `Trees`, `SmallVectors`, `SlidingWindows`, `CircularIterators`, `IndexSorts`, `Soas`, `StaticJson`, `TypeLists`, `IntegerSequences`, `TypeDescriptors`). `Wrappers` holds Option/Result and the error kinds; `Sequences` holds shared facts about distinct sequences.

The modules take the form the code has:

- **Containers that update their members in place** are classes:
  - The vectors the code mutates are `seq` fields.
  - The fixed buffers are arrays: small_vector's inline storage, the sliding window's ring and index_sort's output range.
  - The loops of the code are `while` loops with invariants: `std::find` in `stable_vector::at`, `std::copy` in small_vector, `std::fill_n` in the sliding window, `std::iota`/`std::sort` in index_sort, the member-by-member recursion of soa, and `std::equal` in the window's `operator==`.
  - Each method is proved against a function of the state: `Contents()` for handle_map and small_vector, `Live()` for stable_vector, `Window()` for the sliding window, `Values()` for the tree, `Element(n)` for soa.
- **Compile-time metaprograms** are recursive functions over sequences. Each is tied by a lemma to an independent reference definition: `Reversed`, `Kept`, `TagsOf`, `BaseOf` and `Join`.

The handle_map tables are also described as a value (`Tables`) with the insert and erase updates as functions (`Inserted`, `Erased`, `ErasedAsWritten`). `HandleMap`'s methods are proved to perform those updates, and the lemmas about the functions prove the slot-map invariant. The invariant says that `sparse` and `reverse` are inverse on the live handles, and that the free list is within bounds and duplicate-free.

The code's `handle_map::erase` swaps `reverse_[n]` where it should swap `reverse_[sparse_[n]]`. Insert writes both directions of the relation `sparse_[reverse_[p]] == p` (include/handle_map.hpp:24-51), and erase's own swap of `dense_` moves the value at position `sparse_[n]`. So the evidently intended swap of `reverse_` is at the same position. The model follows the code in `ErasedAsWritten`/`HandleMap.EraseAsWritten`, and proves, for every consistent table and live handle n:

- if n sits at its own position (`sparse_[n] == n`), it agrees with the repaired `Erased` (`EraseAsWrittenAgreesAtOwnPosition`);
- otherwise it breaks the invariant (`AsWrittenBreaksOffOwnPosition`).

`HandleMap.Erase` performs the repaired erase. The tree only inserts into its handle map. See Findings.

Unbounded integers stand for `size_t` and `ptrdiff_t` except where the width is the point:

- a tree's `inactive_tag` and the type-descriptor tags are the largest 64-bit `size_t` values;
- the C++ signed `%` in `local_index` is written out as truncating division (`TruncRem`).

Inputs the library takes from its environment become parameters:

- a value-initialised `T{}` is a `blank` argument;
- the element capacity of small_vector is `capacity`;
- a number's `std::to_string` text is carried in the field value.

## Model

| member | source | states |
|---|---|---|
| HandleMaps.Inserted | include/handle_map.hpp:24-51 | the issued handle is the last freed one (popped) or, when nothing is free, `sparse_.size()` (a new slot), and it points at the new last position of `dense_`, where the value is stored; `reverse_` records it there |
| HandleMaps.Erased | include/handle_map.hpp:84-105 | the repaired erase shrinks `dense_` and `reverse_` by one, keeps the number of handle slots, pushes n onto `free_` and leaves n not live; the invariant and contents are in EraseCorrect |
| HandleMaps.ErasedAsWritten | include/handle_map.hpp:84-105 | the erase as written, needing only in-bounds indices, shrinks `dense_` and `reverse_` by one, pushes n onto `free_` and leaves n not live |
| HandleMaps.InsertCorrect | include/handle_map.hpp:24-51 | insert keeps the tables consistent, appends the value to `dense_` (size grows by one), issues `sparse_.size()` when nothing is free and the last freed handle otherwise (popping it), the handle was not live before and is live after, and it now designates the value while every other handle keeps its own |
| HandleMaps.InsertedConsistent | include/handle_map.hpp:24-51 | the four tables after insert still satisfy the slot-map invariant |
| HandleMaps.InsertedContents | include/handle_map.hpp:35-48 | after insert the new handle maps to the value and the map from live handles to values is otherwise unchanged |
| HandleMaps.EraseCorrect | include/handle_map.hpp:84-105 | the repaired erase keeps the tables consistent, removes exactly handle n from the handle-to-value map, shrinks `dense_` by one, moves the old last value into n's dense slot and pushes n onto `free_` |
| HandleMaps.BackHandle | include/handle_map.hpp:88-89 | the handle owning the last dense position is live, and it is n exactly when n sits at the last position |
| HandleMaps.ErasedConsistent | include/handle_map.hpp:84-105 | the tables after the repaired erase satisfy the slot-map invariant |
| HandleMaps.ErasedContents | include/handle_map.hpp:92-104 | the repaired erase removes handle n, leaves every other live handle's value alone, relocates the back element to n's position and appends n to the free list |
| HandleMaps.EraseAsWrittenAgreesAtOwnPosition | include/handle_map.hpp:94 | the erase as written equals the repaired erase when `sparse_[n] == n` |
| HandleMaps.AsWrittenBreaksOffOwnPosition | include/handle_map.hpp:84-105 | for every consistent table and live handle n with `sparse_[n] != n`, the erase as written leaves inconsistent tables: n is on the free list and still an entry of `reverse_` |
| HandleMaps.EraseDefectWitness | include/handle_map.hpp:84-105 | insert x3, erase(1), insert, erase(2), erase(0) with the erase as written leaves live handle 1 pointing past the end of `dense_`, although every index used is in bounds |
| HandleMaps.DefectSteps | include/handle_map.hpp:24-105 | the table contents after each step of that sequence |
| HandleMaps.ThreeInsertedTables | include/handle_map.hpp:24-51 | three inserts into an empty map issue handles 0, 1, 2 at dense positions 0, 1, 2 |
| HandleMaps.EraseOutOfBoundsWitness | include/handle_map.hpp:88-94 | insert x3 and erase(0) with the erase as written: handle 2 is still live, but erasing it would read `reverse_[2]` while `reverse_` has two entries |
| HandleMaps.LiveCount | include/handle_map.hpp:107-111 | under the invariant, the live handles are exactly the entries of `reverse_`, so there are `dense_.size()` of them |
| HandleMaps.EmptyConsistent | include/handle_map.hpp:153-157 | empty tables are consistent and designate nothing |
| HandleMaps.HandleMap.constructor | include/handle_map.hpp:153-157 | a new map has empty tables and no live handle |
| HandleMaps.HandleMap.Insert | include/handle_map.hpp:24-51 | insert performs the `Inserted` update in place, issues a handle that was not live, and `operator[]` of it yields the value afterwards |
| HandleMaps.HandleMap.Emplace | include/handle_map.hpp:53-81 | emplace performs the same table update as insert |
| HandleMaps.HandleMap.Erase | include/handle_map.hpp:84-105 | the repaired erase of a live handle performs the `Erased` update in place and removes exactly that handle |
| HandleMaps.HandleMap.EraseAsWritten | include/handle_map.hpp:84-105 | the code's erase, with only its own indices required in bounds, performs the `ErasedAsWritten` update |
| HandleMaps.HandleMap.Size | include/handle_map.hpp:107-111 | size() is the number of live handles |
| HandleMaps.HandleMap.Empty | include/handle_map.hpp:113-117 | empty() holds exactly when no handle is live |
| HandleMaps.HandleMap.Get | include/handle_map.hpp:119-127 | operator[] of a live handle is the value that handle designates |
| StableVectors.RefilledSlot | include/stable_container.hpp:32-39 | the most recently erased slot is in range and not live; refilling it and popping `erased_` keeps the invariant (every hole listed once, nothing live listed) and adds exactly that slot to the live ones |
| StableVectors.AppendedSlot | include/stable_container.hpp:42-45 | with nothing erased, appending keeps the invariant and adds exactly the new last slot to the live ones |
| StableVectors.SlotPartition | include/stable_container.hpp:90-94 | every slot is either live or recorded in `erased_`, never both |
| StableVectors.StableVector.constructor | include/stable_container.hpp:97-99 | a new vector has no slots and nothing erased |
| StableVectors.StableVector.Add | include/stable_container.hpp:28-46 | with nothing erased, add appends and returns the old `data_.size()`; otherwise it reuses and pops `erased_.back()`; either way the returned index holds the value and becomes the only new live index, and no other slot changes |
| StableVectors.StableVector.At | include/stable_container.hpp:48-70 | at(i) fails with "access of deleted element" when i is in `erased_`, fails with out-of-range past the end, and otherwise yields the live value at i |
| StableVectors.StableVector.Erase | include/stable_container.hpp:72-77 | erase of a live index destroys only that slot, appends it to `erased_` and removes only it from the live indices |
| StableVectors.StableVector.Get | include/stable_container.hpp:79-87 | operator[] of a live index yields the value in that slot |
| StableVectors.StableVector.Size | include/stable_container.hpp:90-94 | size() is the number of live indices |
| StableVectors.StableVector.LiveCount | include/stable_container.hpp:90-94 | under the invariant there are `data_.size() - erased_.size()` live indices |
| StableVectors.EraseThenAddReusesSlot | include/stable_container.hpp:15-17 | erasing index 1 out of three and adding again reuses index 1, and indices 0 and 2 keep their values |
| Trees.InsertedChild | include/tree.hpp:121-135 | a new node under an existing parent keeps the parent and child tables linked: each non-root node's parent is older and lists it, each listed child has that parent, and child lists ascend |
| Trees.Tree.AllTagsLive | include/tree.hpp:121-135 | every tag below the node count names a node of the handle map |
| Trees.Tree.constructor | include/tree.hpp:107-119 | a new tree holds only the root (tag 0) with the given value, parent `inactive_tag` and no children |
| Trees.Tree.InsertNode | include/tree.hpp:121-135 | insert_node returns the next tag, records its parent, appends it to the parent's child list, gives it no children, stores the value under it and changes no other node |
| Trees.Tree.ParentTag | include/tree.hpp:137-141 | the root's parent is `inactive_tag`; any other node's parent is an older node that lists it as a child |
| Trees.Tree.RootTag | include/tree.hpp:143-147 | the root tag is the only node whose parent is `inactive_tag` |
| Trees.Tree.ChildTags | include/tree.hpp:149-153 | the child tags of a node are exactly the nodes whose parent it is, each once, in insertion order |
| Trees.Tree.Children | include/tree.hpp:155-160 | children(p) yields the values of child_tags(p) in the same order |
| Trees.Tree.Get | include/tree.hpp:162-170 | operator[] yields the value stored under the tag |
| Trees.Tree.PathToRoot | include/tree.hpp:137-147 | following parent tags from any node reaches the root |
| SmallVectors.MaxStackSize | include/small_vector.hpp:40-42 | the inline capacity is the largest number of whole elements that fit in max(StackBufferSize, sizeof(vector)) bytes |
| SmallVectors.SmallVector.CopyInto | include/small_vector.hpp:59-61 | std::copy into the inline buffer replaces its first entries with the source and keeps the rest |
| SmallVectors.SmallVector.ShiftDown | include/small_vector.hpp:333 | std::copy of a later stretch of the buffer down to an earlier offset moves it there and changes nothing past the written range |
| SmallVectors.SmallVector.constructor | include/small_vector.hpp:45-48 | the default constructor gives an empty vector |
| SmallVectors.SmallVector.FromList | include/small_vector.hpp:50-63 | the initializer-list constructor gives the list's elements in order |
| SmallVectors.SmallVector.Count | include/small_vector.hpp:65-76 | the count constructor gives count value-initialised elements |
| SmallVectors.SmallVector.FilledAsWritten | include/small_vector.hpp:78-89 | the (count, value) constructor as written: the size and the branch taken come from the uninitialised `size_`, not from count |
| SmallVectors.SmallVector.Filled | include/small_vector.hpp:78-89 | the (count, value) constructor as intended gives count copies of value |
| SmallVectors.SmallVector.PushBack | include/small_vector.hpp:145-169 | push_back appends the value and keeps the earlier elements, including across the move from stack to heap |
| SmallVectors.SmallVector.PopBack | include/small_vector.hpp:171-198 | pop_back drops the last element and keeps the rest, including across the move from heap back to stack |
| SmallVectors.SmallVector.Erase | include/small_vector.hpp:285-338 | erase(pos) removes the element at pos, keeps the order of the others and returns pos |
| SmallVectors.SmallVector.EraseRange | include/small_vector.hpp:340-396 | erase(first, last) removes the elements from first up to last, keeps the order of the others and returns first |
| SmallVectors.SmallVector.Get | include/small_vector.hpp:200-226 | operator[](n) is element n |
| SmallVectors.SmallVector.Front | include/small_vector.hpp:228-254 | front() is element 0 |
| SmallVectors.SmallVector.Back | include/small_vector.hpp:257-283 | back() is the last element |
| SmallVectors.SmallVector.Size | include/small_vector.hpp:485-489 | size() is the number of elements |
| SmallVectors.SmallVector.Empty | include/small_vector.hpp:491-495 | empty() holds exactly when there are no elements |
| SmallVectors.SmallVector.OnStack | include/small_vector.hpp:503-507 | on_stack() holds exactly when the size is at most the inline capacity, and then the elements are the buffer's first entries |
| SmallVectors.FilledAsWrittenWitness | include/small_vector.hpp:78-89 | with `size_` happening to be 0, the constructor as written asked for 3 copies yields an empty vector |
| SmallVectors.FilledWitness | include/small_vector.hpp:78-89 | the repaired constructor asked for 3 copies of 7 yields [7, 7, 7] on the stack |
| SmallVectors.StackHeapRoundTrip | include/small_vector.hpp:145-198 | pushing past the capacity moves the elements to the heap in order, and popping back under it returns them to the stack |
| CircularIterators.TruncRem | include/circular_iterator.hpp:212 | the C++ signed remainder has the dividend's sign, magnitude below the divisor's, and differs from the dividend by a multiple of it |
| CircularIterators.LocalIndex | include/circular_iterator.hpp:209-221 | for a positive wrap size, local_index lies in [0, wrap) and is congruent to the index |
| CircularIterators.LocalIndexIsMod | include/circular_iterator.hpp:212-220 | adding the wrap size to a negative C++ remainder gives the mathematical residue |
| CircularIterators.LocalIndexPeriodic | include/circular_iterator.hpp:209-221 | shifting the raw index by whole turns does not change local_index |
| CircularIterators.LocalIndexInjective | include/circular_iterator.hpp:209-221 | raw indices less than one turn apart have different local indices |
| CircularIterators.CircularIterator.constructor | include/circular_iterator.hpp:57-64 | wrap size is last - first, raw index is current - first, base is first |
| CircularIterators.CircularIterator.Copy | include/circular_iterator.hpp:68-72 | the converting copy keeps wrap size, index and base |
| CircularIterators.CircularIterator.Equals | include/circular_iterator.hpp:74-79 | == holds exactly when base + raw index agree |
| CircularIterators.CircularIterator.NotEquals | include/circular_iterator.hpp:81-85 | != is the negation of == |
| CircularIterators.CircularIterator.Deref | include/circular_iterator.hpp:87-90 | operator* denotes the position in [base, base + wrap) congruent to the raw index |
| CircularIterators.CircularIterator.At | include/circular_iterator.hpp:165-169 | operator[](n) denotes the position congruent to index + n |
| CircularIterators.CircularIterator.Increment | include/circular_iterator.hpp:92-97 | prefix ++ adds one to the raw index |
| CircularIterators.CircularIterator.Decrement | include/circular_iterator.hpp:107-112 | prefix -- subtracts one from the raw index |
| CircularIterators.CircularIterator.PostIncrement | include/circular_iterator.hpp:99-105 | postfix ++ advances and returns a copy of the old iterator |
| CircularIterators.CircularIterator.PostDecrement | include/circular_iterator.hpp:114-120 | postfix -- moves back and returns a copy of the old iterator |
| CircularIterators.CircularIterator.AddAssign | include/circular_iterator.hpp:123-128 | += n adds n to the raw index |
| CircularIterators.CircularIterator.SubAssign | include/circular_iterator.hpp:130-135 | -= n subtracts n from the raw index |
| CircularIterators.CircularIterator.Plus | include/circular_iterator.hpp:137-149 | it + n and n + it are a copy with raw index moved by n |
| CircularIterators.CircularIterator.Minus | include/circular_iterator.hpp:151-157 | it - n is a copy with raw index moved back by n |
| CircularIterators.CircularIterator.Difference | include/circular_iterator.hpp:159-163 | it - other is the difference of the raw indices |
| CircularIterators.CircularIterator.Less | include/circular_iterator.hpp:171-175 | < compares raw indices, consistently with the difference |
| CircularIterators.CircularIterator.Greater | include/circular_iterator.hpp:177-181 | > is < with the operands swapped |
| CircularIterators.CircularIterator.LessEq | include/circular_iterator.hpp:183-187 | <= is the negation of > |
| CircularIterators.CircularIterator.GreaterEq | include/circular_iterator.hpp:189-193 | >= is the negation of < |
| CircularIterators.CircularIterator.UnderlyingPosition | include/circular_iterator.hpp:196-200 | underlying_position() is the raw index |
| CircularIterators.CircularIterator.WrapSize | include/circular_iterator.hpp:202-206 | wrap_size() is the range length |
| CircularIterators.PlusThenDifference | include/circular_iterator.hpp:137-163 | (it + n) - it == n |
| CircularIterators.WholeTurns | include/circular_iterator.hpp:74-90 | it + k * wrap_size dereferences to the same place as it but is not equal to it for k != 0 |
| CircularIterators.AtIsPlusThenDeref | include/circular_iterator.hpp:165-169 | it[n] denotes the same place as *(it + n) |
| CircularIterators.IncrementThenDecrement | include/circular_iterator.hpp:92-112 | ++ followed by -- restores the raw index |
| SlidingWindows.PushedBack | include/sliding_window.hpp:76-81 | in window terms push_back drops the front, shifts the rest forward and puts v at the back |
| SlidingWindows.PushedFront | include/sliding_window.hpp:90-95 | in window terms push_front puts v at the front and shifts the rest back, dropping the old back |
| SlidingWindows.PushedBackTimes | include/sliding_window.hpp:83-88 | n successive push_backs keep the window size; the values are in PushedBackTimesClosed |
| SlidingWindows.PushedFrontTimes | include/sliding_window.hpp:97-102 | n successive push_fronts keep the window size; the values are in PushedFrontTimesClosed |
| SlidingWindows.PushedAll | include/sliding_window.hpp:46-53 | pushing back each value of a range in turn keeps the window size; the values are in PushedAllClosed |
| SlidingWindows.PushedBackTimesClosed | include/sliding_window.hpp:83-88 | n push_backs of v leave the window's last values followed by n copies of v |
| SlidingWindows.PushedFrontTimesClosed | include/sliding_window.hpp:97-102 | n push_fronts of v leave n copies of v followed by the window's first values |
| SlidingWindows.PushedAllClosed | include/sliding_window.hpp:46-53 | pushing a range leaves the last window-size values of old window followed by the range |
| SlidingWindows.FullRangeFillsWindow | include/sliding_window.hpp:46-58 | constructing from exactly Size values gives those values in order |
| SlidingWindows.ShortRangeEndsWindow | include/sliding_window.hpp:46-58 | constructing from fewer values puts them at the back, after the untouched slots |
| SlidingWindows.ViewRotate | include/sliding_window.hpp:76-81 | advancing the head rotates the window left by one |
| SlidingWindows.ViewUpdate | include/sliding_window.hpp:104-136 | writing the buffer slot under window slot k changes that window slot only |
| SlidingWindows.OffsetWraps | include/sliding_window.hpp:128-136 | an offset n reaches the same buffer slot as n mod Size |
| SlidingWindows.ViewPushBack | include/sliding_window.hpp:76-81 | writing at the head and advancing it is push_back on the window |
| SlidingWindows.ViewPushFront | include/sliding_window.hpp:90-95 | moving the head back and writing there is push_front on the window |
| SlidingWindows.AssignBelow | include/sliding_window.hpp:415-421 | a key below the window: blanks pushed at the front, then v at the front, give the insert_or_assign outcome with the key at slot 0 |
| SlidingWindows.PushedBackTimesAt | include/sliding_window.hpp:83-88 | slot j after n push_backs of a blank is an old value still in view or a blank |
| SlidingWindows.AssignAbove | include/sliding_window.hpp:422-428 | a key above the window: blanks pushed at the back, then v at the back, give the insert_or_assign outcome with the key at slot Size - 1 |
| SlidingWindows.AssignWithin | include/sliding_window.hpp:429-433 | a key in view: overwriting its slot gives the insert_or_assign outcome |
| SlidingWindows.SlidingWindow.Size | include/sliding_window.hpp:28 | the window size is positive |
| SlidingWindows.SlidingWindow.constructor | include/sliding_window.hpp:38-44 | the default constructor gives a value-initialised window with the head at the start of the buffer |
| SlidingWindows.SlidingWindow.FromRange | include/sliding_window.hpp:46-58 | the range and initializer-list constructors push each value in turn, and the head ends at the number of values |
| SlidingWindows.SlidingWindow.PushBack | include/sliding_window.hpp:76-81 | push_back(v) advances the head by one and performs push_back on the window |
| SlidingWindows.SlidingWindow.PushBackN | include/sliding_window.hpp:83-88 | push_back(v, n) equals n successive push_back(v) and advances the head by n |
| SlidingWindows.SlidingWindow.PushFront | include/sliding_window.hpp:90-95 | push_front(v) moves the head back by one and performs push_front on the window |
| SlidingWindows.SlidingWindow.PushFrontN | include/sliding_window.hpp:97-102 | push_front(v, n) equals n successive push_front(v) and moves the head back by n |
| SlidingWindows.SlidingWindow.Front | include/sliding_window.hpp:104-114 | front() is window slot 0 |
| SlidingWindows.SlidingWindow.Back | include/sliding_window.hpp:116-126 | back() is window slot Size - 1 |
| SlidingWindows.SlidingWindow.Get | include/sliding_window.hpp:128-136 | operator[](n) is window slot n mod Size |
| SlidingWindows.SlidingWindow.SetFront | include/sliding_window.hpp:104-108 | assigning through front() changes window slot 0 only |
| SlidingWindows.SlidingWindow.SetBack | include/sliding_window.hpp:116-120 | assigning through back() changes window slot Size - 1 only |
| SlidingWindows.SlidingWindow.SetAt | include/sliding_window.hpp:128-131 | assigning through operator[](n) changes window slot n mod Size only |
| SlidingWindows.SlidingWindow.Equals | include/sliding_window.hpp:163-167 | == holds exactly when the two windows agree in window order |
| SlidingWindows.SlidingWindowMap.Size | include/sliding_window.hpp:486-490 | the map's size is the window size, which is positive |
| SlidingWindows.SlidingWindowMap.constructor | include/sliding_window.hpp:353-377 | a new map has a value-initialised window at the given origin |
| SlidingWindows.SlidingWindowMap.IndexOfKey | include/sliding_window.hpp:523-527 | index_of_key(k) is k's offset from the origin |
| SlidingWindows.SlidingWindowMap.KeyRange | include/sliding_window.hpp:380-386 | window() is the half-open key range [origin, origin + Size), exactly the keys with an in-window index |
| SlidingWindows.SlidingWindowMap.At | include/sliding_window.hpp:389-400 | at(k) fails with "key outside of current window" exactly when k's index is negative or at least Size, and otherwise yields k's value |
| SlidingWindows.SlidingWindowMap.AtAfterAssign | include/sliding_window.hpp:389-434 | after insert_or_assign(k, v), at(k) yields v |
| SlidingWindows.SlidingWindowMap.Get | include/sliding_window.hpp:403-406 | operator[] of a key in view yields its value |
| SlidingWindows.SlidingWindowMap.InsertOrAssign | include/sliding_window.hpp:409-434 | a key below moves the origin to k, a key above moves it to k - Size + 1, a key in view keeps it; k then holds v, other keys still in view keep their values, and newly exposed keys hold blanks |
| SlidingWindows.SlidingWindowMap.InsertBelow | include/sliding_window.hpp:415-421 | the below-window branch: origin becomes k and the outcome holds |
| SlidingWindows.SlidingWindowMap.InsertAbove | include/sliding_window.hpp:422-428 | the above-window branch: origin becomes k - Size + 1 and the outcome holds |
| SlidingWindows.SlidingWindowMap.AssignInView | include/sliding_window.hpp:429-433 | the in-window branch: only k's slot changes |
| IndexSorts.Iota | include/index_sort.hpp:17 | std::iota yields 0, 1, ..., n-1 |
| IndexSorts.IndexSort | include/index_sort.hpp:11-24 | index_sort writes exactly |keys| entries from the start of the output, a permutation of 0..n-1 under which the keys ascend, touching nothing else |
| IndexSorts.InsertionSort | include/index_sort.hpp:19-23 | the sort permutes the output range in place into key order |
| IndexSorts.InsertOne | include/index_sort.hpp:19-23 | one insertion step extends the key-ordered prefix by one, permuting in place |
| IndexSorts.SwapNeighbours | include/index_sort.hpp:19-23 | swapping two neighbouring entries permutes the range and leaves the rest of the array unchanged |
| IndexSorts.SwapStep | include/index_sort.hpp:19-23 | swapping an out-of-order neighbour keeps the insertion invariant |
| IndexSorts.FinishInserting | include/index_sort.hpp:19-23 | once the entry has no larger-keyed left neighbour the prefix is in key order |
| IndexSorts.SwapPermutes | include/index_sort.hpp:19-23 | exchanging two entries keeps the multiset and distinctness |
| IndexSorts.IncreasingKeysGiveIdentity | tests/test_index_sort.cpp:6-16 | an argsort of strictly increasing keys is the identity |
| IndexSorts.DecreasingKeysGiveReverse | tests/test_index_sort.cpp:19-45 | an argsort of strictly decreasing keys is n-1, ..., 0 |
| IndexSorts.StrictlyAscendingBounded | include/index_sort.hpp:17-20 | n strictly ascending indices below n are exactly 0..n-1 |
| IndexSorts.SortedInput | tests/test_index_sort.cpp:6-16 | keys 1, 2, 3 give indices 0, 1, 2 |
| IndexSorts.ReversedInput | tests/test_index_sort.cpp:19-29 | keys 3, 2, 1 give indices 2, 1, 0 |
| Soas.Project | include/soa.hpp:133-139 | the listed fields of a struct value, in member order |
| Soas.Pushed | include/soa.hpp:170-175 | every member vector grown by one entry, its own field of the row |
| Soas.Written | include/soa.hpp:48-71 | position n of every member vector overwritten with its own field, the rest unchanged |
| Soas.Make | include/soa.hpp:73-92 | make_helper sets each listed field from position n of its vector and leaves unlisted fields as they were |
| Soas.Soa.constructor | include/soa.hpp:223-225 | a new soa has one empty vector per listed member |
| Soas.Soa.Size | include/soa.hpp:227-232 | size() is the length of the first member vector, which every vector shares |
| Soas.Soa.PushBack | include/soa.hpp:234-239 | push_back appends each listed field of the value to its own vector |
| Soas.Soa.PushBackMembers | include/soa.hpp:241-247 | push_back_members appends the i-th argument to the i-th vector |
| Soas.Soa.Reserve | include/soa.hpp:275-280 | reserve changes neither the size nor the contents |
| Soas.Soa.At | include/soa.hpp:249-259 | operator[] yields a proxy for position n |
| Soas.Soa.Element | include/soa.hpp:100-106 | the value at n has each listed field from its vector and every other field value-initialised |
| Soas.Soa.WriteAt | include/soa.hpp:108-115 | writing at n overwrites only position n of each vector with the listed fields of the value |
| Soas.ElementProxy.constructor | include/soa.hpp:95-98 | a proxy refers to its container and position |
| Soas.ElementProxy.ToValue | include/soa.hpp:100-106 | operator T builds the element at the proxy's position |
| Soas.ElementProxy.Assign | include/soa.hpp:108-115 | the proxy's operator= writes the listed fields at its position only |
| Soas.PushThenConvert | include/soa.hpp:73-106 | a value pushed as element n converts back with the same listed fields and value-initialised others |
| Soas.WriteThenConvert | include/soa.hpp:48-115 | a value written through the proxy at n reads back at n, and every other position reads as before |
| Soas.PushTwoAndRead | include/soa.hpp:223-259 | two pushes into a three-field struct with two listed members read back with the unlisted field value-initialised |
| StaticJson.Entry | include/static_json.hpp:210-219 | one field renders starting with its provided name and the separator `: ` |
| StaticJson.DispatchStr | include/static_json.hpp:210-240 | dispatch_str begins with the first field's entry; it equals the `, `-join of all entries by DispatchIsJoin |
| StaticJson.TwoEntries | include/static_json.hpp:210-240 | two fields render as the first entry, one `, ` and the second entry |
| StaticJson.FieldStr | include/static_json.hpp:134-182 | a bool renders as exactly "true" or "false" according to its value, a string verbatim, a number as its to_string text |
| StaticJson.Str | include/static_json.hpp:266-278 | str() starts with "{ " and ends with " }" |
| StaticJson.Entries | include/static_json.hpp:210-240 | the rendered `name: value` entries of the fields, in declaration order |
| StaticJson.JoinCons | include/static_json.hpp:210-219 | a part in front of a join adds one separator after it |
| StaticJson.DispatchIsJoin | include/static_json.hpp:210-240 | dispatch_str is the ", "-join of the entries, in declaration order |
| StaticJson.StrIsJoin | include/static_json.hpp:266-278 | str() is "{ ", the ", "-joined entries, then " }" |
| StaticJson.SingleField | include/static_json.hpp:232-240 | a single-field object renders as "{ name: value }" with no separator |
| StaticJson.NestedField | include/static_json.hpp:296-312 | a nested object field renders as the nested object's own str() |
| StaticJson.TwoFieldsNested | include/static_json.hpp:210-312 | two fields, the second nested, render with one separator and the nested braces inside |
| StaticJson.Providers | include/static_json.hpp:192-193 | the fields' name providers in declaration order |
| StaticJson.IndexOf | include/static_json.hpp:85-101 | index_of_type is the first position of the provider, and no earlier position holds it |
| StaticJson.Get | include/static_json.hpp:193-264 | get<Name>() yields the value of the first field whose name provider is Name, whatever text the providers give |
| StaticJson.ProviderIdentifiesField | include/static_json.hpp:193-207 | two providers giving the same text are told apart by get; a repeated provider reads its first field |
| TypeLists.Head | include/type_list.hpp:20-30 | head is the first element |
| TypeLists.Tail | include/type_list.hpp:35-45 | head followed by tail is the list |
| TypeLists.Prepend | include/type_list.hpp:50-60 | prepend puts the element in front |
| TypeLists.Append | include/type_list.hpp:65-75 | append puts the element at the back |
| TypeLists.AppendIf | include/type_list.hpp:80-97 | append_if appends exactly when the predicate holds |
| TypeLists.Concat | include/type_list.hpp:123-133 | concat is the first list followed by the second, of the summed length |
| TypeLists.ReverseAcc | include/type_list.hpp:102-113 | reverse with an accumulator is the reversal followed by the accumulator |
| TypeLists.Reverse | include/type_list.hpp:114-118 | reverse_t puts element |l|-1-i at position i |
| TypeLists.ReverseTwice | include/type_list.hpp:102-118 | reversing twice gives back the list |
| TypeLists.TypeAtIndex | include/type_list.hpp:226-240 | type_at_index(l, i) is l[i] |
| TypeLists.IndexOfTypeFrom | include/type_list.hpp:245-256 | index_of_type with a running index adds the position of the first occurrence to it |
| TypeLists.IndexOfType | include/type_list.hpp:245-261 | index_of_type_v is the position of the first occurrence |
| TypeLists.AtIndexOfType | include/type_list.hpp:226-261 | type_at_index(l, index_of_type(l, t)) == t |
| TypeLists.KeptStep | include/type_list.hpp:267-284 | one step of the reference filter |
| TypeLists.FilterAcc | include/type_list.hpp:267-278 | filter with an accumulator is the accumulator followed by the kept elements |
| TypeLists.Filter | include/type_list.hpp:279-284 | filter_t is the reference filter |
| TypeLists.KeptMembers | include/type_list.hpp:267-284 | the kept elements are exactly the list's elements satisfying the predicate |
| TypeLists.KeptConcat | include/type_list.hpp:267-284 | filtering distributes over concatenation, so order is kept |
| TypeLists.KeptAll | include/type_list.hpp:267-284 | a list entirely satisfying the predicate is kept whole |
| TypeLists.Negate | include/misc.hpp:10-21 | negate is the predicate's complement |
| TypeLists.RemoveIf | include/type_list.hpp:407-414 | remove_if keeps exactly the elements not satisfying the predicate, in order |
| TypeLists.Remove | include/type_list.hpp:419-429 | remove drops every occurrence and keeps every other element |
| TypeLists.RemoveConcat | include/type_list.hpp:419-429 | removal distributes over concatenation, so the rest keeps its order |
| TypeLists.Reorder | include/type_list.hpp:290-300 | reorder lists the elements at the given indices, in index order |
| TypeLists.Order | include/type_list.hpp:306-318 | order gives each element's first index in the reference list |
| TypeLists.ReorderOrder | include/type_list.hpp:290-318 | reorder(ref, order(l, ref)) == l when every element of l occurs in ref |
| TypeLists.Transform | include/type_list.hpp:139-150 | type_transform applies the meta-function to every element |
| TypeLists.ForEachCombinationFrom | include/type_list.hpp:376-395 | for each remaining a in turn, B<a, b> for every b of the list |
| TypeLists.CombinationBlocks | include/type_list.hpp:376-395 | the first remaining element's block followed by the other blocks is the combination list |
| TypeLists.ForEachCombination | include/type_list.hpp:396-402 | for_each_combination_t has |l|² entries, B<l[i], l[j]> at i·|l| + j |
| TypeLists.Push | include/type_list.hpp:510-520 | push puts the element on top, at the front |
| TypeLists.Top | include/type_list.hpp:524-534 | top is the front element |
| TypeLists.Pop | include/type_list.hpp:538-548 | pop drops the front element |
| TypeLists.PushPop | include/type_list.hpp:510-548 | top of a push is the element, pop undoes push, and push of the top after pop restores a stack |
| IntegerSequences.Head | include/integer_sequence.hpp:12-23 | head_v is the first integer |
| IntegerSequences.Tail | include/integer_sequence.hpp:28-38 | tail_t is the rest |
| IntegerSequences.HeadTail | include/integer_sequence.hpp:12-38 | head in front of tail gives back the sequence |
| IntegerSequences.Length | include/integer_sequence.hpp:159-169 | length_v is the number of integers |
| IntegerSequences.Append | include/integer_sequence.hpp:43-54 | append_t puts the integer at the end and raises the length by one |
| IntegerSequences.AppendIf | include/integer_sequence.hpp:59-82 | append_if_t appends exactly when the predicate holds |
| IntegerSequences.FromRangeAcc | include/integer_sequence.hpp:87-107 | the accumulator gets Begin, Begin + 1, ..., End - 1 appended |
| IntegerSequences.FromRange | include/integer_sequence.hpp:87-107 | integer_sequence_from_range_t is Begin, ..., End - 1, of length End - Begin |
| IntegerSequences.FromRangeMembers | include/integer_sequence.hpp:87-107 | the range holds exactly the integers in [Begin, End) |
| IntegerSequences.FilterAcc | include/integer_sequence.hpp:113-126 | filter with an accumulator is the accumulator followed by the kept integers |
| IntegerSequences.Filter | include/integer_sequence.hpp:113-132 | filter_t keeps exactly the satisfying integers, in order |
| IntegerSequences.FilterRange | include/integer_sequence.hpp:87-132 | filtering a range keeps exactly its integers satisfying the predicate |
| IntegerSequences.ToArray | include/integer_sequence.hpp:137-156 | to_array lists the integers in order, and is no array for the empty sequence |
| TypeDescriptors.Apply | include/type_descriptor.hpp:44-86 | apply turns each modifier tag into its modifier and any other value into an array of that bound |
| TypeDescriptors.ComposeFrom | include/type_descriptor.hpp:90-106 | applying tags never changes the base a type is built on; the tags it adds are in TagsOfCompose |
| TypeDescriptors.Compose | include/type_descriptor.hpp:90-106 | compose_t builds a type on the descriptor's base; RoundTrip and RoundTripDescriptor tie it to decompose_t |
| TypeDescriptors.DecomposeFrom | include/type_descriptor.hpp:123-184 | decompose_ pushes exactly one tag per modifier of the type onto the stack it is given; DecomposeInnermostFirst gives the tags and their order |
| TypeDescriptors.Decompose | include/type_descriptor.hpp:110-120 | decompose_t yields a base type |
| TypeDescriptors.DecomposeBase | include/type_descriptor.hpp:123-184 | decomposition onto any stack ends at a base type |
| TypeDescriptors.ComposeConcat | include/type_descriptor.hpp:90-106 | composing two tag lists in turn is composing their concatenation |
| TypeDescriptors.DecomposeInnermostFirst | include/type_descriptor.hpp:123-184 | decomposition puts the type's tags innermost first in front of the stack, `T const[N]` included |
| TypeDescriptors.PeelTag | include/type_descriptor.hpp:129-139 | peeling one modifier pushes its tag before the inner type's tags |
| TypeDescriptors.ComposeTagsOf | include/type_descriptor.hpp:90-106 | applying a type's tags to its base rebuilds it when no bound collides with a modifier tag |
| TypeDescriptors.ComposeLast | include/type_descriptor.hpp:44-106 | the last tag applies the outermost modifier |
| TypeDescriptors.RoundTrip | include/type_descriptor.hpp:89-184 | compose_t(decompose_t(T)) == T when every array bound is below the modifier tags |
| TypeDescriptors.TagsOfApply | include/type_descriptor.hpp:44-86 | applying a tag adds exactly that tag on the outside |
| TypeDescriptors.TagsOfCompose | include/type_descriptor.hpp:90-106 | composing tags onto a type appends exactly those tags |
| TypeDescriptors.RoundTripDescriptor | include/type_descriptor.hpp:89-184 | decompose_t(compose_t(D)) == D for a base under any size_t tags |
| TypeDescriptors.BoundCollidesWithPointerTag | include/type_descriptor.hpp:23-40 | an array whose bound equals the pointer tag composes back as a pointer |
| TypeDescriptors.InnermostFirstExamples | include/type_descriptor.hpp:129-179 | `const int*` decomposes to Const then Pointer, `int const[3]` to Const then 3 |
| TypeDescriptors.BaseType | include/type_descriptor.hpp:217-228 | base_type_t is the descriptor's base |
| TypeDescriptors.ReplaceBaseType | include/type_descriptor.hpp:231-241 | replace_base_type_t changes only the base and keeps the tags |
| TypeDescriptors.RemoveAllConst | include/type_descriptor.hpp:244-256 | remove_all_const_t drops every Const tag and keeps every other tag and the base |
| TypeDescriptors.RemoveAllPointers | include/type_descriptor.hpp:259-273 | remove_all_pointers_t drops every Pointer tag and keeps every other tag and the base |
| TypeDescriptors.RemoveKeepsOrder | include/type_descriptor.hpp:244-273 | both removals distribute over concatenation of tag stacks, so the remaining tags keep their order |
| TypeDescriptors.ArrayFromDescriptor | include/type_descriptor.hpp:187-214 | array_from_descriptor lists the tags in order, and is no array when there are none |

## Left out

- I/O: `static_json::stream_set` and the stream operators (`operator<<`, `operator>>`) depend on `std::istream` semantics and are not modelled.
- Numbers in static_json: `std::to_string` output is carried as opaque text in the field value; its formatting is not modelled.
- json's non-const `get` returning a reference is modelled as the value it refers to.
- dag.hpp is a stub with only a constructor and a handle_map member, and is not part of this model. Neither are the k-d trees, `any`, the iterator adaptors, `array_view`, the function and member deductions, `point_traits` and `sfinae`.
- The storage policies of the sliding window (`stack_storage`, `static_heap_storage`) are both modelled as one array of Size values.
- small_vector's storage punning (`aligned_storage`, `LAUNDER`, `reinterpret_cast`, placement new of a `std::vector`) is modelled as a separate inline array and heap sequence; the byte-level overlap is not.
- Copy constructors, assignment operators, move operations, destructors, `swap`, `begin`/`end` and the iterator types of all containers are not modelled.
- `size_t` wrap-around is not modelled: sizes and handles are unbounded naturals. The tree requires fewer than `inactive_tag` nodes.
- sliding_window_map with floating-point keys, a non-unit `std::ratio` precision, a custom `Compare`, `operator==`, `get_key`, `max_size` and `empty` are not modelled. Keys are integers, and the precision is fixed at 1/1.
- SlidingWindows.SlidingWindowMap.Get: map `operator[]` with a key outside the window indexes the buffer modulo Size in the code; the model requires the key to be in view.
- The sliding window head is modelled as the raw index into the buffer of the circular iterator, not as a `circular_iterator` object.
- HandleMaps.HandleMap.Erase, HandleMaps.HandleMap.Get: liveness of the handle is a requires; the code does not check it and misbehaves otherwise.
- StableVectors.StableVector.Erase, StableVectors.StableVector.Get: the index must be live; double erase (no check in the code) is excluded by the requires.
- Trees.Tree.InsertNode: the parent must be an existing node; the code indexes `children_` with it unchecked.
- Trees.Tree.ChildTags, Trees.Tree.Children: the C++ functions return iterator pairs; the model returns the sequences they range over.
- SmallVectors.SmallVector.PopBack: the code does not guard against an empty vector; a non-empty vector is required.
- soa is modelled with a single field value type V for every member of the struct; members of different C++ types would need a heterogeneous tuple.
- `type_list`'s `value_transform`, `explicit_value_transform`, `index_sequence_for`, `from_template_instantiations`, `zip`, `apply`, `all_of` and `any_of` are not modelled, and neither is `length`, which is the list's length `|l|`.
- TypeDescriptors: C++ type identities (const on an array type meaning an array of const elements, repeated const collapsing, reference collapsing) are not applied; types are free terms. `size_t` is taken to be 64 bits.
- IntegerSequences.FromRange: Begin <= End is required; with Begin > End the C++ recursion never terminates.
- IndexSorts.IndexSort: `std::sort` is modelled by an insertion sort; the order among equal keys is unspecified in the code and not stated. Keys are integers; the floating-point keys of the tests are not modelled.
- Compile errors of the metaprograms (`static_assert` on an index out of range, an absent type in `index_of_type`) are preconditions.

## Findings

| source | as written | input that shows it | evidently intended | confidence | as-written member | corrected member |
|---|---|---|---|---|---|---|
| include/handle_map.hpp:94 | erase swaps `reverse_[n]` with `reverse_[last]`, indexing the position table by a handle; for every live handle off its own position this breaks the tables | insert a, b, c; erase(1); insert d; erase(2); erase(0): live handle 1 then points past the end of `dense_`. Also insert a, b, c; erase(0); erase(2) reads `reverse_[2]` of a two-entry table | swap `reverse_[sparse_[n]]` with `reverse_[last]`, which keeps `sparse_[reverse_[p]] == p` as insert establishes it | not executed | HandleMaps.EraseDefectWitness | HandleMaps.EraseCorrect |
| include/small_vector.hpp:78-89 | the (count, value) constructor never initialises `size_`, so the branch taken and the size come from an indeterminate value | small_vector(3, 7) with `size_` happening to hold 0 yields an empty vector | initialise `size_(count)` as the other constructors do, giving count copies of value | not executed | SmallVectors.FilledAsWrittenWitness | SmallVectors.FilledWitness |
