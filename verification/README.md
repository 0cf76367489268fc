# Block deque

A model of `Deque<T>` from `deque.h`. This is a double-ended, randomly indexable container.
It stores its elements in a table of fixed blocks, each holding 32 element slots.

- **The table.** `arr` is an indirection table of `capacity_` blocks.
- **The live window.** It starts at slot `first_elem` of block `first_block` and runs for
  `size_` slots. In absolute offsets, it covers `[first_block * 32 + first_elem, ... + size_)`.
- **Iterators.** An iterator is a (block number, element number) pair. `++` and `--` wrap the
  element number within the block and carry into, or borrow from, the block number. `+=` and
  `-=` recompute the position from the absolute offset `block * 32 + elem`. Difference and
  comparison are the difference of absolute offsets.
- **Growth.** `reserve(n)` grows the table to `max(3 * capacity, n)` blocks. An empty table asked
  for more than one block is first bootstrapped to one block. The C old blocks go to entries
  [C, 2C) of the new table, which is its middle third when the table triples (the usual case),
  and `first_block` moves up by C, so every element keeps its place in the sequence. After a
  bootstrap this shift is 1 in total.
- **The ends.** `push_back` grows the table when the window touches its end. `push_front` grows
  it when the window starts at slot 0 of block 0. A deque with no table (capacity 0) grows by
  `reserve(2)` followed by one extra `first_block++`; one with a table grows by
  `reserve(3 * capacity)`.
- **Middle operations.** `insert` and `erase` shift every element between the given position
  and the end by one slot.

## How it is modelled

- **`Iterators` (iterators.dfy).**
  - Positions are the datatype `Pos`.
  - Iterator arithmetic is pure functions. Each function states its effect on the absolute
    offset, and lemmas relate the functions to each other.
  - The mutable iterator is the class `Iterator`. Its `++`, `--`, `+=` and `-=` update its two
    fields in place and are proved against those functions.
- **`Deques` (deque.dfy).**
  - The container is the class `Deque` with the five fields of the source.
  - The table is a field `arr: seq<seq<T>>`, one 32-slot sequence per block.
  - `Valid()` is the object invariant. It requires:
    - a table of `capacity` uniform blocks;
    - `first_elem < 32`;
    - a window that fits in the table;
    - a capacity different from 2 (reserve never produces 2 blocks, and the copy constructor
      relies on this).
  - `Elements()` is the abstract sequence, front to back: the `size` slots of the table from
    the window's start on.
  - Every operation states its effect on `Elements()`, and also on the capacity and window
    position where the source fixes them.
- **The source's loops are loops with invariants** (`while` loops, and a `for` loop in
  `NewTable`). They run on a table value:
  - the construction loops of the constructors: `FillWindow` and `CopyWindow`;
  - the shifting loops of `insert` and `erase`: `ShiftRight` and `ShiftLeft`;
  - the allocation loop of `reserve`: `NewTable`.
- **Scenarios (scenarios.dfy).** Client programs drive the class through the documented
  scenarios. Generic clients prove the round trips:
  - insert then erase;
  - push_back then pop_back;
  - push_front then pop_front.

## Model

| member | source | states |
|---|---|---|
| Iterators.AbsInjective | deque.h:133 | two normal iterators are equal (field-wise, as the defaulted `==` compares) exactly when their absolute offsets are equal |
| Iterators.FromAbs | deque.h:46-47 | the iterator built from any absolute offset has `elem` in [0, 32) and the same offset, and its block is non-negative when the offset is. The divisor `blockSize` is unsigned, so a negative offset also lands in [0, 32) of the block below, as Euclidean division does |
| Iterators.FromAbsOfAbs | deque.h:46-47 | building an iterator from the offset of a normal iterator gives back the same (block, elem) pair |
| Iterators.FromAbsShift | deque.h:418 | moving an offset by whole blocks, as reserve moves `first_block`, changes only the block number |
| Iterators.Next | deque.h:57-63 | `++` yields a normal position one slot further on |
| Iterators.Prev | deque.h:71-78 | `--` yields a normal position one slot back, also across a block boundary |
| Iterators.NextPrev | deque.h:110-120 | `prev()` of `next()`, and `next()` of `prev()`, are the original position |
| Iterators.Add | deque.h:93-97 | `it + d` is a normal position exactly `d` slots from `it` |
| Iterators.Sub | deque.h:104-108 | `it - d` is a normal position exactly `d` slots before `it` |
| Iterators.Diff | deque.h:122-124 | the iterator difference is the difference of the absolute offsets |
| Iterators.Compare | deque.h:126-131 | `<=>` is less, equal or greater exactly as the absolute offsets compare |
| Iterators.AddThenDiff | deque.h:122-124 | `(it + d) - it == d` |
| Iterators.AddThenSub | deque.h:104-108 | `(it + d) - d == it` for a normal iterator |
| Iterators.CompareAfterAdd | deque.h:126-131 | `it + d` compares greater, equal or less than `it` exactly when `d` is positive, zero or negative |
| Iterators.Steps | deque.h:57-63 | `k` applications of `++` move a normal position exactly `k` slots on |
| Iterators.StepsIsAdd | deque.h:86-91 | walking with `++` `k` times lands on the same (block, elem) as `+= k` |
| Iterators.Iterator.constructor | deque.h:43-44 | the iterator holds the given (block, elem) pair |
| Iterators.Iterator.FromOffset | deque.h:46-47 | the iterator holds the position of the absolute offset |
| Iterators.Iterator.Increment | deque.h:57-63 | prefix `++` updates the fields to `Next` of the old position |
| Iterators.Iterator.PostIncrement | deque.h:65-69 | postfix `++` returns the old position and advances |
| Iterators.Iterator.Decrement | deque.h:71-78 | prefix `--` updates the fields to `Prev` of the old position |
| Iterators.Iterator.PostDecrement | deque.h:80-84 | postfix `--` returns the old position and steps back |
| Iterators.Iterator.AddAssign | deque.h:86-91 | `+=` updates the fields to `Add` of the old position |
| Iterators.Iterator.SubAssign | deque.h:99-102 | `-=` updates the fields to `Sub` of the old position |
| Deques.GrownCapacity | deque.h:392-398 | the capacity after `reserve(n)` on c blocks is at least c and at least n, and is c when c >= n. Otherwise it is at least 3c and is exactly n, or 3c, or 3 when an empty table asked for more than one block (so `reserve(1)` on an empty table gives 1). It is never 2 unless c was 2 |
| Deques.GrowthShift | deque.h:393-418 | the table, and `first_block`, move up by nothing when no growth happens, by the old capacity when a non-empty table grows, and by exactly 1 when an empty table asked for more than one block is bootstrapped first. The moved blocks end before the last third |
| Deques.CopyCapacity | deque.h:182-183 | `reserve(capacity)` on an empty table reproduces any capacity a deque can have |
| Deques.InsertAt | deque.h:360-373 | the sequence after inserting at offset p: one longer, v at p, elements before p unchanged, elements after p shifted one on |
| Deques.EraseAt | deque.h:375-382 | the sequence after erasing at offset p: one shorter, elements before p unchanged, later elements shifted one back |
| Deques.EraseAfterInsert | deque.h:360-382 | erasing at the offset just inserted at restores the sequence |
| Deques.Slot | deque.h:49-51 | `*it` is the table cell at the iterator's absolute offset |
| Deques.Stored | deque.h:369-371 | after `*it = v`, the cell at the iterator's offset holds v and every other cell is unchanged |
| Deques.WindowSplit | deque.h:332-346 | a window is its first m elements followed by the next n |
| Deques.WindowSplitAt | deque.h:332-346 | the first m elements of a window, and the rest, are the corresponding slices |
| Deques.WindowStoredOutside | deque.h:282 | a store outside the window leaves the window unchanged |
| Deques.WindowStored | deque.h:369-371 | a store inside the window replaces exactly the element at its offset |
| Deques.WindowAppend | deque.h:282 | storing at `end()` extends the window by that value at the back |
| Deques.WindowPrepend | deque.h:309-312 | storing at `--begin()` extends the window by that value at the front |
| Deques.CellShifted | deque.h:403-418 | after the old blocks move up by C entries, the cell at offset a is found at a + 32C |
| Deques.WindowShifted | deque.h:403-418 | after the old blocks move up by C entries, the window starting 32C later holds the same elements |
| Deques.FilledPrefixStep | deque.h:159-161 | one step of a construction loop extends the constructed prefix by one element |
| Deques.ShiftRightStep | deque.h:368-370 | one step of insert's loop moves the gap one slot toward `place` and keeps the elements on both sides |
| Deques.InsertFinish | deque.h:371 | storing the value into the gap at `place` yields `InsertAt` of the old elements |
| Deques.ShiftLeftStart | deque.h:377 | before erase's loop, the slots are the erased sequence's prefix followed by the old tail |
| Deques.ShiftLeftStep | deque.h:378-380 | one step of erase's loop extends the erased prefix by one element |
| Deques.ShiftRightStored | deque.h:368-370 | one table step of insert's loop: `*(help.prev())` is `s[h - 1]`, and storing it at `help` moves the gap to `help.prev()` |
| Deques.ShiftLeftStored | deque.h:378-380 | one table step of erase's loop: `*(help.next())` is `s[h + 1]`, and storing it at `help` extends the erased prefix |
| Deques.FillWindow | deque.h:157-161 | the loop from `begin()` to `end()` leaves every one of the n slots holding the value |
| Deques.CopyWindow | deque.h:186-191 | the loop walking both deques from the same `begin()` leaves this window equal to the other deque's window |
| Deques.ShiftRight | deque.h:367-370 | after insert's loop, the slots before `place` are unchanged and the slots after it hold the old elements from `place` on, one slot later |
| Deques.ShiftLeft | deque.h:376-380 | after erase's loop, the window of the new size holds `EraseAt` of the old elements at `place` |
| Deques.NewTable | deque.h:399-408 | the new table has the new capacity in uniform blocks, and the old block i sits at entry i + old capacity |
| Deques.Deque.Size | deque.h:261-263 | `size()` is the number of elements |
| Deques.Deque.Begin | deque.h:213-215 | `begin()` is a normal position at the window's first offset |
| Deques.Deque.End | deque.h:225-227 | `end()` is a normal position `size` slots past `begin()` |
| Deques.Deque.Full | deque.h:388-390 | `full()` holds exactly when the window ends at the end of the table, that is, when `end()` is in block `capacity` |
| Deques.Deque.Get | deque.h:265-268 | `operator[](i)` is the i-th element |
| Deques.Deque.At | deque.h:348-352 | `at(i)` yields the i-th element when `i < size()`. Otherwise it signals `out_of_range("Wrong index")`, both directions |
| Deques.Deque.IndexAgreesWithIterator | deque.h:348-352 | `operator[](i)`, `*(begin() + i)` and `at(i)` agree for every valid index |
| Deques.Deque.constructor | deque.h:152 | the default deque is empty, with no blocks and the window at (0, 0) |
| Deques.Deque.Sized | deque.h:154-166 | `Deque(n)` holds n default values, starts at (0, 0), and has the capacity `reserve(ceil(n / 32))` gives |
| Deques.Deque.Filled | deque.h:168-180 | `Deque(n, value)` holds n copies of value, starts at (0, 0), and has the capacity `reserve(ceil(n / 32))` gives |
| Deques.Deque.Reserve | deque.h:392-422 | the capacity becomes `GrownCapacity` and `first_block` moves up by `GrowthShift`. The replaced table is returned exactly when growth happened from a table that had blocks. `reserve(1)` on a table of no blocks returns nothing, because the replaced table is null, just as when no growth happens. The old blocks sit at the shifted entries. A valid deque stays valid with the same elements |
| Deques.Deque.Copy | deque.h:182-196 | the copy has the same elements, the same capacity and the same window position |
| Deques.Deque.Swap | deque.h:198-206 | the two deques exchange all five fields, and so their elements |
| Deques.Deque.Assign | deque.h:208-211 | after assignment, this deque holds the other's elements, capacity and window position |
| Deques.Deque.PushBack | deque.h:275-295 | the value is appended. The table triples (an empty one gets one block) exactly when it was full, and the window then moves up by the old capacity |
| Deques.Deque.PushFront | deque.h:297-330 | the value is prepended and the new start is one slot before the old one. When the window began at (0, 0), the table grows: an empty one to 3 blocks with the window moved 2 blocks up, any other to three times its size with the window moved up by the old capacity |
| Deques.Deque.PopFront | deque.h:332-340 | the first element is dropped. The start moves one slot on, and `first_elem` wraps to 0 after 31 |
| Deques.Deque.PopBack | deque.h:342-346 | the last element is dropped and nothing but the size changes |
| Deques.Deque.Insert | deque.h:360-366 | the elements become `InsertAt` at the position's offset. A full table triples first and the position is rebased by the old capacity |
| Deques.Deque.StoreShifted | deque.h:367-373 | with room after the last element, the shift loop and `*place = value` give `InsertAt` at the position's offset |
| Deques.Deque.Erase | deque.h:375-382 | the elements become `EraseAt` at the position's offset |
| Scenarios.FilledAccess | deque.h:348-352 | `Deque(5, 7)`: `at(4)` is 7 and `at(5)` signals `out_of_range("Wrong index")` |
| Scenarios.ReserveFromNoTable | deque.h:392-422 | on a deque with no table, `reserve(1)` returns nothing (the replaced table is null), and `reserve(2)` returns the bootstrap table, growing to 3 blocks with `first_block` 1 |
| Scenarios.SizedCapacity | deque.h:154-156 | `Deque(64)` bootstraps to one block, then grows to 3, with `first_block` reset to 0 |
| Scenarios.PushFrontOnEmpty | deque.h:301-304 | `push_front` on an empty deque: 3 blocks, and the element in slot 31 of block 1 |
| Scenarios.PushesAndPops | deque.h:275-346 | pushes at both ends keep insertion order, and pops remove from the right ends |
| Scenarios.GrowOnFull | deque.h:279-280 | `push_back` on a full one-block deque gives 3 blocks with `first_block` 1, and the elements keep their indices |
| Scenarios.InsertThenErase | deque.h:360-382 | `Deque(3, 5)`: insert 9 at index 1 makes index 1 read 9. Erase at index 1 then gives exactly [5, 5, 5], read at every index, with index 3 out of range |
| Scenarios.MixedOperations | deque.h:275-382 | push_back(1), push_back(2), push_front(0), pop_front(), insert(begin() + 1, 9), erase(begin()) give [9, 2] |
| Scenarios.CopiesAreIndependent | deque.h:182-211 | a copy and an assigned deque of [1, 2] still read [1, 2] at every index after the original's first slot is overwritten by erase and push_front(9) makes it [9, 2]. Blocks are values (see "Blocks are values" under Left out), so this does not tell a deep copy of the blocks from a shared one |
| Scenarios.InsertThenEraseRestores | deque.h:360-382 | for every valid deque and position, insert then erase at the same offset restores the elements, also when insert grew the table |
| Scenarios.PushBackThenPopBack | deque.h:275-346 | push_back then pop_back restores the elements |
| Scenarios.PushFrontThenPopFront | deque.h:297-340 | push_front then pop_front restores the elements |

## Left out

- Exceptions and rollback are not modelled; construction, copying and allocation always succeed. This covers the `try`/`catch` blocks of the constructors, `push_back`, `push_front` and `reserve`, the restoring of `arr`, `capacity_` and `first_block`, `clear_memory` on failure, and the freeing of partly allocated blocks.
- Memory management is not modelled: raw block storage, placement `new`, explicit destructor calls (`it->~T()`, `end()->~T()`), `clear_memory`, `~Deque` and `delete[]` of old tables. A slot is simply overwritten or left as it is.
- Blocks are values (`seq<seq<T>>`), not arrays reached through pointers. A store into a slot (`*it = v`) replaces the block value in the table rather than writing into a shared block, which keeps every operation's frame to the deque's own fields. What this does not capture: aliasing between the old and the new table after `reserve` (both reach the same blocks in the source), and block identity. NewTable states where the old blocks go, but only that the entries [0, C) and [2C, new capacity) are uniform 32-slot blocks. It does not state that they are freshly allocated, and it does not model their zero-filled bytes: their slots hold `T`'s default value.
- Deques.Deque.Reserve: the old table it returns is a value, and it is stated to be the previous table only when the capacity was non-zero. After the bootstrap step of `reserve(n)` with n > 1, it is the one-block table that step built, as in the source.
- The shift loops of `insert` and `erase` and the construction loops of the constructors run on a table value that is assigned to `arr` afterwards. No other code reads `arr` meanwhile, so this does not change the result.
- `data_pointer`, `change_data` and `change_block` are not modelled. Iterators carry only (block, elem), and `insert`'s rebasing is written out as `Pos(block + old capacity, elem)`.
- `operator->`, the const iterator, `cbegin`/`cend`, the reverse iterators (`rbegin`, `rend`, `crbegin`, `crend`) and the const overloads of `begin`, `end`, `operator[]` and `at` are not modelled. `operator->` and the const forms give the same position or element as their non-const counterparts. The reverse iterators wrap `end()` and `begin()` in `std::reverse_iterator`, which dereferences the element before the wrapped position, so `*rbegin()` is the last element.
- Fixed-width arithmetic is not modelled. Integers are unbounded, so `size_t` and `int` overflow are absent. The `index < 0` test in `at` can never hold for a `size_t` and is dropped.
- Deques.Deque.Sized and Deques.Deque.Filled: a negative `n` is not modelled (`n` is a `nat`). In the source, `(n + blockSize - 1) / blockSize` is computed in `size_t`. For -31 <= n <= -1 the rounded-up block count wraps to 0, so nothing is allocated and the fill loop writes through the null table (undefined behaviour). For n <= -32, `reserve` is asked for about 2^59 blocks and `new` throws. For `Sized`, the value that `T()` constructs is passed in as `defaultValue`.
- Iterators.FromAbs, Iterators.Add and Iterators.Iterator.AddAssign: `absolute / blockSize` and `absolute % blockSize` convert the `int` offset to `size_t` first. The model uses Euclidean division, which is what the source computes when `size_t` is 64 bits wide and the block number fits in an `int`. The narrowing of a 32-bit `size_t` quotient is not modelled.
- Deques.Deque.PopFront, Deques.Deque.PopBack and Deques.Deque.Erase require a non-empty deque, and Erase requires a position before `end()`. Deques.Deque.Insert requires a position in `[begin(), end()]`. The source leaves these cases undefined.
