# noob_vec in Dafny

This is a model of `noob_vec`, a Rust re-implementation of a growable vector
in the style of the Rustonomicon's `Vec` chapter. The model has three layers:

- **An owned buffer (`RawVec`)**: an address, a capacity in slots, and the
  allocator block those slots occupy. Capacity goes 0 → 1 → 2 → 4 …. A
  zero-sized element gets capacity `usize::MAX` and never allocates.
- **A vector (`MyVec`)**: a buffer plus the number of leading slots that hold
  values. It supports `push`, `pop`, `insert` and `remove`, with the shifts
  done by an overlapping block move (`ptr::copy`), and a slice view through
  `Deref`/`DerefMut`.
- **A raw value cursor (`RawValIter`)**: two byte addresses over slots it
  does not own. It takes values from either end. A zero-sized element
  advances it by one byte. Two iterators wrap it:
  - `IntoIter` owns the vector's former buffer.
  - `Drain` leaves the buffer with the vector.

  Dropping either iterator takes every value still in range.

The modules follow the source files:

| file | module | source |
|---|---|---|
| `common.dfy` | `Common` | limits of the 64-bit target, `Option`/`Status`/`Result`, `Layout` |
| `ptr.dfy` | `Ptr` | `ptr::copy` (memmove) on a slot array |
| `raw_vec.dfy` | `RawVecs` | `src/raw_vec.rs` |
| `raw_val_iter.dfy` | `RawValIters` | `src/raw_val_iter.rs` |
| `drain.dfy` | `Drains` | `src/drain.rs` |
| `my_vec.dfy` | `MyVecs` | `src/main.rs` (the vector and `IntoIter`) |
| `scenarios.dfy` | `VecScenarios` | the unit tests of `src/main.rs` as client code |

**Memory.** A buffer's slots are a Dafny `array<T>` whose length is the
capacity. Slot `i` sits at address `ptr + i * size_of::<T>()`.

**Addresses.** The cursor keeps the source's byte addresses `start` and
`end`. Ghost slot indices tie those addresses to the array.

**Growth.** Every successful growth gets a fresh array with the old slots
copied, which is what `alloc` followed by `realloc` promises.

**Aborts.** A panic or an allocation-failure abort is returned as a
`Status`/`Result` value. The state is then left as it was at the panic point,
and every such point comes before any field changes.

**Drops.** Rust's drops are explicit `Dispose` methods. A ghost log records
every value a drop takes, and `Release` returns the layout of the block it
hands to `dealloc`, so that "each value is yielded or dropped exactly once"
and "the block freed is the block held" can be stated.

**Moves.** Ownership moves (`into_iter`'s `mem::forget`, an iterator's drop)
clear a ghost liveness flag that every operation requires.

## Model

| member | source | states |
|---|---|---|
| Ptr.Moved | src/main.rs:64-68 | the block move leaves `count` source slots at the destination and every slot outside the destination range untouched |
| Ptr.Copy | src/main.rs:79-83 | the in-place memmove (front to back or back to front by overlap direction) yields exactly `Moved` of the old contents, whatever the overlap |
| Ptr.CopyForward | src/main.rs:79-83 | moving front to back when the destination lies below the source yields exactly `Moved` of the old contents |
| Ptr.CopyBackward | src/main.rs:64-68 | moving back to front when the destination lies above the source yields exactly `Moved` of the old contents |
| RawVecs.NextCap | src/raw_vec.rs:27-43 | growth either stops with "capacity overflow" (zero-sized element, or old byte count above `isize::MAX / 2`) or yields a strictly larger capacity |
| RawVecs.GrowStaysInRange | src/raw_vec.rs:36-44 | from an allocation within `isize::MAX` bytes, a successful growth stays within `isize::MAX` bytes, the doubled capacity fits a `usize`, and the requested byte count is `size` for the first block and twice the old byte count after |
| RawVecs.GrowKeepsPow2 | src/raw_vec.rs:32-37 | growth from capacity 0 or a power of two yields a power of two |
| RawVecs.ReallocLayoutAsWritten | src/raw_vec.rs:43-45 | the layout the source hands to `realloc` is never the layout of the block being resized |
| RawVecs.RawVec.constructor | src/raw_vec.rs:11-18 | capacity `usize::MAX` for a zero-sized element and 0 otherwise, dangling (aligned, non-null) address, nothing allocated |
| RawVecs.RawVec.Grow | src/raw_vec.rs:20-61 | outcome is capacity overflow, allocation error or success exactly as `GrowStatus` says; on success the capacity is `NextCap`'s, the address the allocator's, the old slots kept, the block held is the new request, and the block given to `realloc` is the one held; on failure nothing changes |
| RawVecs.RawVec.Release | src/raw_vec.rs:64-78 | the block handed to `dealloc` is exactly the block held, and there is one iff capacity is non-zero and the element sized |
| RawValIters.Step | src/raw_val_iter.rs:36-40 | the cursor's step is at least one byte and equals the element size for sized elements |
| RawValIters.EndAddress | src/raw_val_iter.rs:14-20 | the three branches of the end computation agree with `base + len * step`, and the range is empty iff `len == 0` |
| RawValIters.SlotAddressIsProduct | src/raw_val_iter.rs:37-39 | stepping one slot at a time `i` times reaches `base + i * step` |
| RawValIters.SlotsBetween | src/raw_val_iter.rs:48-49 | the address difference divided by the step counts exactly the slots between two positions |
| RawValIters.SlotAddressInjective | src/raw_val_iter.rs:30 | equal addresses mean equal slot positions, so `start == end` holds exactly when no value is left |
| RawValIters.SlotIndex | src/raw_val_iter.rs:35 | reading at the address of slot `i` reads slot `i` |
| RawValIters.RawValIter.constructor | src/raw_val_iter.rs:10-23 | the cursor starts at the slice's address, ends at `EndAddress`, and ranges over exactly the slice's values |
| RawValIters.RawValIter.Next | src/raw_val_iter.rs:29-44 | `None` iff `start == end` iff nothing is left; otherwise the first remaining value, which leaves the range, with `start` one step on |
| RawValIters.RawValIter.NextBack | src/raw_val_iter.rs:55-69 | `None` iff nothing is left; otherwise the last remaining value, which leaves the range, with `end` one step back |
| RawValIters.RawValIter.SizeHint | src/raw_val_iter.rs:46-51 | both bounds equal the number of values left |
| RawValIters.RawValIter.Exhaust | src/drain.rs:26 | the `for _ in &mut iter {}` loop takes every remaining value, front first, and the original values are then the front-taken, the dropped and the back-taken ones in order; `start` ends at the unchanged `end` |
| Drains.Drain.constructor | src/main.rs:105 | a drain over the given cursor with nothing dropped yet |
| Drains.Drain.Next | src/drain.rs:9-11 | as the cursor's `next`: `None` iff `start == end` iff nothing is left; otherwise the first remaining value, `start` one step on and `end` unchanged |
| Drains.Drain.SizeHint | src/drain.rs:13-15 | as the cursor's `size_hint` |
| Drains.Drain.NextBack | src/drain.rs:19-21 | as the cursor's `next_back`: `None` iff `start == end` iff nothing is left; otherwise the last remaining value, `end` one step back and `start` unchanged |
| Drains.Drain.Dispose | src/drain.rs:24-28 | the drop takes exactly the values still in range, leaving the original values and the back-taken ones as they were, so each original value was yielded or dropped exactly once and in its place |
| Common.ReverseMultiset | src/main.rs:112 | popping values off the back drops the same values, each once, as the live range held |
| MyVecs.InsertShift | src/main.rs:62-72 | moving the tail up one slot and writing into the gap gives `old[..index] + [elem] + old[index..]` |
| MyVecs.RemoveShift | src/main.rs:79-84 | moving the values after `index` down one slot leaves every live value but the one at `index`, in order |
| MyVecs.RemovePlanAsWritten | src/main.rs:76-83 | for every index the source's guard admits, the slots it reads or moves reach past the live values |
| MyVecs.RemoveAsWritten | src/main.rs:75-87 | what the source's `remove` returns, stores as length and keeps, for any index its guard admits on a vector with a spare slot after the live values: below `len` it returns `slots[index]` and keeps the other values in order; at `index == len` it returns the spare slot and keeps only `slots[..len - 1]`, losing the last value; the stored length is negative exactly when the vector was empty |
| MyVecs.RemoveOnEmptyUnderflows | src/main.rs:75-84 | `remove(0)` on an empty vector passes the guard, returns a slot that holds no value, and drives the length below zero |
| MyVecs.RemoveAtLenLosesValue | src/main.rs:76-83 | `remove(1)` on `[7]` returns the stale spare slot and loses the 7; `remove(0)` on a full one-slot vector moves a slot past the allocation |
| MyVecs.RemovePlanFixed | src/main.rs:76-83 | with the guard `index < len` and a move of `len - index - 1` slots, every access is within the live values and the move covers exactly the values after `index` |
| MyVecs.MyVec.constructor | src/main.rs:21-26 | an empty vector over a new empty buffer |
| MyVecs.MyVec.Deref | src/main.rs:117-123 | the view has exactly `len` values, the first `len` slots |
| MyVecs.MyVec.Set | src/main.rs:125-129 | a write through the mutable view changes exactly the one position inside it; outside it is an index panic that changes nothing |
| MyVecs.MyVec.Push | src/main.rs:36-45 | grows only when full; on success the view is the old one plus `elem`, and the capacity is the grown one exactly when growth happened; the buffer moves to the allocator's address with a fresh slot array exactly when it grew, and otherwise keeps its address and array; on a growth failure nothing changes |
| MyVecs.MyVec.Pop | src/main.rs:47-54 | `None` iff empty; otherwise the last value, which leaves the view |
| MyVecs.MyVec.Insert | src/main.rs:56-73 | an index past `len` panics before any change; otherwise grows only when full, and on success the view is `old[..index] + [elem] + old[index..]`; the buffer moves to the allocator's address with a fresh slot array exactly when it grew, and otherwise keeps its address and array |
| MyVecs.MyVec.OpenGapAndWrite | src/main.rs:62-72 | the unsafe block of `insert` leaves `old[..index] + [elem] + old[index..]` in the first `len + 1` slots |
| MyVecs.MyVec.CloseGap | src/main.rs:79-83 | the move in `remove` leaves `old[..index] + old[index + 1..]` in the first `len - 1` slots |
| MyVecs.MyVec.Remove | src/main.rs:75-87 | with the corrected guard: an index outside the view panics and changes nothing; otherwise returns the value at `index` and the view loses exactly it |
| MyVecs.MyVec.IntoIter | src/main.rs:89-99 | the vector is forgotten; the iterator owns its buffer and ranges over exactly its values |
| MyVecs.MyVec.Drain | src/main.rs:101-106 | the vector becomes empty with buffer and slots untouched; the drain ranges over exactly its former values |
| MyVecs.MyVec.Dispose | src/main.rs:109-115 | the drop pops every value, dropping each once, last first, then hands back exactly the block held |
| MyVecs.IntoIter.constructor | src/main.rs:97 | an iterator owning the buffer, with a cursor over that buffer's slots |
| MyVecs.IntoIter.Next | src/main.rs:140-142 | as the cursor's `next`: `None` iff `start == end` iff nothing is left; otherwise the first remaining value, `start` one step on and `end` unchanged |
| MyVecs.IntoIter.SizeHint | src/main.rs:144-146 | as the cursor's `size_hint` |
| MyVecs.IntoIter.NextBack | src/main.rs:150-152 | as the cursor's `next_back`: `None` iff `start == end` iff nothing is left; otherwise the last remaining value, `end` one step back and `start` unchanged |
| MyVecs.IntoIter.Dispose | src/main.rs:155-159 | the drop takes exactly the values still in range, leaving the original values and the back-taken ones as they were, so each was yielded or dropped exactly once, then the owned buffer hands back exactly its block |
| VecScenarios.PushAll | src/main.rs:187-189 | up to ten pushes of small values onto an empty vector all succeed and leave exactly those values |
| VecScenarios.AddOneToEach | src/main.rs:172-174 | writing through the mutable view adds one to every value in place and keeps the length |
| VecScenarios.CreatePushPop | src/main.rs:167-183 | `pop` yields `Some(2)`, `remove(0)` yields 5, and the final length is 1 |
| VecScenarios.IterTest | src/main.rs:185-197 | the first value is 0, the last 9, the drop takes 1 to 8, and the buffer's block is freed |
| VecScenarios.DrainTest | src/main.rs:199-215 | the first value is 0, the last 9, the drop takes 1 to 8, the vector is empty, and a later push and pop return 1 |
| VecScenarios.DrainBothEnds | src/main.rs:204-210 | the drain of `[0, ..., 9]` yields 0 and 9, its drop takes 1 to 8, and the vector is left empty |
| VecScenarios.ZstTest | src/main.rs:217-230 | ten zero-sized values are all yielded and nothing is freed |
| VecScenarios.WorkedExample | src/main.rs:36-87 | pushing 1, 2, 3, removing at 1, inserting 9 at 1 and popping yields 2, then 3, and leaves `[1, 9]` |

## Left out

- Allocator calls (`alloc`, `realloc`, `dealloc`, `handle_alloc_error`) are not executed. The address an allocation returns is a parameter (0 stands for null), and the layout handed to `dealloc` is returned by `Release`.
- Memory is not modelled at the level of bytes or address provenance. Slots are an array indexed by slot number. The cursor's addresses are only related to that array through the slot arithmetic above.
- The `panic!("error")` branch after `Unique::new` is not modelled. It is unreachable, because null has already been rejected.
- `usize` is fixed at 64 bits. Address arithmetic is unbounded: the model does not bound `ptr + i * size` by `usize::MAX`.
- Rust's automatic drops and moves are explicit `Dispose` calls and ghost liveness flags.
  - Forgetting a drain without dropping it leaves its remaining values neither in the vector nor dropped. This is the leak the source accepts instead of a double drop.
  - `drain` returns a `Drain` with no lifetime tied to the vector (src/drain.rs:3-5, src/main.rs:101), so the source does not stop the vector from being pushed to or dropped while a drain is alive; a push then writes the slot the cursor reads next, and the value is dropped twice. The model does not exclude this either: `MyVec` and `Drain` share the slot array with no frame between them.
- `iter_mut` and other slice methods reached through `Deref` are modelled only as reading the view and writing one position (`Set`).
- `fn main`, the test harness and the private accessors `ptr()`/`cap()` are not separate members; the scenarios read the fields directly. The tests' `v.len()` is the slice method reached through `Deref`, that is `|Deref()|`.
- `MyVecs.RemoveAsWritten`: requires a spare slot after the live values, so it does not give values for `remove` on a full vector, whose read or move reaches past the allocation; `RemovePlanAsWritten` states that such an access happens.
- `RawVecs.NextCap`: its contract states only that growth increases the capacity. The exact doubling is stated by `GrowStaysInRange` and by `Grow`.

## Findings

| source | as written | input that shows it | evidently intended | confidence | as-written member | corrected member |
|---|---|---|---|---|---|---|
| src/main.rs:76-83 | `remove` checks `index <= len` and moves `len - index` slots | `remove(1)` on `[7]` (capacity 2) returns the spare slot's stale value and loses the 7. `remove(0)` on `[7]` with capacity 1 moves a slot from past the allocation. `remove(0)` on an empty vector reads a slot that holds no value, then `len -= 1` underflows (src/main.rs:84). The crate's own `create_push_pop` calls `remove(0)` on `[5, 10]` at capacity 2 (src/main.rs:179-180), so its move reads slot 2, past the block | guard `index < len`, move `len - index - 1` slots | high (not executed) | MyVecs.RemovePlanAsWritten | MyVecs.RemovePlanFixed |
| src/raw_vec.rs:43-45 | `realloc` receives the layout of the new, doubled size | any second growth: capacity 1 of `i32`, so the block holds 4 bytes but `realloc` is told 8 | pass the layout the block was allocated with (`old_num_bytes`) | high (not executed) | RawVecs.ReallocLayoutAsWritten | RawVecs.RawVec.Grow |
