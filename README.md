# speedy_refs ownership primitives in Dafny

This project models the core of the `speedy_refs` Rust crate: three small state
machines over one heap slot and one integer counter.

- **`HeapCell`** (`src/cell.rs`) is a raw pointer to a heap slot with explicit lifecycle steps.
  - The model gives the slot (`Cell.Slot`) a ghost lifecycle state: `Live`, `Moved`, `Dropped`, `Deallocated`.
  - The preconditions of the unsafe calls are the lifecycle states the slot must be in. The reference-aliasing duties in the source's safety notes are not tracked (see "## Left out").
  - `Clone` copies the pointer, so clones alias one slot. `clone_inner` allocates a new slot.
- **`BorrowFlag`** (`src/cell.rs`) is a bare `isize` counter. Its four updates overwrite the flag without checking it.
  - Its three queries are stated against `BorrowState.AccessOf`, the meaning of a flag value: 0 unborrowed, N > 0 N readers, −1 one writer.
- **`RefCell`** (`src/cell.rs`) is a value next to a flag (`Cell.Inner`).
  - It hands out `Ref` and `RefMut` guards. Their `Drop` moves the flag back.
  - The cell keeps ghost sets of the live guards.
  - Each acquire (`try_borrow`, `borrow`, `try_borrow_mut`, `borrow_mut`) and each guard release ties the flag and the guard counts to one step of the pure machine `BorrowState.Step`.
  - `BorrowState.RunConsistent` proves that every sequence of acquires and releases keeps the flag in {−1, 0, 1}, and that the flag encodes the live guards.
  - Panics (`expect`, `panic!`) are returned as `Fallible.Panic` carrying the source's message.
- **`Rc`** (`src/rc.rs`) and **`Arc`** (`src/arc.rs`) are handles to a shared `Inner` holding a value and a count.
  - Each `Inner` keeps a ghost set of live handles and a ghost count of frees.
  - Each `clone`/`drop` is tied to one step of the pure lifecycle `RefCount.Step`.
  - Each variant's drop is modelled as written: `RcAsWritten` and `ArcAsWritten`.
  - `Intended` is the documented behaviour: decrement, and free when the count reaches zero.
  - The trace lemmas in `RefCount` state what each variant does for every order of clones and drops.

The code is followed where it and its documentation disagree:

- `try_borrow` is documented to fail only while the value is mutably borrowed (`src/cell.rs:409`). The code fails whenever the flag is not 0 (`src/cell.rs:426`), and the doc example at `src/cell.rs:418-422` expects a second shared borrow to fail. So at most one `Ref` is ever alive, and there is no "N shared readers" state above 1.
- `Rc` and `Arc` do not free as documented. See "## Findings".

Each `fetch_add` on `Arc`'s atomic count is modelled as one indivisible sequential step.

## Model

| member | source | states |
|---|---|---|
| `BorrowState.AccessOfFlagOf` | src/cell.rs:168-183 | encoding a well-formed access state as a flag and reading it back gives the same state |
| `BorrowState.FlagOfAccessOf` | src/cell.rs:168-183 | every flag ≥ −1 stands for a well-formed access state that encodes back to the same flag |
| `BorrowState.StepConsistent` | src/cell.rs:424-483 | one acquire attempt or guard release keeps the flag consistent with the live guards |
| `BorrowState.RunConsistent` | src/cell.rs:259-483 | any sequence of acquires and releases keeps the flag consistent: it stays in {−1, 0, 1}, is −1 exactly with a live `RefMut`, 1 with a live `Ref`, 0 with none |
| `BorrowState.ReachableConsistent` | src/cell.rs:385-389 | every state reachable from a new cell has flag −1, 0 or 1 |
| `BorrowState.AcquireSucceedsIffNoGuard` | src/cell.rs:424-483 | `try_borrow` and `try_borrow_mut` succeed iff no guard of either kind is alive; they then leave flag 1 and −1 |
| `BorrowState.ReleaseRestoresUnborrowed` | src/cell.rs:259-322 | releasing a live `Ref` or `RefMut` returns the cell to flag 0 with no guard, from where both acquires succeed |
| `Cell.Slot.constructor` | src/cell.rs:65 | a new heap slot holds the value and is live |
| `Cell.HeapCell.New` | src/cell.rs:63-67 | `new` points to a fresh live slot holding the value |
| `Cell.HeapCell.Clone` | src/cell.rs:42-48 | a clone points to the same slot |
| `Cell.HeapCell.AsMut` | src/cell.rs:80-82 | a write through `as_mut` on a live slot stores the value, and the slot stays live |
| `Cell.HeapCell.AsRef` | src/cell.rs:94-96 | `as_ref` reads the value last stored in the slot, through this pointer or any clone; only a live slot may be read |
| `Cell.HeapCell.Take` | src/cell.rs:115-119 | `take` on a live slot returns its value and leaves the slot moved-out |
| `Cell.HeapCell.Replace` | src/cell.rs:150-153 | `replace` returns the previous bits, stores the new value and leaves the slot live |
| `Cell.HeapCell.CloneInner` | src/cell.rs:138-144 | `clone_inner` allocates a new live slot holding an equal value |
| `Cell.HeapCell.Drop` | src/cell.rs:157-159 | `drop` runs the finalizer of a live value; the memory stays allocated |
| `Cell.HeapCell.Dealloc` | src/cell.rs:163-165 | `dealloc` releases allocated memory; the slot is deallocated afterwards |
| `Cell.HeapCell.DropNDealloc` | src/cell.rs:129-133 | `drop_n_dealloc` on a live slot leaves it deallocated, so no access is allowed afterwards |
| `Cell.HeapCellWalkthrough` | src/cell.rs:18-36 | the documented sequence reads 42, reads 7 after the `as_mut` write, takes 7, then reads 42 after `replace` |
| `Cell.AliasingWalkthrough` | src/cell.rs:42-48 | a write through one cell is read through its clone, while a `clone_inner` copy keeps the old value |
| `Cell.BorrowFlag.New` | src/cell.rs:187-191 | a new flag is 0 |
| `Cell.BorrowFlag.CanBorrow` | src/cell.rs:201-203 | `can_borrow` holds iff the flag stands for a state with no writer |
| `Cell.BorrowFlag.CanBorrowMut` | src/cell.rs:213-215 | `can_borrow_mut` holds iff the flag stands for "unborrowed" |
| `Cell.BorrowFlag.CanOwn` | src/cell.rs:226-228 | `can_own` holds iff the flag stands for "unborrowed", the same as `can_borrow_mut` |
| `Cell.BorrowFlag.Borrow` | src/cell.rs:231-233 | `borrow` adds one to any flag, unchecked |
| `Cell.BorrowFlag.DropBorrow` | src/cell.rs:237-239 | `drop_borrow` subtracts one from any flag, unchecked |
| `Cell.BorrowFlag.BorrowMut` | src/cell.rs:243-245 | `borrow_mut` sets the flag to −1 from any state |
| `Cell.BorrowFlag.DropBorrowMut` | src/cell.rs:248-250 | `drop_borrow_mut` sets the flag to 0 from any state |
| `Cell.BorrowRoundTrip` | src/cell.rs:229-239 | `borrow` then `drop_borrow` restores any flag |
| `Cell.BorrowMutRoundTrip` | src/cell.rs:241-250 | `borrow_mut` then `drop_borrow_mut` restores the flag iff a write was allowed before |
| `Cell.UncheckedBorrowHidesWriter` | src/cell.rs:229-245 | since `borrow` checks nothing, a read begun during a write makes `can_borrow_mut` true again |
| `Cell.Inner.New` | src/cell.rs:513-517 | `Inner::new` stores the value with flag 0 and no guard |
| `Cell.Ref.Drop` | src/cell.rs:259-264 | releasing a live `Ref` subtracts one from the flag, which lands at 0, and removes only that guard |
| `Cell.Ref.Deref` | src/cell.rs:266-272 | reads the cell's value, only through a live `Ref`; such a read happens with flag 1 and no writer |
| `Cell.RefMut.Deref` | src/cell.rs:290-296 | reads the cell's value, only through a live `RefMut`; such a read happens with flag −1 and no reader |
| `Cell.RefMut.Set` | src/cell.rs:304-309 | a write through a live `RefMut` stores the value and leaves the flag and guards alone |
| `Cell.RefMut.Replace` | src/cell.rs:284-288 | `RefMut::replace` returns the previous value and stores the new one |
| `Cell.RefMut.Drop` | src/cell.rs:317-322 | releasing a live `RefMut` sets the flag to 0 and removes only that guard |
| `Cell.RefCell.New` | src/cell.rs:385-389 | a new cell holds the value with flag 0 and no guard |
| `Cell.RefCell.TryBorrow` | src/cell.rs:424-435 | returns a new `Ref` iff the flag was 0, then sets flag 1; otherwise `None` with nothing changed |
| `Cell.RefCell.Borrow` | src/cell.rs:404-407 | panics with the `expect` message exactly when `try_borrow` would return `None` |
| `Cell.RefCell.TryBorrowMut` | src/cell.rs:472-483 | returns a new `RefMut` iff the flag was 0, then sets flag −1; otherwise `None` with nothing changed |
| `Cell.RefCell.BorrowMut` | src/cell.rs:452-455 | panics with the `expect` message exactly when `try_borrow_mut` would return `None` |
| `Cell.RefCell.Take` | src/cell.rs:485-492 | returns the stored value iff the flag is 0, and panics otherwise |
| `Cell.RefCell.Replace` | src/cell.rs:497-499 | with flag 0, returns the old value, stores the new one and leaves flag 0; with any guard alive, panics and changes nothing |
| `Cell.RefCell.Clone` | src/cell.rs:502-506 | a clone is a new cell with an equal value and its own flag 0; the source cell is untouched |
| `Cell.RefCellWalkthrough` | src/cell.rs:346-368 | the documented sequence reads 42, writes 43 through a `RefMut`, and `take` yields 43 |
| `Cell.SecondSharedBorrowRefused` | src/cell.rs:416-422 | a second `try_borrow` while a `Ref` is alive returns `None` |
| `Cell.SecondExclusiveBorrowRefused` | src/cell.rs:464-470 | a second `try_borrow_mut` while a `RefMut` is alive returns `None`, and the write of 13 is read back later |
| `Cell.ConflictWhileShared` | src/cell.rs:452-499 | while a `Ref` is alive, `try_borrow_mut` fails and `borrow_mut` and `replace` panic, and so does `take` on a cell whose guard was leaked with `mem::forget` (Rust rejects `take` while a guard borrows the cell) |
| `Cell.ReplaceWalkthrough` | src/cell.rs:497-499 | `replace(7)` on a cell holding 43 returns 43, and a later read gives 7 |
| `Cell.CloneIsIndependent` | src/cell.rs:502-506 | a clone's borrows and writes do not affect the original cell |
| `RefCount.IntendedLastDropFrees` | src/rc.rs:2-4 | under the documented behaviour a drop frees the allocation iff it drops the last live handle |
| `RefCount.IntendedRunTracks` | src/rc.rs:2-4 | under the documented behaviour any sequence of clones and drops keeps count == live handles and one free exactly when none is left |
| `RefCount.IntendedFreesExactlyOnce` | src/rc.rs:2-4 | from `new`, any order of clones and drops frees at most once, and it frees exactly when no handle is left |
| `RefCount.RcLastDropObservesZero` | src/rc.rs:74-76 | under `Rc::drop` as written, a drop sees count 0 iff it drops the last live handle |
| `RefCount.RcNeverFrees` | src/rc.rs:74-85 | under `Rc::drop` as written, any sequence keeps count == live handles and never frees |
| `RefCount.RcTestDropLeaks` | src/rc.rs:139-160 | the `test_drop` sequence ends with no handle, count 0 and nothing freed; the documented drop would free once |
| `RefCount.ArcSoleDropFrees` | src/arc.rs:38-48 | dropping the only handle of a fresh `Arc` frees it and leaves count 2 |
| `RefCount.ArcCloneDropDropLeaks` | src/arc.rs:38-48 | clone and two drops leave no handle and count 4, with nothing freed; the documented drop would free once |
| `RefCount.ArcNeverFreesTwice` | src/arc.rs:38-48 | under `Arc::drop` as written, no sequence frees twice or frees while a handle is alive, and the count never goes down |
| `RefCount.ArcNoFreeAfterGrowth` | src/arc.rs:79-84 | once the count is past 1, no later drop frees the allocation |
| `RefCount.ArcLeaksOnceCloned` | src/arc.rs:79-84 | an `Arc` that has been cloned is never freed |
| `RcPointer.Inner.New` | src/rc.rs:109-111 | `Inner::new` has count 1 |
| `RcPointer.Inner.Increment` | src/rc.rs:131-133 | `increment` adds one to the count |
| `RcPointer.Inner.Decrement` | src/rc.rs:124-129 | `decrement` subtracts one and returns the new count |
| `RcPointer.Rc.New` | src/rc.rs:55-57 | `Rc::new` makes a fresh `Inner` with count 1, and this handle is its only one |
| `RcPointer.Rc.Clone` | src/rc.rs:46-52 | `clone` adds exactly one to the shared count and returns a new handle to the same `Inner`; count == live handles is kept |
| `RcPointer.Rc.Deref` | src/rc.rs:60-66 | reads the shared value, only through a live handle; that handle is counted (count ≥ 1), so the `Inner` is not freed |
| `RcPointer.Rc.Drop` | src/rc.rs:74-85 | `drop` subtracts one, the count reaches 0 iff this was the last handle, and nothing is ever freed |
| `RcPointer.RcWalkthrough` | src/rc.rs:21-43 | all clones read 42, and the remaining ones still do after a drop |
| `RcPointer.TestDrop` | src/rc.rs:139-160 | dropping clone, clone2 and rc leaves counts 2, 1 and 0, so only the last drop sees 0 |
| `ArcPointer.Inner.New` | src/arc.rs:56-61 | `Inner::new` has count 1 |
| `ArcPointer.Inner.IncrementCount` | src/arc.rs:74-77 | `increment_count` adds one to the count |
| `ArcPointer.Inner.DecrementCount` | src/arc.rs:79-84 | `decrement_count` returns the old count but adds one, against its documented decrement |
| `ArcPointer.Inner.Value` | src/arc.rs:68-71 | `value` gives the stored value |
| `ArcPointer.Arc.New` | src/arc.rs:18-21 | `Arc::new` makes a fresh `Inner` with count 1, and this handle is its only one |
| `ArcPointer.Arc.Clone` | src/arc.rs:5-15 | `clone` adds one to the count and returns a new handle to the same `Inner` |
| `ArcPointer.Arc.Deref` | src/arc.rs:24-30 | reads the stored value, only through a live handle of an `Inner` that has not been freed; the count is then ≥ 1 |
| `ArcPointer.Arc.Drop` | src/arc.rs:38-48 | `drop` frees iff the count was 1, which happens only for the sole handle; a live handle never points to a freed `Inner` |
| `ArcPointer.ArcAliasesAgree` | src/arc.rs:24-30 | all aliases read the stored value, including after another alias is dropped |
| `ArcPointer.ArcSoleDrop` | src/arc.rs:38-48 | dropping the only handle of a fresh `Arc` frees it |
| `ArcPointer.ArcCloneDropDrop` | src/arc.rs:42-46 | after a clone, the two drops leave counts 3 and 4 and free nothing |

## Left out

- Thread interleavings and the memory orderings of `Arc`'s atomics are not modelled. Each `fetch_add` is one sequential step.
- The `Send`/`Sync`/`!Send` marker impls are not modelled: they are compile-time capabilities.
- Allocator details are not modelled: `Box::leak`, `into_raw`, `from_raw`, `ptr::read`, `drop_in_place`, `dealloc` and `Layout`. They are the ghost transitions of a slot's lifecycle state or of an `Inner`'s `frees` counter.
- `into_ptr` of both `Inner`s is part of the `New` constructors. The `as_ref().unwrap()` null checks in `Rc` and `Arc` cannot fail on a pointer made by `new`.
- Cell.BorrowFlag.Borrow: the flag is an unbounded integer, so `isize` overflow of repeated unchecked `borrow` calls is not modelled.
- RcPointer.Inner.Increment: the count is an unbounded integer. `usize` overflow is not modelled; it would need 2^64 live handles.
- ArcPointer.Inner.DecrementCount: the count is an unbounded integer. The `usize` wrap-around after 2^64 `fetch_add`s is not modelled. After such a wrap, a later drop could see 1 and free an `Inner` that other handles still use.
- Cell.RefCell.Take: the move of `self` is not modelled. `take` is a read of the cell. In Rust no guard can be alive when `take` runs, except one leaked with `mem::forget`; the panic path models that case.
- Guard lifetimes are not modelled. Rust lifetimes keep a guard from outliving its cell. Here a guard's liveness is its membership in the cell's ghost guard sets.
- Cell.HeapCell.AsMut: the caller's duty of having no other outstanding reference is not tracked, only the slot's lifecycle state.
- Cell.HeapCell.AsRef: the caller's duty of having no outstanding mutable reference to the value is not tracked, only that the slot is live.
- Cell.HeapCell.Replace: the caller's duty of not calling it while the value is borrowed is not tracked. The model also allows it on a slot moved out by `take`, against the note that the cell is not used after `take`, because the documented example replaces right after a `take`. The bits it then returns duplicate a value the caller already owns; for a non-`Copy` type that double ownership is not flagged. `Dealloc` likewise accepts a moved-out slot.
- The `AsRef`/`AsMut` trait impls of `Ref`, `RefMut`, `Rc` and `Arc` are not modelled separately. They forward to `Deref`/`DerefMut`, which are the `Deref`/`Set` members.
- `SharedCell`, `JavaCell`, `RcCell` (`src/cell.rs`, `src/lib.rs`), `src/borrow.rs`, `src/reon.rs`, `src/hazard.rs` and `src/atomic.rs` are not part of this model. They are wrappers over the standard library, unsynchronised cross-thread code, or unimplemented.
- The benchmarks, demos and printing tests are not part of this model.

## Findings

| source | as written | input that shows it | evidently intended | confidence | as-written member | corrected member |
|---|---|---|---|---|---|---|
| src/rc.rs:74-79 | the zero branch of `Rc::drop` frees nothing, because its `Box::from_raw` is commented out | `new`, `clone`, `clone`, then drop all three (`test_drop`): no handle is left, the count is 0, and the allocation is never freed | the drop that takes the count to 0 frees the allocation, as documented at src/rc.rs:2-4 and 42 | not executed | `RefCount.RcNeverFrees` | `RefCount.IntendedFreesExactlyOnce` |
| src/arc.rs:79-84 | `decrement_count` performs `fetch_add(1)`, so every drop raises the count | `new`, `clone`, drop, drop: the counts are 2, 3, 4, no handle is left, and nothing is freed | `fetch_sub(1)` returning the old count, so exactly the last drop sees 1 and frees | not executed | `RefCount.ArcCloneDropDropLeaks` | `RefCount.IntendedLastDropFrees` |

The classes `RcPointer.Rc` and `ArcPointer.Arc` follow the code as written. The `Intended` variant of `RefCount.Step` is the corrected drop. It is the reference both are measured against, and the lemmas about it prove the documented behaviour: the last drop frees, exactly once.
