/** The cells of `src/cell.rs`: `HeapCell`, a raw heap slot with caller-driven
    lifecycle steps; `BorrowFlag`, an unchecked read/write counter; and
    `RefCell`, a value next to a flag that hands out `Ref` and `RefMut` guards. */
module Cell {
  import opened Wrappers
  import BorrowState

  // ---------------------------------------------------------------------------
  // HeapCell
  // ---------------------------------------------------------------------------

  /** Where a heap slot is in its life. `Moved`: `take` has read the value out
      and the caller owns it; the bits are still in place. `Dropped`: the
      finalizer has run, the memory is still allocated. `Deallocated`: the
      memory is returned to the allocator. */
  datatype SlotState = Live | Moved | Dropped | Deallocated

  /** The heap allocation a `HeapCell` points to. */
  class Slot<T> {
    var val: T
    ghost var state: SlotState

    constructor (v: T)
      ensures val == v && state == Live
    {
      val := v;
      state := Live;
    }
  }

  /** A raw pointer to a heap slot. Copies of the pointer (`Clone`) alias the
      same slot; nothing is checked, every step has a precondition instead. */
  class HeapCell<T> {
    const inner: Slot<T>

    /** `HeapCell::new`: moves the value into a new heap slot. */
    constructor New(v: T)
      ensures fresh(inner) && inner.val == v && inner.state == Live
    {
      inner := new Slot(v);
    }

    /** The struct literal `Self { inner }`. */
    constructor FromPtr(p: Slot<T>)
      ensures inner == p
    {
      inner := p;
    }

    /** `Clone` copies the pointer, not the value. */
    method Clone() returns (c: HeapCell<T>)
      ensures fresh(c) && c.inner == inner
    {
      c := new HeapCell.FromPtr(inner);
    }

    /** A write through the reference `as_mut` returns. */
    method AsMut(x: T)
      requires inner.state == Live
      modifies inner
      ensures inner.val == x && inner.state == Live
    {
      inner.val := x;
    }

    /** A read through the reference `as_ref` returns: the value last stored
        in the slot, through this pointer or any clone of it. */
    function AsRef(): (v: T)
      reads inner
      requires inner.state == Live
      ensures v == inner.val
    {
      inner.val
    }

    /** `take`: reads the value out; the cell must not be used as a live cell
        afterwards. */
    method Take() returns (v: T)
      requires inner.state == Live
      modifies inner
      ensures v == old(inner.val)
      ensures inner.state == Moved && inner.val == old(inner.val)
    {
      v := inner.val;
      inner.state := Moved;
    }

    /** `replace`: swaps `x` into the slot and returns what was there. The slot
        must hold initialised bits: live, or moved out by `take` (the
        documented example replaces right after a `take`). */
    method Replace(x: T) returns (v: T)
      requires inner.state == Live || inner.state == Moved
      modifies inner
      ensures v == old(inner.val)
      ensures inner.val == x && inner.state == Live
    {
      v := inner.val;
      inner.val := x;
      inner.state := Live;
    }

    /** `clone_inner`: a new slot holding a copy of the value. */
    method CloneInner() returns (c: HeapCell<T>)
      requires inner.state == Live
      ensures fresh(c) && fresh(c.inner)
      ensures c.inner.val == inner.val && c.inner.state == Live
    {
      c := new HeapCell.New(inner.val);
    }

    /** `drop`: runs the finalizer in place; the memory stays allocated. */
    method Drop()
      requires inner.state == Live
      modifies inner
      ensures inner.state == Dropped && inner.val == old(inner.val)
    {
      inner.state := Dropped;
    }

    /** `dealloc`: returns the memory without running the finalizer. */
    method Dealloc()
      requires inner.state != Deallocated
      modifies inner
      ensures inner.state == Deallocated && inner.val == old(inner.val)
    {
      inner.state := Deallocated;
    }

    /** `drop_n_dealloc`: finalizer, then memory. No access is possible after. */
    method DropNDealloc()
      requires inner.state == Live
      modifies inner
      ensures inner.state == Deallocated && inner.val == old(inner.val)
    {
      inner.state := Dropped;
      inner.state := Deallocated;
    }
  }

  /** The documented walkthrough of a `HeapCell`: read 42, write 7 through
      `as_mut` and read it back, take 7, replace with 42 and read it, free. */
  method HeapCellWalkthrough() returns (first: int, written: int, taken: int, replaced: int)
    ensures first == 42 && written == 7 && taken == 7 && replaced == 42
  {
    var cell := new HeapCell.New(42);
    first := cell.AsRef();
    cell.AsMut(7);
    written := cell.AsRef();
    taken := cell.Take();
    var _ := cell.Replace(42);
    replaced := cell.AsRef();
    cell.DropNDealloc();
  }

  /** A clone aliases its source: a write through one is read through the
      other. `clone_inner` makes an independent slot that keeps the value it
      copied. */
  method AliasingWalkthrough(v: int, x: int) returns (viaClone: int, viaCopy: int)
    ensures viaClone == x && viaCopy == v
  {
    var cell := new HeapCell.New(v);
    var copy := cell.CloneInner();
    var alias := cell.Clone();
    cell.AsMut(x);
    viaClone := alias.AsRef();
    viaCopy := copy.AsRef();
  }

  // ---------------------------------------------------------------------------
  // BorrowFlag
  // ---------------------------------------------------------------------------

  /** A bare borrow counter. Its queries read the flag; its four updates
      overwrite it without looking at the current state. */
  class BorrowFlag {
    var flag: int

    constructor New()
      ensures flag == 0
    {
      flag := 0;
    }

    /** Reading is possible when the flag describes a state without a writer. */
    function CanBorrow(): (b: bool)
      reads this
      ensures b <==> BorrowState.NoWriter(BorrowState.AccessOf(flag))
    {
      flag >= 0
    }

    /** Writing is possible only when nothing is borrowed. */
    function CanBorrowMut(): (b: bool)
      reads this
      ensures b <==> BorrowState.AccessOf(flag) == Some(BorrowState.Unborrowed)
    {
      flag == 0
    }

    /** Taking ownership has the same condition as writing. */
    function CanOwn(): (b: bool)
      reads this
      ensures b <==> BorrowState.AccessOf(flag) == Some(BorrowState.Unborrowed)
    {
      CanBorrowMut()
    }

    method Borrow()
      modifies this
      ensures flag == old(flag) + 1
    {
      flag := flag + 1;
    }

    method DropBorrow()
      modifies this
      ensures flag == old(flag) - 1
    {
      flag := flag - 1;
    }

    method BorrowMut()
      modifies this
      ensures flag == -1
    {
      flag := -1;
    }

    method DropBorrowMut()
      modifies this
      ensures flag == 0
    {
      flag := 0;
    }
  }

  /** `borrow` followed by `drop_borrow` restores any flag. */
  method BorrowRoundTrip(b: BorrowFlag)
    modifies b
    ensures b.flag == old(b.flag)
  {
    b.Borrow();
    b.DropBorrow();
  }

  /** `borrow_mut` followed by `drop_borrow_mut` restores the flag exactly when
      a write was allowed to begin with. */
  method BorrowMutRoundTrip(b: BorrowFlag)
    modifies b
    ensures b.flag == old(b.flag) <==> old(b.CanBorrowMut())
  {
    b.BorrowMut();
    b.DropBorrowMut();
  }

  /** Since `borrow` does not check for a writer, a read begun during a write
      makes the flag say "unborrowed" while the writer is still active. */
  method UncheckedBorrowHidesWriter() returns (writable: bool)
    ensures writable
  {
    var b := new BorrowFlag.New();
    b.BorrowMut();
    b.Borrow();
    writable := b.CanBorrowMut();
  }

  // ---------------------------------------------------------------------------
  // RefCell
  // ---------------------------------------------------------------------------

  /** The value and flag a `RefCell` keeps in its `UnsafeCell`; guards point
      here. The ghost sets are the guards that are alive. */
  class Inner<T> {
    var val: T
    var flag: int
    ghost var refs: set<Ref<T>>
    ghost var refMuts: set<RefMut<T>>

    /** `Inner::new`: flag 0. */
    constructor New(v: T)
      ensures val == v && flag == 0 && refs == {} && refMuts == {}
    {
      val := v;
      flag := 0;
      refs := {};
      refMuts := {};
    }

    ghost function Counts(): BorrowState.Counts
      reads this
    {
      BorrowState.Counts(flag, |refs|, |refMuts|)
    }

    ghost predicate Valid()
      reads this
    {
      && BorrowState.Consistent(Counts())
      && (forall r :: r in refs ==> r.inner == this)
      && (forall m :: m in refMuts ==> m.inner == this)
    }
  }

  /** A shared guard. */
  class Ref<T> {
    const inner: Inner<T>

    constructor Of(i: Inner<T>)
      ensures inner == i
    {
      inner := i;
    }

    /** `Deref`: the stored value, while the guard is alive. A read through a
        live `Ref` happens only with flag 1 and no writer. */
    function Deref(): (v: T)
      reads inner
      requires this in inner.refs
      ensures v == inner.val
      ensures inner.Valid() ==> inner.flag == 1 && inner.refMuts == {}
    {
      inner.val
    }

    /** Releasing a `Ref` subtracts one from the flag. */
    method Drop()
      requires inner.Valid() && this in inner.refs
      modifies inner
      ensures inner.Valid()
      ensures inner.Counts() == BorrowState.Step(old(inner.Counts()), BorrowState.DropRef)
      ensures inner.flag == old(inner.flag) - 1 && inner.flag == 0
      ensures inner.refs == old(inner.refs) - {this}
      ensures inner.refMuts == old(inner.refMuts) && inner.val == old(inner.val)
    {
      inner.flag := inner.flag - 1;
      inner.refs := inner.refs - {this};
    }
  }

  /** An exclusive guard. */
  class RefMut<T> {
    const inner: Inner<T>

    constructor Of(i: Inner<T>)
      ensures inner == i
    {
      inner := i;
    }

    /** `Deref`: the stored value, while the guard is alive. A read through a
        live `RefMut` happens only with flag -1 and no reader. */
    function Deref(): (v: T)
      reads inner
      requires this in inner.refMuts
      ensures v == inner.val
      ensures inner.Valid() ==> inner.flag == -1 && inner.refs == {}
    {
      inner.val
    }

    /** A write through `DerefMut`. */
    method Set(x: T)
      requires this in inner.refMuts
      modifies inner
      ensures inner.val == x
      ensures inner.flag == old(inner.flag) && inner.refs == old(inner.refs) && inner.refMuts == old(inner.refMuts)
    {
      inner.val := x;
    }

    /** `RefMut::replace`: stores `x` and returns the previous value. */
    method Replace(x: T) returns (previous: T)
      requires this in inner.refMuts
      modifies inner
      ensures previous == old(inner.val) && inner.val == x
      ensures inner.flag == old(inner.flag) && inner.refs == old(inner.refs) && inner.refMuts == old(inner.refMuts)
    {
      previous := inner.val;
      inner.val := x;
    }

    /** Releasing a `RefMut` stores 0 in the flag. */
    method Drop()
      requires inner.Valid() && this in inner.refMuts
      modifies inner
      ensures inner.Valid()
      ensures inner.Counts() == BorrowState.Step(old(inner.Counts()), BorrowState.DropRefMut)
      ensures inner.flag == 0
      ensures inner.refMuts == old(inner.refMuts) - {this}
      ensures inner.refs == old(inner.refs) && inner.val == old(inner.val)
    {
      inner.flag := 0;
      inner.refMuts := inner.refMuts - {this};
    }
  }

  const BorrowPanic := "T cannot be borrowed immutably while T is borrowed mutably"
  const BorrowMutPanic := "T cannot be borrowed mutably while T is borrowed mutably or immutably"
  const TakePanic := "T cannot be moved while T is borrowed mutably or immutably"

  /** A value with a runtime-checked borrow flag. */
  class RefCell<T> {
    const inner: Inner<T>

    /** `RefCell::new`: the value, flag 0, no guard. */
    constructor New(v: T)
      ensures fresh(inner) && inner.Valid()
      ensures inner.val == v && inner.Counts() == BorrowState.Fresh()
    {
      inner := new Inner.New(v);
    }

    /** `try_borrow`: a shared guard exactly when the flag is 0, which it then
        raises to 1; otherwise `None` and nothing changes. */
    method TryBorrow() returns (r: Option<Ref<T>>)
      requires inner.Valid()
      modifies inner
      ensures inner.Valid() && inner.val == old(inner.val)
      ensures inner.Counts() == BorrowState.Step(old(inner.Counts()), BorrowState.TryBorrow)
      ensures r.Some? <==> old(inner.flag) == 0
      ensures r.Some? ==> fresh(r.value) && r.value.inner == inner && inner.flag == 1
      ensures r.Some? ==> inner.refs == old(inner.refs) + {r.value}
      ensures r.None? ==> inner.refs == old(inner.refs) && inner.flag == old(inner.flag)
      ensures inner.refMuts == old(inner.refMuts)
    {
      if inner.flag == 0 {
        inner.flag := inner.flag + 1;
        var g := new Ref.Of(inner);
        inner.refs := inner.refs + {g};
        r := Some(g);
      } else {
        r := None;
      }
    }

    /** `borrow`: `try_borrow`, panicking where it returns `None`. */
    method Borrow() returns (r: Fallible<Ref<T>>)
      requires inner.Valid()
      modifies inner
      ensures inner.Valid() && inner.val == old(inner.val)
      ensures inner.Counts() == BorrowState.Step(old(inner.Counts()), BorrowState.TryBorrow)
      ensures r.Done? <==> old(inner.flag) == 0
      ensures r.Done? ==> fresh(r.value) && r.value.inner == inner && inner.refs == old(inner.refs) + {r.value}
      ensures r.Panic? ==> r.message == BorrowPanic && inner.refs == old(inner.refs)
      ensures inner.refMuts == old(inner.refMuts)
    {
      var t := TryBorrow();
      if t.Some? {
        r := Done(t.value);
      } else {
        r := Panic(BorrowPanic);
      }
    }

    /** `try_borrow_mut`: an exclusive guard exactly when the flag is 0, which
        it then sets to -1; otherwise `None` and nothing changes. */
    method TryBorrowMut() returns (r: Option<RefMut<T>>)
      requires inner.Valid()
      modifies inner
      ensures inner.Valid() && inner.val == old(inner.val)
      ensures inner.Counts() == BorrowState.Step(old(inner.Counts()), BorrowState.TryBorrowMut)
      ensures r.Some? <==> old(inner.flag) == 0
      ensures r.Some? ==> fresh(r.value) && r.value.inner == inner && inner.flag == -1
      ensures r.Some? ==> inner.refMuts == old(inner.refMuts) + {r.value}
      ensures r.None? ==> inner.refMuts == old(inner.refMuts) && inner.flag == old(inner.flag)
      ensures inner.refs == old(inner.refs)
    {
      if inner.flag == 0 {
        inner.flag := -1;
        var g := new RefMut.Of(inner);
        inner.refMuts := inner.refMuts + {g};
        r := Some(g);
      } else {
        r := None;
      }
    }

    /** `borrow_mut`: `try_borrow_mut`, panicking where it returns `None`. */
    method BorrowMut() returns (r: Fallible<RefMut<T>>)
      requires inner.Valid()
      modifies inner
      ensures inner.Valid() && inner.val == old(inner.val)
      ensures inner.Counts() == BorrowState.Step(old(inner.Counts()), BorrowState.TryBorrowMut)
      ensures r.Done? <==> old(inner.flag) == 0
      ensures r.Done? ==> fresh(r.value) && r.value.inner == inner && inner.refMuts == old(inner.refMuts) + {r.value}
      ensures r.Panic? ==> r.message == BorrowMutPanic && inner.refMuts == old(inner.refMuts)
      ensures inner.refs == old(inner.refs)
    {
      var t := TryBorrowMut();
      if t.Some? {
        r := Done(t.value);
      } else {
        r := Panic(BorrowMutPanic);
      }
    }

    /** `take`: the stored value when no guard is recorded, a panic otherwise. */
    function Take(): (r: Fallible<T>)
      reads inner
      ensures r.Done? <==> inner.flag == 0
      ensures r.Done? ==> r.value == inner.val
      ensures r.Panic? ==> r.message == TakePanic
    {
      if inner.flag == 0 then Done(inner.val) else Panic(TakePanic)
    }

    /** `replace`: through `borrow_mut`, so it panics while any guard is alive;
        otherwise it returns the old value, stores the new one, and the guard's
        release leaves the flag back at 0. */
    method Replace(x: T) returns (r: Fallible<T>)
      requires inner.Valid()
      modifies inner
      ensures inner.Valid()
      ensures r.Done? <==> old(inner.flag) == 0
      ensures r.Done? ==> r.value == old(inner.val) && inner.val == x
      ensures r.Panic? ==> r.message == BorrowMutPanic && inner.val == old(inner.val)
      ensures inner.flag == old(inner.flag)
      ensures inner.refs == old(inner.refs) && inner.refMuts == old(inner.refMuts)
    {
      var g := BorrowMut();
      if g.Panic? {
        r := Panic(g.message);
      } else {
        var previous := g.value.Replace(x);
        g.value.Drop();
        r := Done(previous);
      }
    }

    /** `Clone`: a new cell with a copy of the value and a fresh flag 0; the
        source cell, its flag and its guards are untouched. */
    method Clone() returns (c: RefCell<T>)
      ensures fresh(c) && fresh(c.inner) && c.inner.Valid()
      ensures c.inner.val == inner.val && c.inner.Counts() == BorrowState.Fresh()
    {
      c := new RefCell.New(inner.val);
    }
  }

  /** The `RefCell` walkthrough: read 42 through a shared guard, release it,
      add one through an exclusive guard, release it, take 43. */
  method RefCellWalkthrough() returns (read: int, written: int, taken: Fallible<int>)
    ensures read == 42 && written == 43 && taken == Done(43)
  {
    var x := new RefCell.New(42);
    var y := x.Borrow();
    read := y.value.Deref();
    y.value.Drop();
    var z := x.BorrowMut();
    z.value.Set(z.value.Deref() + 1);
    written := z.value.Deref();
    z.value.Drop();
    taken := x.Take();
  }

  /** While one shared guard is alive a second `try_borrow` returns `None`. */
  method SecondSharedBorrowRefused() returns (read: int, second: Option<Ref<int>>)
    ensures read == 42 && second.None?
  {
    var cell := new RefCell.New(42);
    var first := cell.TryBorrow();
    read := first.value.Deref();
    second := cell.TryBorrow();
  }

  /** While an exclusive guard is alive a second `try_borrow_mut` returns
      `None`; after a write of 13 through the first, a later read sees 13. */
  method SecondExclusiveBorrowRefused() returns (second: Option<RefMut<int>>, read: int)
    ensures second.None? && read == 13
  {
    var cell := new RefCell.New(42);
    var first := cell.TryBorrowMut();
    first.value.Set(13);
    second := cell.TryBorrowMut();
    first.value.Drop();
    var r := cell.Borrow();
    read := r.value.Deref();
  }

  /** While a shared guard is alive, the exclusive acquire is refused and the
      forcing form and `replace` panic. In Rust, `take` moves the cell, so it
      cannot be called while a guard borrows it; its panic happens only when
      the guard has been leaked with `mem::forget`, which is the state here,
      since the model's `Take` does not move the cell. */
  method ConflictWhileShared() returns (tried: bool, forced: Fallible<RefMut<int>>,
                                        replaced: Fallible<int>, taken: Fallible<int>)
    ensures !tried && forced == Panic(BorrowMutPanic)
    ensures replaced == Panic(BorrowMutPanic) && taken == Panic(TakePanic)
  {
    var cell := new RefCell.New(42);
    var guard := cell.Borrow();
    var t := cell.TryBorrowMut();
    tried := t.Some?;
    forced := cell.BorrowMut();
    replaced := cell.Replace(7);
    taken := cell.Take();
  }

  /** `replace(7)` on a cell holding 43 returns 43, and a later read sees 7. */
  method ReplaceWalkthrough() returns (previous: Fallible<int>, read: int)
    ensures previous == Done(43) && read == 7
  {
    var cell := new RefCell.New(43);
    previous := cell.Replace(7);
    var r := cell.Borrow();
    read := r.value.Deref();
  }

  /** A clone keeps its own flag: borrowing the clone exclusively leaves the
      original free to borrow, and a write to the clone is not seen by it. */
  method CloneIsIndependent() returns (original: int, cloned: int)
    ensures original == 42 && cloned == 7
  {
    var cell := new RefCell.New(42);
    var copy := cell.Clone();
    var w := copy.BorrowMut();
    w.value.Set(7);
    cloned := w.value.Deref();
    var r := cell.Borrow();
    original := r.value.Deref();
  }
}
