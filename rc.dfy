/** `src/rc.rs`: a single-threaded reference-counted pointer. Every `Rc` is a
    pointer to one shared `Inner` holding the value and a plain `usize` count. */
module RcPointer {
  import RefCount

  /** The shared allocation. The ghost set holds the handles that are alive;
      `frees` counts how often the allocation has been freed. */
  class Inner<T> {
    const value: T
    var count: nat
    ghost var handles: set<Rc<T>>
    ghost var frees: nat

    /** `Inner::new`: count 1. */
    constructor New(v: T)
      ensures value == v && count == 1 && handles == {} && frees == 0
    {
      value := v;
      count := 1;
      handles := {};
      frees := 0;
    }

    ghost function Life(): RefCount.Life
      reads this
    {
      RefCount.Life(count, |handles|, frees)
    }

    /** What `Rc` as written keeps: the count is the number of live handles,
        and the allocation is never freed. */
    ghost predicate Valid()
      reads this
    {
      && RefCount.RcTracks(Life())
      && (forall h :: h in handles ==> h.inner == this)
    }

    method Increment()
      modifies this
      ensures count == old(count) + 1
      ensures handles == old(handles) && frees == old(frees)
    {
      count := count + 1;
    }

    /** `decrement`: subtracts one and returns the new count. */
    method Decrement() returns (c: nat)
      requires count >= 1
      modifies this
      ensures count == old(count) - 1 && c == count
      ensures handles == old(handles) && frees == old(frees)
    {
      count := count - 1;
      c := count;
    }
  }

  /** A handle to a shared `Inner`. */
  class Rc<T> {
    const inner: Inner<T>

    /** `Rc::new`: a new `Inner` with count 1, of which this is the only handle. */
    constructor New(v: T)
      ensures fresh(inner) && inner.Valid()
      ensures inner.value == v && inner.handles == {this}
      ensures inner.Life() == RefCount.New()
    {
      inner := new Inner.New(v);
      new;
      inner.handles := {this};
    }

    /** The tuple-struct literal `Self(ptr)`. */
    constructor FromPtr(p: Inner<T>)
      ensures inner == p
    {
      inner := p;
    }

    /** `clone`: one more on the shared count and a new handle to the same
        `Inner`; nothing else changes. */
    method Clone() returns (c: Rc<T>)
      requires inner.Valid() && this in inner.handles
      modifies inner
      ensures fresh(c) && c.inner == inner && inner.Valid()
      ensures inner.Life() == RefCount.Step(RefCount.RcAsWritten, old(inner.Life()), RefCount.Clone)
      ensures inner.count == old(inner.count) + 1
      ensures inner.handles == old(inner.handles) + {c}
      ensures inner.frees == old(inner.frees)
    {
      inner.Increment();
      c := new Rc.FromPtr(inner);
      inner.handles := inner.handles + {c};
    }

    /** `Deref`: the shared value, through a live handle. The handle is
        counted, so the allocation it reads is not freed. */
    function Deref(): (v: T)
      reads inner
      requires this in inner.handles
      ensures v == inner.value
      ensures inner.Valid() ==> inner.count >= 1 && inner.frees == 0
    {
      inner.value
    }

    /** `drop`: one less on the count. The drop of the last handle sees 0, and
        even then nothing is freed, since the free is commented out. */
    method Drop()
      requires inner.Valid() && this in inner.handles
      modifies inner
      ensures inner.Valid()
      ensures inner.Life() == RefCount.Step(RefCount.RcAsWritten, old(inner.Life()), RefCount.Drop)
      ensures inner.count == old(inner.count) - 1
      ensures inner.count == 0 <==> old(inner.handles) == {this}
      ensures inner.handles == old(inner.handles) - {this}
      ensures inner.frees == 0
    {
      var c := inner.Decrement();
      inner.handles := inner.handles - {this};
      // When `c` is 0 the source would free the `Inner`; that line is
      // commented out, so neither branch does anything.
    }
  }

  /** The documented walkthrough: two clones of 42 all read 42, and after one
      is dropped the others still do. */
  method RcWalkthrough() returns (a: int, b: int, c: int, afterDrop: int, otherAfterDrop: int)
    ensures a == 42 && b == 42 && c == 42 && afterDrop == 42 && otherAfterDrop == 42
  {
    var value := new Rc.New(42);
    var reference1 := value.Clone();
    var reference2 := value.Clone();
    a, b, c := value.Deref(), reference1.Deref(), reference2.Deref();
    reference1.Drop();
    afterDrop, otherAfterDrop := value.Deref(), reference2.Deref();
    reference2.Drop();
  }

  /** `test_drop`: `new`, two clones, then drop clone, clone2 and rc. The
      counts seen are 2, 1, 0, so exactly the last drop sees 0, and the
      allocation is still not freed afterwards. */
  method TestDrop() returns (afterClone: nat, afterClone2: nat, afterRc: nat, ghost frees: nat)
    ensures afterClone == 2 && afterClone2 == 1 && afterRc == 0
    ensures frees == 0
  {
    var rc := new Rc.New(0);
    var clone := rc.Clone();
    var clone2 := rc.Clone();
    clone.Drop();
    afterClone := rc.inner.count;
    clone2.Drop();
    afterClone2 := rc.inner.count;
    rc.Drop();
    afterRc := rc.inner.count;
    frees := rc.inner.frees;
  }
}
