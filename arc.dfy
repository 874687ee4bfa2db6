/** `src/arc.rs`: a reference-counted pointer with an atomic count. Every `Arc`
    points to one shared `Inner` holding the value and an `AtomicUsize` count.
    Each `fetch_add` is one indivisible step here; threads are not modelled. */
module ArcPointer {
  import RefCount

  /** The shared allocation. The ghost set holds the handles that are alive;
      `frees` counts how often `drop` has freed the allocation. */
  class Inner<T> {
    const ptr: T
    var count: nat
    ghost var handles: set<Arc<T>>
    ghost var frees: nat

    /** `Inner::new`: count 1. */
    constructor New(data: T)
      ensures ptr == data && count == 1 && handles == {} && frees == 0
    {
      ptr := data;
      count := 1;
      handles := {};
      frees := 0;
    }

    ghost function Life(): RefCount.Life
      reads this
    {
      RefCount.Life(count, |handles|, frees)
    }

    /** What `Arc` as written keeps: the count is at least the number of live
        handles, and the allocation is freed at most once, with no handle
        left. It does not keep count == live handles. */
    ghost predicate Valid()
      reads this
    {
      && RefCount.ArcSafe(Life())
      && (forall h :: h in handles ==> h.inner == this)
    }

    /** `value`: the stored value. */
    function Value(): (v: T)
      ensures v == ptr
    {
      ptr
    }

    /** `increment_count`: `fetch_add(1)`. */
    method IncrementCount()
      modifies this
      ensures count == old(count) + 1
      ensures handles == old(handles) && frees == old(frees)
    {
      count := count + 1;
    }

    /** `decrement_count`, documented to lower the count by one and return the
        old value. The body is `fetch_add(1)`: it returns the old value and
        raises the count by one. */
    method DecrementCount() returns (previous: nat)
      modifies this
      ensures previous == old(count)
      ensures count == old(count) + 1
      ensures handles == old(handles) && frees == old(frees)
    {
      previous := count;
      count := count + 1;
    }
  }

  /** A handle to a shared `Inner`. */
  class Arc<T> {
    const inner: Inner<T>

    /** `Arc::new`: a new `Inner` with count 1, of which this is the only handle. */
    constructor New(data: T)
      ensures fresh(inner) && inner.Valid()
      ensures inner.ptr == data && inner.handles == {this}
      ensures inner.Life() == RefCount.New()
    {
      inner := new Inner.New(data);
      new;
      inner.handles := {this};
    }

    /** The struct literal `Self { inner }`. */
    constructor FromPtr(p: Inner<T>)
      ensures inner == p
    {
      inner := p;
    }

    /** `clone`: one more on the count and a new handle to the same `Inner`. */
    method Clone() returns (c: Arc<T>)
      requires inner.Valid() && this in inner.handles
      modifies inner
      ensures fresh(c) && c.inner == inner && inner.Valid()
      ensures inner.Life() == RefCount.Step(RefCount.ArcAsWritten, old(inner.Life()), RefCount.Clone)
      ensures inner.count == old(inner.count) + 1
      ensures inner.handles == old(inner.handles) + {c}
      ensures inner.frees == old(inner.frees)
    {
      inner.IncrementCount();
      c := new Arc.FromPtr(inner);
      inner.handles := inner.handles + {c};
    }

    /** `Deref`: the shared value, through a live handle of an allocation that
        has not been freed. */
    function Deref(): (v: T)
      reads inner
      requires this in inner.handles && inner.frees == 0
      ensures v == inner.ptr
      ensures inner.Valid() ==> inner.count >= 1
    {
      inner.Value()
    }

    /** `drop`: frees the `Inner` exactly when `decrement_count` returns 1,
        that is when the count was still 1. A live handle is never left
        pointing at a freed `Inner`. */
    method Drop()
      requires inner.Valid() && this in inner.handles
      modifies inner
      ensures inner.Valid()
      ensures inner.Life() == RefCount.Step(RefCount.ArcAsWritten, old(inner.Life()), RefCount.Drop)
      ensures inner.count == old(inner.count) + 1
      ensures inner.handles == old(inner.handles) - {this}
      ensures inner.frees == (if old(inner.count) == 1 then 1 else 0)
      ensures inner.frees == 1 ==> old(inner.handles) == {this}
    {
      var newCount := inner.DecrementCount();
      inner.handles := inner.handles - {this};
      if newCount == 1 {
        // `Box::from_raw` takes the `Inner` back and drops it.
        inner.frees := inner.frees + 1;
      }
    }
  }

  /** Every alias reads the same value while the `Inner` is live. */
  method ArcAliasesAgree(v: int) returns (original: int, alias: int, aliasAfterDrop: int)
    ensures original == v && alias == v && aliasAfterDrop == v
  {
    var a := new Arc.New(v);
    var b := a.Clone();
    original, alias := a.Deref(), b.Deref();
    a.Drop();
    aliasAfterDrop := b.Deref();
  }

  /** Dropping the only handle of a fresh `Arc` frees it, and the count it
      leaves behind is 2. */
  method ArcSoleDrop() returns (count: nat, ghost frees: nat)
    ensures count == 2 && frees == 1
  {
    var a := new Arc.New(42);
    a.Drop();
    count := a.inner.count;
    frees := a.inner.frees;
  }

  /** The counterexample trace to "exactly one drop frees the allocation":
      clone, then drop both handles. The counts left are 3 and 4, and neither
      drop frees. */
  method ArcCloneDropDrop() returns (afterFirst: nat, afterSecond: nat, ghost frees: nat)
    ensures afterFirst == 3 && afterSecond == 4 && frees == 0
  {
    var a := new Arc.New(42);
    var b := a.Clone();
    a.Drop();
    afterFirst := a.inner.count;
    b.Drop();
    afterSecond := a.inner.count;
    frees := a.inner.frees;
  }
}
