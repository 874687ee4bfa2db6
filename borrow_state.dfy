/** The runtime borrow state of a `RefCell`: the `isize` flag stored next to the
    value, and what that flag means in terms of live guards. */
module BorrowState {
  import opened Wrappers

  /** What a flag value stands for: 0 no borrow, N > 0 N shared readers,
      -1 one exclusive writer. Any other value stands for nothing. */
  datatype Access = Unborrowed | Shared(readers: nat) | Exclusive

  function AccessOf(flag: int): Option<Access> {
    if flag == 0 then Some(Unborrowed)
    else if flag > 0 then Some(Shared(flag))
    else if flag == -1 then Some(Exclusive)
    else None
  }

  function FlagOf(a: Access): int {
    match a
    case Unborrowed => 0
    case Shared(n) => n
    case Exclusive => -1
  }

  /** An access a flag can encode: a shared state has at least one reader. */
  predicate WellFormed(a: Access) {
    a.Shared? ==> a.readers > 0
  }

  /** A valid state with no writer: the value may be read. */
  predicate NoWriter(a: Option<Access>) {
    a.Some? && !a.value.Exclusive?
  }

  lemma AccessOfFlagOf(a: Access)
    requires WellFormed(a)
    ensures AccessOf(FlagOf(a)) == Some(a)
  {
  }

  lemma FlagOfAccessOf(flag: int)
    requires flag >= -1
    ensures AccessOf(flag).Some? && WellFormed(AccessOf(flag).value)
    ensures FlagOf(AccessOf(flag).value) == flag
  {
  }

  /** The flag of a cell together with the number of live `Ref` and `RefMut`
      guards pointing at it. */
  datatype Counts = Counts(flag: int, refs: nat, refMuts: nat)

  /** `Inner::new`: flag 0 and no guard. */
  function Fresh(): Counts {
    Counts(0, 0, 0)
  }

  /** The operations that move the flag: the two acquire attempts and the
      release of a live guard of each kind. */
  datatype Op = TryBorrow | TryBorrowMut | DropRef | DropRefMut

  /** One operation as the source performs it. An acquire succeeds only on
      flag 0; releasing a `Ref` subtracts one, releasing a `RefMut` stores 0.
      Releasing a guard that is not alive is not an operation anyone can
      perform, so it leaves the state alone. */
  function Step(c: Counts, op: Op): Counts {
    match op
    case TryBorrow =>
      if c.flag == 0 then c.(flag := c.flag + 1, refs := c.refs + 1) else c
    case TryBorrowMut =>
      if c.flag == 0 then c.(flag := -1, refMuts := c.refMuts + 1) else c
    case DropRef =>
      if c.refs > 0 then c.(flag := c.flag - 1, refs := c.refs - 1) else c
    case DropRefMut =>
      if c.refMuts > 0 then c.(flag := 0, refMuts := c.refMuts - 1) else c
  }

  function Run(c: Counts, ops: seq<Op>): Counts
    decreases |ops|
  {
    if ops == [] then c else Run(Step(c, ops[0]), ops[1..])
  }

  /** The states the cell can be in: either no writer and the flag counts the
      readers, of which there is at most one, or exactly one writer and flag -1. */
  ghost predicate Consistent(c: Counts) {
    || (c.refMuts == 0 && c.flag == c.refs && c.refs <= 1)
    || (c.refMuts == 1 && c.refs == 0 && c.flag == -1)
  }

  lemma StepConsistent(c: Counts, op: Op)
    requires Consistent(c)
    ensures Consistent(Step(c, op))
  {
  }

  /** Whatever sequence of acquires and releases is run from a consistent
      state, the state stays consistent, and so the flag stays in {-1, 0, 1}
      and encodes the live guards. */
  lemma {:induction false} RunConsistent(c: Counts, ops: seq<Op>)
    requires Consistent(c)
    ensures Consistent(Run(c, ops))
    ensures -1 <= Run(c, ops).flag <= 1
    ensures AccessOf(Run(c, ops).flag) ==
            if Run(c, ops).refMuts > 0 then Some(Exclusive)
            else if Run(c, ops).refs > 0 then Some(Shared(1))
            else Some(Unborrowed)
    decreases |ops|
  {
    if ops == [] {
    } else {
      StepConsistent(c, ops[0]);
      RunConsistent(Step(c, ops[0]), ops[1..]);
    }
  }

  /** Every state reachable from a new cell is consistent. */
  lemma {:induction false} ReachableConsistent(ops: seq<Op>)
    ensures Consistent(Run(Fresh(), ops))
    ensures -1 <= Run(Fresh(), ops).flag <= 1
  {
    RunConsistent(Fresh(), ops);
  }

  /** A shared acquire succeeds exactly when no guard of either kind is alive,
      and it then leaves flag 1; an exclusive acquire succeeds under the same
      condition and leaves flag -1. */
  lemma AcquireSucceedsIffNoGuard(c: Counts)
    requires Consistent(c)
    ensures Step(c, TryBorrow).refs > c.refs <==> (c.refs == 0 && c.refMuts == 0)
    ensures Step(c, TryBorrow).refs > c.refs ==> Step(c, TryBorrow).flag == 1
    ensures Step(c, TryBorrowMut).refMuts > c.refMuts <==> (c.refs == 0 && c.refMuts == 0)
    ensures Step(c, TryBorrowMut).refMuts > c.refMuts ==> Step(c, TryBorrowMut).flag == -1
  {
  }

  /** Releasing a live guard returns the cell to flag 0 with no guard left,
      from where both acquires succeed again. */
  lemma ReleaseRestoresUnborrowed(c: Counts, op: Op)
    requires Consistent(c)
    requires (op == DropRef && c.refs > 0) || (op == DropRefMut && c.refMuts > 0)
    ensures Step(c, op) == Fresh()
  {
  }
}
