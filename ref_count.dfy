/** The lifecycle of one reference-counted allocation, shared by `Rc` and `Arc`:
    the stored count, the number of live handles and how many times the
    allocation has been freed. Three drop behaviours are compared: `Rc::drop`
    as written, `Arc::drop` as written, and the intended one (decrement, free
    when the count reaches zero). */
module RefCount {

  datatype Life = Life(count: int, live: nat, frees: nat)

  datatype Variant = RcAsWritten | ArcAsWritten | Intended

  /** What a live handle can do: make another handle, or go away. */
  datatype Event = Clone | Drop

  /** `new`: count 1, one handle, nothing freed. */
  function New(): Life {
    Life(1, 1, 0)
  }

  /** `Rc::drop`: the count goes down by one and the free in the zero branch is
      commented out. */
  function RcDrop(s: Life): Life
    requires s.live > 0
  {
    s.(count := s.count - 1, live := s.live - 1)
  }

  /** `Arc::drop`: `decrement_count` is a `fetch_add(1)` that returns the old
      count, and the allocation is freed when that old count is 1. */
  function ArcDrop(s: Life): Life
    requires s.live > 0
  {
    s.(count := s.count + 1, live := s.live - 1,
       frees := if s.count == 1 then s.frees + 1 else s.frees)
  }

  /** The documented drop: subtract one, free when the new count is zero. */
  function IntendedDrop(s: Life): Life
    requires s.live > 0
  {
    s.(count := s.count - 1, live := s.live - 1,
       frees := if s.count - 1 == 0 then s.frees + 1 else s.frees)
  }

  /** One event. With no live handle there is nothing to clone or drop. */
  function Step(v: Variant, s: Life, e: Event): Life {
    if s.live == 0 then s
    else match e
      case Clone => s.(count := s.count + 1, live := s.live + 1)
      case Drop =>
        match v
        case RcAsWritten => RcDrop(s)
        case ArcAsWritten => ArcDrop(s)
        case Intended => IntendedDrop(s)
  }

  function Run(v: Variant, s: Life, es: seq<Event>): Life
    decreases |es|
  {
    if es == [] then s else Run(v, Step(v, s, es[0]), es[1..])
  }

  // ---------------------------------------------------------------------------
  // The intended behaviour
  // ---------------------------------------------------------------------------

  /** The intended invariant: the count is the number of live handles, and the
      allocation has been freed once if no handle is left, never otherwise. */
  ghost predicate Tracks(s: Life) {
    s.count == s.live && s.frees == (if s.live == 0 then 1 else 0)
  }

  /** A drop frees the allocation exactly when it drops the last live handle. */
  lemma IntendedLastDropFrees(s: Life)
    requires Tracks(s) && s.live > 0
    ensures Step(Intended, s, Drop).frees > s.frees <==> s.live == 1
    ensures Tracks(Step(Intended, s, Drop))
  {
  }

  lemma {:induction false} IntendedRunTracks(s: Life, es: seq<Event>)
    requires Tracks(s)
    ensures Tracks(Run(Intended, s, es))
    decreases |es|
  {
    if es != [] {
      assert Tracks(Step(Intended, s, es[0]));
      IntendedRunTracks(Step(Intended, s, es[0]), es[1..]);
    }
  }

  /** For any order of clones and drops after `new`, the count equals the live
      handles, the allocation is never freed twice, and it has been freed once
      exactly when no handle is left. */
  lemma {:induction false} IntendedFreesExactlyOnce(es: seq<Event>)
    ensures Run(Intended, New(), es).count == Run(Intended, New(), es).live
    ensures Run(Intended, New(), es).frees <= 1
    ensures Run(Intended, New(), es).frees == 1 <==> Run(Intended, New(), es).live == 0
  {
    IntendedRunTracks(New(), es);
  }

  // ---------------------------------------------------------------------------
  // Rc as written
  // ---------------------------------------------------------------------------

  /** `Rc`'s invariant as written: the count is the number of live handles and
      nothing is ever freed. */
  ghost predicate RcTracks(s: Life) {
    s.count == s.live && s.frees == 0
  }

  /** Exactly the drop of the last live handle sees the count reach 0. */
  lemma RcLastDropObservesZero(s: Life)
    requires RcTracks(s) && s.live > 0
    ensures Step(RcAsWritten, s, Drop).count == 0 <==> s.live == 1
  {
  }

  /** Whatever the order of clones and drops, the count tracks the live
      handles and the allocation is never freed, not even after the last
      handle is gone. */
  lemma {:induction false} RcNeverFrees(s: Life, es: seq<Event>)
    requires RcTracks(s)
    ensures RcTracks(Run(RcAsWritten, s, es))
    ensures Run(RcAsWritten, s, es).frees == 0
    decreases |es|
  {
    if es != [] {
      assert RcTracks(Step(RcAsWritten, s, es[0]));
      RcNeverFrees(Step(RcAsWritten, s, es[0]), es[1..]);
    }
  }

  /** The sequence of `test_drop`: `new`, two clones, three drops. Every handle
      is gone, the count is 0, and the allocation was not freed; the intended
      drop frees it once. */
  lemma RcTestDropLeaks()
    ensures Run(RcAsWritten, New(), [Clone, Clone, Drop, Drop, Drop]) == Life(0, 0, 0)
    ensures Run(Intended, New(), [Clone, Clone, Drop, Drop, Drop]) == Life(0, 0, 1)
  {
  }

  // ---------------------------------------------------------------------------
  // Arc as written
  // ---------------------------------------------------------------------------

  /** What `Arc` as written keeps: at least as much count as live handles, and
      at most one free, which leaves no live handle behind. */
  ghost predicate ArcSafe(s: Life) {
    s.live <= s.count && s.frees <= 1 && (s.frees == 1 ==> s.live == 0)
  }

  /** Dropping the sole handle of a fresh `Arc` frees it: `fetch_add` returns 1. */
  lemma ArcSoleDropFrees()
    ensures Run(ArcAsWritten, New(), [Drop]) == Life(2, 0, 1)
  {
  }

  /** The counterexample to the intended behaviour: after one clone and two
      drops no handle is left, the count has grown to 4, and nothing was freed;
      the intended drop frees once. */
  lemma ArcCloneDropDropLeaks()
    ensures Run(ArcAsWritten, New(), [Clone, Drop, Drop]) == Life(4, 0, 0)
    ensures Run(Intended, New(), [Clone, Drop, Drop]) == Life(0, 0, 1)
  {
  }

  /** No order of clones and drops frees the allocation twice or frees it
      while a handle is alive, and the count never goes down. */
  lemma {:induction false} ArcNeverFreesTwice(s: Life, es: seq<Event>)
    requires ArcSafe(s)
    ensures ArcSafe(Run(ArcAsWritten, s, es))
    ensures Run(ArcAsWritten, s, es).count >= s.count
    decreases |es|
  {
    if es != [] {
      assert ArcSafe(Step(ArcAsWritten, s, es[0]));
      ArcNeverFreesTwice(Step(ArcAsWritten, s, es[0]), es[1..]);
    }
  }

  /** Once the count is past 1 and nothing is freed, no further drop frees the
      allocation, however many handles are dropped. */
  lemma {:induction false} ArcNoFreeAfterGrowth(s: Life, es: seq<Event>)
    requires s.count >= 2 && s.frees == 0
    ensures Run(ArcAsWritten, s, es).frees == 0
    ensures Run(ArcAsWritten, s, es).count >= 2
    decreases |es|
  {
    if es != [] {
      ArcNoFreeAfterGrowth(Step(ArcAsWritten, s, es[0]), es[1..]);
    }
  }

  /** As soon as an `Arc` has been cloned, it is never freed. */
  lemma {:induction false} ArcLeaksOnceCloned(es: seq<Event>)
    requires es != [] && es[0] == Clone
    ensures Run(ArcAsWritten, New(), es).frees == 0
  {
    assert Run(ArcAsWritten, New(), es) == Run(ArcAsWritten, Life(2, 2, 0), es[1..]);
    ArcNoFreeAfterGrowth(Life(2, 2, 0), es[1..]);
  }
}
