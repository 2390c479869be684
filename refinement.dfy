/**
 * Trail refinement: replay trail A recording each point's predecessor, then
 * walk trail B until it lands on a recorded point. The predecessors on the
 * two sides are the candidate collision.
 *
 * `RefineRust` and `RefinePython` are the two programs as written; `Refine`
 * adds the checks they lack and is the one the search uses.
 */
module Refinement {
  import opened Common
  import opened Walk

  /** The predecessor table after replaying n steps from `a`. */
  function History(f: Digest -> Digest, a: Digest, n: nat): map<Digest, Digest>
    decreases n
  {
    if n == 0 then map[] else History(f, a, n - 1)[Iterate(f, a, n) := Iterate(f, a, n - 1)]
  }

  /** Every key of the table is the walk image of the value stored under it. */
  lemma {:induction false} HistoryImage(f: Digest -> Digest, a: Digest, n: nat)
    ensures forall z :: z in History(f, a, n) ==> f(History(f, a, n)[z]) == z
    decreases n
  {
    if n > 0 {
      HistoryImage(f, a, n - 1);
    }
  }

  /** Every point reached after 1 to n steps is a key of the table. */
  lemma {:induction false} HistoryKeys(f: Digest -> Digest, a: Digest, n: nat)
    ensures forall j :: 1 <= j <= n ==> Iterate(f, a, j) in History(f, a, n)
    decreases n
  {
    if n > 0 {
      HistoryKeys(f, a, n - 1);
    }
  }

  /** Every key of the table is a point reached after 1 to n steps; returns how many. */
  lemma {:induction false} HistoryKeyIndex(f: Digest -> Digest, a: Digest, n: nat, z: Digest) returns (j: nat)
    requires z in History(f, a, n)
    ensures 1 <= j <= n && Iterate(f, a, j) == z
    decreases n
  {
    if z == Iterate(f, a, n) {
      j := n;
    } else {
      j := HistoryKeyIndex(f, a, n - 1, z);
    }
  }

  lemma {:induction false} HistoryAtUpTo(f: Digest -> Digest, a: Digest, n: nat, j: nat)
    requires 1 <= j <= n
    requires forall m :: j < m <= n ==> Iterate(f, a, m) != Iterate(f, a, j)
    ensures Iterate(f, a, j) in History(f, a, n) && History(f, a, n)[Iterate(f, a, j)] == Iterate(f, a, j - 1)
    decreases n
  {
    if j < n {
      HistoryAtUpTo(f, a, n - 1, j);
    }
  }

  /** On a completed trail each point after the start is stored with its own predecessor. */
  lemma HistoryAt(f: Digest -> Digest, a: Digest, e: Digest, k: nat, j: nat)
    requires IsTrailOf(f, a, e, k)
    requires 1 <= j <= k
    ensures Iterate(f, a, j) in History(f, a, k) && History(f, a, k)[Iterate(f, a, j)] == Iterate(f, a, j - 1)
  {
    forall m | j < m <= k
      ensures Iterate(f, a, m) != Iterate(f, a, j)
    {
      TrailNoRepeat(f, a, e, k, j, m);
    }
    HistoryAtUpTo(f, a, k, j);
  }

  /** The start of a completed trail is never a key of its table. */
  lemma HistoryStartNotKey(f: Digest -> Digest, a: Digest, e: Digest, k: nat)
    requires IsTrailOf(f, a, e, k)
    ensures a !in History(f, a, k)
  {
    if a in History(f, a, k) {
      var j := HistoryKeyIndex(f, a, k, a);
      TrailNoRepeat(f, a, e, k, 0, j);
    }
  }

  /**
   * The meeting point: after kb steps the walk from `b` is on the table of
   * the trail from `a`, and it was not at any earlier step.
   */
  ghost predicate FirstMeet(f: Digest -> Digest, a: Digest, ka: nat, b: Digest, kb: nat)
  {
    && Iterate(f, b, kb) in History(f, a, ka)
    && forall j :: 0 <= j < kb ==> Iterate(f, b, j) !in History(f, a, ka)
  }

  /**
   * When B arrives at a recorded point from a point `x` off the table, `x`
   * and the recorded predecessor have the same image, and they are equal
   * exactly when `x` is A's start.
   */
  lemma MeetPair(f: Digest -> Digest, a: Digest, e: Digest, k: nat, x: Digest, meet: Digest)
    requires IsTrailOf(f, a, e, k)
    requires meet in History(f, a, k) && x !in History(f, a, k) && f(x) == meet
    ensures f(History(f, a, k)[meet]) == f(x)
    ensures x == History(f, a, k)[meet] <==> x == a
  {
    HistoryImage(f, a, k);
    HistoryKeys(f, a, k);
    var j := HistoryKeyIndex(f, a, k, meet);
    HistoryAt(f, a, e, k, j);
    if x == a && j != 1 {
      TrailNoRepeat(f, a, e, k, 1, j);
    }
  }

  /**
   * Python with a zero-step second loop: the stale `prev` (A's last point
   * before its end) and the predecessor of B's start never form a collision
   * of two distinct digests.
   */
  lemma StalePairNotCollision(f: Digest -> Digest, a: Digest, e: Digest, k: nat, b: Digest)
    requires IsTrailOf(f, a, e, k) && 1 <= k
    requires b in History(f, a, k)
    ensures f(Iterate(f, a, k - 1)) == f(History(f, a, k)[b]) ==> Iterate(f, a, k - 1) == History(f, a, k)[b]
  {
    HistoryImage(f, a, k);
    var j := HistoryKeyIndex(f, a, k, b);
    HistoryAt(f, a, e, k, j);
    if j != k {
      TrailNoRepeat(f, a, e, k, j, k);
    }
  }

  /**
   * Rust with a zero-step second loop: B's start `b` is a key of A's table,
   * and the pair is `b` with its stored predecessor. The two always differ
   * and the predecessor's image is `b`; they collide exactly when `b` is A's
   * endpoint and the walk maps it to itself.
   */
  lemma ZeroStepPair(f: Digest -> Digest, a: Digest, e: Digest, k: nat, b: Digest)
    requires IsTrailOf(f, a, e, k)
    requires b in History(f, a, k)
    ensures f(History(f, a, k)[b]) == b && b != History(f, a, k)[b]
    ensures f(b) == f(History(f, a, k)[b]) <==> b == e && f(e) == e
  {
    HistoryImage(f, a, k);
    var j := HistoryKeyIndex(f, a, k, b);
    HistoryAt(f, a, e, k, j);
    TrailNoRepeat(f, a, e, k, j - 1, j);
    if f(b) == b && j < k {
      assert Iterate(f, a, j + 1) == f(Iterate(f, a, j));
      TrailNoRepeat(f, a, e, k, j, j + 1);
    }
  }

  /**
   * Why the second loop ends: when trails A and B reach the same endpoint
   * and A took at least one step, B's endpoint is a key of A's table.
   */
  lemma SharedEndIsKnown(f: Digest -> Digest, a: Digest, b: Digest, e: Digest, ka: nat, kb: nat, n: nat)
    requires IsTrailOf(f, a, e, ka) && IsTrailOf(f, b, e, kb)
    ensures 1 <= n && IsTrailOf(f, a, Iterate(f, a, n), n) ==> Iterate(f, b, kb) in History(f, a, n)
  {
    if 1 <= n && IsTrailOf(f, a, Iterate(f, a, n), n) {
      TrailDeterministic(f, a, e, ka, Iterate(f, a, n), n);
      HistoryKeys(f, a, n);
    }
  }

  /** What the first loop leaves behind: the table, the point it stopped at, and the last `prev`. */
  datatype Replay = Replay(lookup: map<Digest, Digest>, end: Digest, prev: Option<Digest>)

  /** The first refinement loop: replay trail A from `a` and record predecessors. */
  method ReplayTrail(p: Params, a: Digest, fuel: nat) returns (r: Result<Replay>, ghost steps: nat)
    ensures r.Ok? ==> && steps <= fuel
                      && IsTrailOf(Step(p), a, r.value.end, steps)
                      && r.value.lookup == History(Step(p), a, steps)
                      && r.value.prev == (if steps == 0 then None else Some(Iterate(Step(p), a, steps - 1)))
    ensures r.Err? ==> r.error == TrailTooLong
                       && forall i :: 0 <= i <= fuel ==> !IsDistinguished(Iterate(Step(p), a, i))
    ensures IsDistinguished(a) ==> r == Ok(Replay(map[], a, None))
  {
    var lookup: map<Digest, Digest> := map[];
    var point := a;
    var prev: Option<Digest> := None;
    var taken := 0;
    while !IsDistinguished(point)
      invariant taken <= fuel
      invariant point == Iterate(Step(p), a, taken)
      invariant lookup == History(Step(p), a, taken)
      invariant prev == if taken == 0 then None else Some(Iterate(Step(p), a, taken - 1))
      invariant forall i :: 0 <= i < taken ==> !IsDistinguished(Iterate(Step(p), a, i))
      decreases fuel - taken
    {
      if taken == fuel {
        return Err(TrailTooLong), taken;
      }
      var last := point;
      IterateNext(p, a, taken);
      point := Next(p, point);
      lookup := lookup[point := last];
      prev := Some(last);
      taken := taken + 1;
    }
    return Ok(Replay(lookup, point, prev)), taken;
  }

  /** Where the second loop stops, and the `prev` it holds then. */
  datatype Meet = Meet(point: Digest, prev: Option<Digest>)

  /** The second refinement loop: walk from `b` until a key of `lookup`; `prev0` is `prev` before the loop. */
  method WalkToKnown(p: Params, lookup: map<Digest, Digest>, b: Digest, prev0: Option<Digest>, fuel: nat)
    returns (r: Result<Meet>, ghost steps: nat)
    ensures r.Ok? ==> && steps <= fuel
                      && r.value.point == Iterate(Step(p), b, steps)
                      && r.value.point in lookup
                      && (forall j :: 0 <= j < steps ==> Iterate(Step(p), b, j) !in lookup)
                      && r.value.prev == (if steps == 0 then prev0 else Some(Iterate(Step(p), b, steps - 1)))
    ensures r.Err? ==> r.error == NoMeeting
                       && forall j :: 0 <= j <= fuel ==> Iterate(Step(p), b, j) !in lookup
  {
    var point := b;
    var prev := prev0;
    var taken := 0;
    while point !in lookup
      invariant taken <= fuel
      invariant point == Iterate(Step(p), b, taken)
      invariant prev == if taken == 0 then prev0 else Some(Iterate(Step(p), b, taken - 1))
      invariant forall j :: 0 <= j < taken ==> Iterate(Step(p), b, j) !in lookup
      decreases fuel - taken
    {
      if taken == fuel {
        return Err(NoMeeting), taken;
      }
      prev := Some(point);
      point := Next(p, point);
      taken := taken + 1;
    }
    return Ok(Meet(point, prev)), taken;
  }

  /**
   * The refinement in the Rust `main`, as written: `prev` starts as B's
   * start, and neither a zero-step second loop nor `prev == lookup[trail_b]`
   * is checked.
   */
  method RefineRust(p: Params, a: Digest, b: Digest, fuel: nat)
    returns (r: Result<(Digest, Digest)>, ghost stepsA: nat, ghost stepsB: nat)
    ensures r.Ok? ==> && 1 <= stepsA <= fuel
                      && IsTrailOf(Step(p), a, Iterate(Step(p), a, stepsA), stepsA)
                      && FirstMeet(Step(p), a, stepsA, b, stepsB)
                      && r.value == (if stepsB == 0 then b else Iterate(Step(p), b, stepsB - 1),
                                     History(Step(p), a, stepsA)[Iterate(Step(p), b, stepsB)])
    ensures r.Ok? && stepsB > 0 ==> Next(p, r.value.0) == Next(p, r.value.1)
    ensures r.Ok? && stepsB > 0 ==> (r.value.0 == r.value.1 <==> r.value.0 == a)
    ensures r.Ok? && stepsB == 0 ==> && Next(p, r.value.1) == r.value.0 && r.value.0 != r.value.1
                                     && (Next(p, r.value.0) == Next(p, r.value.1) <==>
                                         r.value.0 == Iterate(Step(p), a, stepsA) && Next(p, r.value.0) == r.value.0)
    ensures r == Err(TrailTooLong) ==> forall i :: 0 <= i <= fuel ==> !IsDistinguished(Iterate(Step(p), a, i))
    ensures r == Err(NoMeeting) ==> && stepsA <= fuel
                                    && IsTrailOf(Step(p), a, Iterate(Step(p), a, stepsA), stepsA)
                                    && forall j :: 0 <= j <= fuel ==> Iterate(Step(p), b, j) !in History(Step(p), a, stepsA)
    ensures r.Err? ==> r.error == TrailTooLong || r.error == NoMeeting
    ensures IsDistinguished(a) ==> r == Err(NoMeeting)
  {
    var replay;
    replay, stepsA := ReplayTrail(p, a, fuel);
    if replay.Err? {
      return Err(replay.error), stepsA, 0;
    }
    var lookup := replay.value.lookup;
    var meet;
    meet, stepsB := WalkToKnown(p, lookup, b, Some(b), fuel);
    if meet.Err? {
      return Err(meet.error), stepsA, stepsB;
    }
    var trailB := meet.value.point;
    var prev := meet.value.prev.value;
    HistoryImage(Step(p), a, stepsA);
    if stepsB > 0 {
      MeetPair(Step(p), a, replay.value.end, stepsA, prev, trailB);
    } else {
      ZeroStepPair(Step(p), a, replay.value.end, stepsA, b);
    }
    r := Ok((prev, lookup[trailB]));
  }

  /**
   * The refinement in the Python `__main__`, as written: `prev` is not reset
   * between the two loops, so a zero-step second loop reports the last
   * predecessor of trail A.
   */
  method RefinePython(p: Params, a: Digest, b: Digest, fuel: nat)
    returns (r: Result<(Digest, Digest)>, ghost stepsA: nat, ghost stepsB: nat)
    ensures r.Ok? ==> && 1 <= stepsA <= fuel
                      && IsTrailOf(Step(p), a, Iterate(Step(p), a, stepsA), stepsA)
                      && FirstMeet(Step(p), a, stepsA, b, stepsB)
                      && r.value == (if stepsB == 0 then Iterate(Step(p), a, stepsA - 1) else Iterate(Step(p), b, stepsB - 1),
                                     History(Step(p), a, stepsA)[Iterate(Step(p), b, stepsB)])
    ensures r.Ok? && stepsB > 0 ==> Next(p, r.value.0) == Next(p, r.value.1)
    ensures r.Ok? && stepsB > 0 ==> (r.value.0 == r.value.1 <==> r.value.0 == a)
    ensures r.Ok? && stepsB == 0 ==> (Next(p, r.value.0) == Next(p, r.value.1) ==> r.value.0 == r.value.1)
    ensures r == Err(TrailTooLong) ==> forall i :: 0 <= i <= fuel ==> !IsDistinguished(Iterate(Step(p), a, i))
    ensures r == Err(NoMeeting) ==> && stepsA <= fuel
                                    && IsTrailOf(Step(p), a, Iterate(Step(p), a, stepsA), stepsA)
                                    && forall j :: 0 <= j <= fuel ==> Iterate(Step(p), b, j) !in History(Step(p), a, stepsA)
    ensures IsDistinguished(a) ==> r == Err(NoMeeting)
    ensures r.Err? ==> r.error == TrailTooLong || r.error == NoMeeting
  {
    var replay;
    replay, stepsA := ReplayTrail(p, a, fuel);
    if replay.Err? {
      return Err(replay.error), stepsA, 0;
    }
    var lookup := replay.value.lookup;
    var meet;
    meet, stepsB := WalkToKnown(p, lookup, b, replay.value.prev, fuel);
    if meet.Err? {
      return Err(meet.error), stepsA, stepsB;
    }
    var point := meet.value.point;
    // Python would raise on an unbound `prev` here; a zero-step second loop only happens after a non-empty replay
    assert meet.value.prev.Some?;
    var prev := meet.value.prev.value;
    HistoryImage(Step(p), a, stepsA);
    if stepsB > 0 {
      MeetPair(Step(p), a, replay.value.end, stepsA, prev, point);
    } else {
      StalePairNotCollision(Step(p), a, replay.value.end, stepsA, b);
    }
    r := Ok((prev, lookup[point]));
  }

  /**
   * Why the pair at the first meeting point is not a collision of two
   * distinct digests: B passed through A's start on the step before the
   * meeting, or B started on A's trail anywhere but at an endpoint the walk
   * maps to itself.
   */
  ghost predicate IsOverlap(p: Params, a: Digest, b: Digest, ka: nat, kb: nat)
  {
    && IsTrailOf(Step(p), a, Iterate(Step(p), a, ka), ka)
    && FirstMeet(Step(p), a, ka, b, kb)
    && if kb == 0 then !(b == Iterate(Step(p), a, ka) && Next(p, b) == b)
       else Iterate(Step(p), b, kb - 1) == a
  }

  /**
   * The refinement with the missing checks: it fails instead of looping when
   * A's start is distinguished, and it reports the pair the Rust program
   * computes only when that pair is two distinct digests with the same walk
   * image, failing with `Overlap` otherwise: when B passes through A's start,
   * or when B starts on A's trail anywhere but at an endpoint the walk maps
   * to itself.
   */
  method Refine(p: Params, a: Digest, b: Digest, fuel: nat)
    returns (r: Result<(Digest, Digest)>, ghost stepsA: nat, ghost stepsB: nat)
    ensures r.Ok? ==> r.value.0 != r.value.1 && Next(p, r.value.0) == Next(p, r.value.1)
    ensures r.Ok? ==> && 1 <= stepsA <= fuel && stepsB <= fuel
                      && IsTrailOf(Step(p), a, Iterate(Step(p), a, stepsA), stepsA)
                      && FirstMeet(Step(p), a, stepsA, b, stepsB)
                      && r.value == (if stepsB == 0 then b else Iterate(Step(p), b, stepsB - 1),
                                     History(Step(p), a, stepsA)[Iterate(Step(p), b, stepsB)])
    ensures r.Ok? && stepsB == 0 ==> b == Iterate(Step(p), a, stepsA) && Next(p, b) == b
    ensures r == Err(StartDistinguished) <==> IsDistinguished(a)
    ensures r == Err(TrailTooLong) ==> forall i :: 0 <= i <= fuel ==> !IsDistinguished(Iterate(Step(p), a, i))
    ensures r == Err(NoMeeting) ==> && 1 <= stepsA <= fuel
                                    && IsTrailOf(Step(p), a, Iterate(Step(p), a, stepsA), stepsA)
                                    && forall j :: 0 <= j <= fuel ==> Iterate(Step(p), b, j) !in History(Step(p), a, stepsA)
    ensures r == Err(Overlap) ==> IsOverlap(p, a, b, stepsA, stepsB)
    ensures r.Err? ==> r.error != ChannelClosed
  {
    if IsDistinguished(a) {
      return Err(StartDistinguished), 0, 0;
    }
    var replay;
    replay, stepsA := ReplayTrail(p, a, fuel);
    if replay.Err? {
      return Err(replay.error), stepsA, 0;
    }
    var lookup := replay.value.lookup;
    var meet;
    meet, stepsB := WalkToKnown(p, lookup, b, Some(b), fuel);
    if meet.Err? {
      return Err(meet.error), stepsA, stepsB;
    }
    var trailB := meet.value.point;
    var prev := meet.value.prev.value;
    if stepsB > 0 {
      MeetPair(Step(p), a, replay.value.end, stepsA, prev, trailB);
    } else {
      ZeroStepPair(Step(p), a, replay.value.end, stepsA, b);
    }
    if prev == lookup[trailB] || Next(p, prev) != Next(p, lookup[trailB]) {
      return Err(Overlap), stepsA, stepsB;
    }
    r := Ok((prev, lookup[trailB]));
  }
}
