/**
 * Trail generation: walk from a start digest to the first distinguished
 * point. The random start is a parameter, and the walk carries a step
 * bound (`fuel`) because the source loops until it finds one.
 */
module Trails {
  import opened Common
  import opened Walk

  /** A trail as the workers report it: where it started and where it stopped. */
  datatype Trail = Trail(start: Digest, end: Digest)

  /** A trail whose endpoint is the first distinguished point of the walk from its start, within `fuel` steps. */
  ghost predicate IsGenuine(p: Params, t: Trail, fuel: nat)
  {
    exists k: nat :: k <= fuel && IsTrailOf(Step(p), t.start, t.end, k)
  }

  /** `trail` in the Rust program, from the start the random generator would give. */
  method WalkToDistinguished(p: Params, start: Digest, fuel: nat) returns (r: Result<Trail>, ghost steps: nat)
    ensures r.Ok? ==> r.value.start == start && steps <= fuel && IsTrailOf(Step(p), start, r.value.end, steps)
    ensures r.Err? ==> r.error == TrailTooLong
                       && forall i :: 0 <= i <= fuel ==> !IsDistinguished(Iterate(Step(p), start, i))
    ensures IsDistinguished(start) ==> r == Ok(Trail(start, start))
  {
    var point := start;
    var taken := 0;
    while !IsDistinguished(point)
      invariant taken <= fuel
      invariant point == Iterate(Step(p), start, taken)
      invariant forall i :: 0 <= i < taken ==> !IsDistinguished(Iterate(Step(p), start, i))
      decreases fuel - taken
    {
      if taken == fuel {
        return Err(TrailTooLong), taken;
      }
      IterateNext(p, start, taken);
      point := Next(p, point);
      taken := taken + 1;
    }
    return Ok(Trail(start, point)), taken;
  }

  /**
   * `build_trail` in the Python program: the start is the truncated hash of
   * the random `seed`, so it is a full-width digest.
   */
  method BuildTrail(p: Params, seed: seq<Byte>, fuel: nat) returns (r: Result<Trail>, ghost steps: nat)
    ensures r.Ok? ==> |r.value.start| == p.width && r.value.start == Sha256Trunc(p, seed)
    ensures r.Ok? ==> steps <= fuel && IsTrailOf(Step(p), r.value.start, r.value.end, steps)
    ensures r.Err? ==> r.error == TrailTooLong
                       && forall i :: 0 <= i <= fuel ==> !IsDistinguished(Iterate(Step(p), Sha256Trunc(p, seed), i))
  {
    var start := Sha256Trunc(p, seed);
    r, steps := WalkToDistinguished(p, start, fuel);
  }
}
