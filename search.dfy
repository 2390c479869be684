/**
 * The whole search with the threads set aside: the coordinator consumes the
 * trails the workers produced, then the two trails it returns are refined
 * into a colliding pair of digests, whose messages are what gets reported.
 */
module Search {
  import opened Common
  import opened Walk
  import opened Trails
  import opened Rendezvous
  import opened Refinement

  /**
   * When every trail in the stream is genuine, a reported pair is a true
   * collision of two distinct messages, and the search never fails for lack
   * of fuel. It fails with `ChannelClosed` exactly when no endpoint repeats;
   * otherwise `first` and `second` are the positions of the two trails the
   * coordinator paired, and the other failures are `Refine`'s edge cases on
   * their starts, taking `stepsA` and `stepsB` steps.
   */
  method FindCollision(p: Params, trails: seq<Trail>, fuel: nat)
    returns (r: Result<(Digest, Digest)>, ghost first: nat, ghost second: nat, ghost stepsA: nat, ghost stepsB: nat)
    requires forall i :: 0 <= i < |trails| ==> IsGenuine(p, trails[i], fuel)
    ensures r.Ok? ==> r.value.0 != r.value.1 && Next(p, r.value.0) == Next(p, r.value.1)
    ensures r.Ok? ==> && HashToMsg(r.value.0) != HashToMsg(r.value.1)
                      && Sha256Trunc(p, MessageBytes(r.value.0)) == Sha256Trunc(p, MessageBytes(r.value.1))
    ensures r.Err? ==> r.error == ChannelClosed || r.error == StartDistinguished || r.error == Overlap
    ensures r == Err(ChannelClosed) <==> DistinctEnds(trails)
    ensures r != Err(ChannelClosed) ==> && first < second < |trails|
                                        && trails[first].end == trails[second].end
                                        && DistinctEnds(trails[..second])
    ensures r != Err(ChannelClosed) ==> (r == Err(StartDistinguished) <==> IsDistinguished(trails[first].start))
    ensures r == Err(Overlap) ==> IsOverlap(p, trails[first].start, trails[second].start, stepsA, stepsB)
  {
    var found, entries;
    found, entries, first, second := Orchestrate(trails);
    if found.Err? {
      return Err(found.error), first, second, 0, 0;
    }
    var (a, b) := found.value;
    assert !DistinctEnds(trails) by {
      assert trails[first].end == trails[second].end;
    }
    OrchestrateSound(p, trails, fuel, first, second);
    ghost var e: Digest, ka: nat, kb: nat :| ka <= fuel && kb <= fuel && IsTrailOf(Step(p), a, e, ka) && IsTrailOf(Step(p), b, e, kb);
    r, stepsA, stepsB := Refine(p, a, b, fuel);
    SharedEndIsKnown(Step(p), a, b, e, ka, kb, stepsA);
    if r.Ok? {
      HashToMsgInjective(r.value.0, r.value.1);
    }
  }
}
