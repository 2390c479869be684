/**
 * The rendezvous coordinator: a table from distinguished endpoint to the
 * start of the first trail that reached it. The channel of trails is
 * modelled as the sequence of trails in the order they are received; the
 * end of the sequence is the channel closing.
 */
module Rendezvous {
  import opened Common
  import opened Walk
  import opened Trails

  /** No two trails in `ts` share an endpoint. */
  ghost predicate DistinctEnds(ts: seq<Trail>)
  {
    forall i, j :: 0 <= i < j < |ts| ==> ts[i].end != ts[j].end
  }

  /**
   * Consumes trails until one reaches an endpoint already in the table.
   * Returns the stored start and the new start, and the number of table
   * entries at that moment (the figure the source prints). `first` and
   * `second` are the positions of the two trails in the stream.
   */
  method Orchestrate(trails: seq<Trail>) returns (r: Result<(Digest, Digest)>, entries: nat, ghost first: nat, ghost second: nat)
    ensures r.Ok? ==> && first < second < |trails|
                      && trails[first].end == trails[second].end
                      && DistinctEnds(trails[..second])
                      && r.value == (trails[first].start, trails[second].start)
                      && entries == second
    ensures r.Err? ==> r.error == ChannelClosed && DistinctEnds(trails)
  {
    var lookup: map<Digest, Digest> := map[];
    ghost var position: map<Digest, nat> := map[];  // where in the stream each stored endpoint came from
    var i := 0;
    while i < |trails|
      invariant 0 <= i <= |trails|
      invariant DistinctEnds(trails[..i])
      invariant position.Keys == lookup.Keys
      invariant forall k :: 0 <= k < i ==> trails[k].end in lookup
      invariant forall e :: e in position ==>
                  position[e] < i && trails[position[e]].end == e && lookup[e] == trails[position[e]].start
      invariant |lookup| == i
    {
      var start, end := trails[i].start, trails[i].end;
      if end in lookup {
        return Ok((lookup[end], start)), |lookup|, position[end], i;
      }
      assert trails[..i + 1] == trails[..i] + [trails[i]];
      lookup := lookup[end := start];
      position := position[end := i];
      i := i + 1;
    }
    assert trails[..i] == trails;
    return Err(ChannelClosed), |lookup|, 0, 0;
  }

  /**
   * Rendezvous soundness: when every trail in the stream is genuine, the two
   * starts the coordinator returns walk to the same distinguished point.
   */
  lemma OrchestrateSound(p: Params, trails: seq<Trail>, fuel: nat, first: nat, second: nat)
    requires forall i :: 0 <= i < |trails| ==> IsGenuine(p, trails[i], fuel)
    requires first < second < |trails| && trails[first].end == trails[second].end
    ensures exists e, ka: nat, kb: nat :: ka <= fuel && kb <= fuel
              && IsTrailOf(Step(p), trails[first].start, e, ka) && IsTrailOf(Step(p), trails[second].start, e, kb)
  {
    assert IsGenuine(p, trails[first], fuel) && IsGenuine(p, trails[second], fuel);
  }
}
