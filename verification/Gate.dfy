// The gate of a Space actor: every mutation waits for the one called before it,
// and lease evaluations of one node share a run.
module Gate {
  import opened Prelude
  import SpaceStore
  import SpaceActor

  // What one gated call is doing. `previous` is the promise that was the tail when it was called.
  datatype Phase = Waiting(previous: Option<nat>) | Running | Done(succeeded: bool)

  class MutationGate {
    var calls: seq<Phase>
    // the call whose release is the current tail; none yet is a resolved promise
    var tail: Option<nat>
    // the calls in the order in which their operations began
    ghost var began: seq<nat>

    predicate Resolved(promise: Option<nat>)
      reads this
    {
      promise.None? || (promise.value < |calls| && calls[promise.value].Done?)
    }

    predicate MayBegin(call: nat)
      reads this
    {
      call < |calls| && calls[call].Waiting? && Resolved(calls[call].previous)
    }

    /** Calls begin one at a time, in call order, and a call has begun only after all earlier ones are done. */
    ghost predicate Valid()
      reads this
    {
      && tail == (if calls == [] then None else Some(|calls| - 1))
      && (forall i :: 0 <= i < |calls| && calls[i].Waiting? ==> calls[i].previous == if i == 0 then None else Some(i - 1))
      && |began| <= |calls|
      && (forall i :: 0 <= i < |began| ==> began[i] == i && !calls[i].Waiting?)
      && (forall i :: |began| <= i < |calls| ==> calls[i].Waiting?)
      && (forall i :: 0 <= i < |began| - 1 ==> calls[i].Done?)
    }

    constructor ()
      ensures Valid() && calls == []
    {
      calls, tail, began := [], None, [];
    }

    // The synchronous part: take the tail and become it.
    method WithMutation() returns (call: nat)
      requires Valid()
      modifies this
      ensures Valid() && call == |old(calls)| && |calls| == call + 1 && calls[..call] == old(calls)
      ensures calls[call].Waiting? && began == old(began)
    {
      call := |calls|;
      calls := calls + [Waiting(tail)];
      tail := Some(call);
    }

    /** The operation begins once its predecessor is released; no other operation is running then. */
    method Begin(call: nat)
      requires Valid() && MayBegin(call)
      modifies this
      ensures Valid() && calls == old(calls)[call := Running] && began == old(began) + [call]
      ensures forall i :: 0 <= i < |old(calls)| ==> !old(calls)[i].Running?
      ensures forall i :: 0 <= i < call ==> calls[i].Done?
    {
      assert call == |began|;
      calls := calls[call := Running];
      began := began + [call];
    }

    // The finally block releases the gate whether the operation succeeded or threw.
    method Finish(call: nat, succeeded: bool)
      requires Valid() && call < |calls| && calls[call].Running?
      modifies this
      ensures Valid() && calls == old(calls)[call := Done(succeeded)] && began == old(began)
      ensures call + 1 < |calls| ==> MayBegin(call + 1)
    {
      calls := calls[call := Done(succeeded)];
    }
  }

  /** At most one operation runs. */
  lemma OneAtATime(gate: MutationGate, i: nat, j: nat)
    requires gate.Valid() && i < |gate.calls| && j < |gate.calls|
    requires gate.calls[i].Running? && gate.calls[j].Running?
    ensures i == j
  {
  }

  /** The gate never gets stuck: while calls wait, one is running or exactly one may begin. */
  lemma NeverStuck(gate: MutationGate, waiting: nat)
    requires gate.Valid() && waiting < |gate.calls| && gate.calls[waiting].Waiting?
    ensures (exists i :: 0 <= i < |gate.calls| && gate.calls[i].Running?)
            || (exists i :: gate.MayBegin(i) && forall j :: gate.MayBegin(j) ==> j == i)
  {
    var next := |gate.began|;
    if next == 0 || gate.calls[next - 1].Done? {
      assert gate.MayBegin(next);
    } else {
      assert gate.calls[next - 1].Running?;
    }
  }

  // ----- shared lease evaluations -----

  // One run of the kernel for a node, and the request it was started for.
  datatype Evaluation = Evaluation(hash: Hash, request: LeaseRequest, running: bool)

  class LeaseEvaluations {
    // the evaluation to share, by node
    var active: map<Hash, nat>
    var evaluations: seq<Evaluation>

    /** The evaluation to share is one of that node, and every running evaluation is the one to share. */
    ghost predicate Valid()
      reads this
    {
      && (forall h :: h in active ==> active[h] < |evaluations| && evaluations[active[h]].hash == h)
      && (forall i :: 0 <= i < |evaluations| && evaluations[i].running ==>
            evaluations[i].hash in active && active[evaluations[i].hash] == i)
    }

    constructor ()
      ensures Valid() && active == map[] && evaluations == []
    {
      active, evaluations := map[], [];
    }

    /** A request shares the node's active evaluation, or starts one that others will share. */
    method HandleLease(hash: Hash, request: LeaseRequest) returns (evaluation: nat)
      requires Valid()
      modifies this
      ensures Valid() && evaluation < |evaluations| && evaluations[evaluation].hash == hash
      ensures hash in old(active) ==>
                evaluation == old(active)[hash] && evaluations == old(evaluations) && active == old(active)
      ensures hash !in old(active) ==>
                && evaluations == old(evaluations) + [Evaluation(hash, request, true)]
                && evaluation == |old(evaluations)| && active == old(active)[hash := evaluation]
    {
      if hash in active {
        return active[hash];
      }
      evaluation := |evaluations|;
      evaluations := evaluations + [Evaluation(hash, request, true)];
      active := active[hash := evaluation];
    }

    // The run ends, well or badly; the entry stays until the starter's finally block.
    method Settle(evaluation: nat)
      requires Valid() && evaluation < |evaluations| && evaluations[evaluation].running
      modifies this
      ensures Valid() && active == old(active)
      ensures evaluations == old(evaluations)[evaluation := old(evaluations)[evaluation].(running := false)]
    {
      evaluations := evaluations[evaluation := evaluations[evaluation].(running := false)];
    }

    /** The starter removes its own evaluation and no later one. */
    method Release(evaluation: nat)
      requires Valid() && evaluation < |evaluations| && !evaluations[evaluation].running
      modifies this
      ensures Valid() && evaluations == old(evaluations)
      ensures var hash := evaluations[evaluation].hash;
              active == if hash in old(active) && old(active)[hash] == evaluation then old(active) - {hash} else old(active)
    {
      var hash := evaluations[evaluation].hash;
      if hash in active && active[hash] == evaluation {
        active := active - {hash};
      }
    }
  }

  /** At most one evaluation of a node runs at a time. */
  lemma OneEvaluationPerNode(e: LeaseEvaluations, i: nat, j: nat)
    requires e.Valid() && i < |e.evaluations| && j < |e.evaluations|
    requires e.evaluations[i].running && e.evaluations[j].running && e.evaluations[i].hash == e.evaluations[j].hash
    ensures i == j
  {
  }

  datatype LeaseRequest = LeaseRequest(durationMs: int, now: nat)

  ghost function PromisedExpiry(r: LeaseRequest): int {
    r.now + SpaceActor.ClampLeaseDuration(r.durationMs)
  }

  ghost function GrantedExpiry(existing: Option<SpaceStore.Lease>, r: LeaseRequest): int {
    SpaceActor.NextNodeLease(existing, SpaceActor.ClampLeaseDuration(r.durationMs), r.now).expiresAt
  }

  /** A request that has its own evaluation is always given the lease it asks for. */
  lemma OwnEvaluationCovers(existing: Option<SpaceStore.Lease>, r: LeaseRequest)
    ensures GrantedExpiry(existing, r) >= PromisedExpiry(r)
  {
  }

  /**
   * A request that arrives while another evaluation of the node is active shares that evaluation's
   * answer. Whatever lease the node had, the answer covers the second request exactly when the first
   * request asked for at least as late an expiry.
   */
  lemma SharedEvaluationCovers(first: LeaseRequest, second: LeaseRequest)
    ensures (forall existing: Option<SpaceStore.Lease> :: GrantedExpiry(existing, first) >= PromisedExpiry(second))
            <==> PromisedExpiry(first) >= PromisedExpiry(second)
  {
    var none: Option<SpaceStore.Lease> := None;
    assert GrantedExpiry(none, first) == PromisedExpiry(first);
  }

  /** A shared answer can fall short: a later request for a longer lease gets the shorter one. */
  lemma SharedEvaluationCanFallShort() returns (first: LeaseRequest, second: LeaseRequest)
    ensures first.now <= second.now && GrantedExpiry(None, first) < PromisedExpiry(second)
  {
    first, second := LeaseRequest(60000, 1000), LeaseRequest(120000, 1001);
  }
}
