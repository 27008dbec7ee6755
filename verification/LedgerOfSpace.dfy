// One Space's store and the App's ledger together: a commit of the Space is one root
// update of its store, a storage action of the Space is a node or object step of the
// ledger, and other Spaces move the ledger alone. Each side's guards give the other's.
module LedgerOfSpace {
  import opened Prelude
  import RootLedger
  import UsageProjection
  import SpaceStore
  import SpaceInvariant
  import SpaceTheorems

  // The ledger's view of one Space is that Space's node rows and objects.
  ghost predicate Agrees(l: RootLedger.Ledger, me: RootLedger.Space, s: SpaceStore.Store) {
    AgreesOn(l, me, s.tables.nodes, s.objects.Keys)
  }

  ghost predicate AgreesOn(l: RootLedger.Ledger, me: RootLedger.Space, nodes: map<Hash, UsageProjection.NodeRow>, stored: set<Hash>) {
    && (forall h :: (me, h) in l.counts <==> h in nodes)
    && (forall h :: h in nodes ==> l.counts[(me, h)] == nodes[h].rootRefCount)
    && (forall h :: (me, h) in l.ready <==> h in stored)
  }

  lemma {:induction false} SameDelta(entries: seq<(Hash, int)>, i: nat, hash: Hash)
    requires i <= |entries| && SpaceInvariant.DistinctEntries(entries)
    ensures RootLedger.DeltaOf(entries[i..], hash) == SpaceInvariant.RootDelta(entries, i, hash)
    decreases |entries| - i
  {
    if i < |entries| {
      SameDelta(entries, i + 1, hash);
      assert entries[i..][1..] == entries[i + 1..];
      if entries[i].0 == hash {
        SpaceInvariant.RootDeltaAbsent(entries, i + 1, hash);
      }
    }
  }

  lemma LicensedIsLegal(l: RootLedger.Ledger, plan: RootLedger.Plan, s: SpaceStore.Store)
    requires Agrees(l, plan.space, s) && RootLedger.Licensed(l, plan)
    ensures SpaceStore.LegalRootUpdate(s, plan.entries)
  {
    forall i | 0 <= i < |plan.entries|
      ensures var (hash, delta) := plan.entries[i];
              && hash in s.tables.nodes && s.tables.nodes[hash].rootRefCount + delta >= 0
              && (delta > 0 ==> hash in s.objects)
    {
      assert RootLedger.EntryLicensed(l, plan, plan.entries[i]);
    }
  }

  /** A licensed commit is an admitted root update of its Space, and both views still agree afterwards. */
  lemma CommitIsUpdateRoots(digest: Digest, w: SpaceStore.World, l: RootLedger.Ledger, plan: RootLedger.Plan)
    requires SpaceStore.Inv(digest, w) && RootLedger.Inv(l) && RootLedger.Licensed(l, plan)
    requires Agrees(l, plan.space, w.store) && RootLedger.CurrentRevision(l) == plan.expectedRevision
    ensures SpaceStore.Enabled(digest, w, SpaceStore.UpdateRoots(plan.entries))
    ensures RootLedger.CommitBatch(l, plan).Ok?
    ensures var w' := SpaceStore.Apply(w, SpaceStore.UpdateRoots(plan.entries));
            && SpaceStore.Inv(digest, w')
            && Agrees(RootLedger.CommitBatch(l, plan).value, plan.space, w'.store)
  {
    hide SpaceStore.Inv, RootLedger.Inv, RootLedger.CommitBatch, SpaceStore.UpdateRootsBatch;
    LicensedIsLegal(l, plan, w.store);
    SpaceInvariant.UpdateRootsKeepsInv(digest, w, plan.entries);
    RootLedger.CommitCommits(l, plan);
    SpaceInvariant.UpdateRootsShape(w.store, plan.entries, 0);
    forall h
      ensures RootLedger.DeltaOf(plan.entries, h) == SpaceInvariant.RootDelta(plan.entries, 0, h)
    {
      SameDelta(plan.entries, 0, h);
      assert plan.entries[0..] == plan.entries;
    }
  }

  // ----- both together -----

  datatype Joint = Joint(world: SpaceStore.World, ledger: RootLedger.Ledger)

  datatype JointStep =
    | InSpace(action: SpaceStore.Action)
    | CommitRoots(plan: RootLedger.Plan)
    | Elsewhere(step: RootLedger.Step)

  // What a storage action of the Space is to the ledger.
  ghost function LedgerStep(me: RootLedger.Space, a: SpaceStore.Action): Option<RootLedger.Step> {
    match a
    case CommitNode(hash, _, _, _) => Some(RootLedger.AddNode((me, hash)))
    case CommitDeletion(hash, _) => Some(RootLedger.RemoveNode((me, hash)))
    case PutCanonical(hash, _) => Some(RootLedger.PutObject((me, hash)))
    case DeleteObject(hash, _) => Some(RootLedger.RemoveObject((me, hash)))
    case _ => None
  }

  // Only the guards of the acting side: the Space's for its actions, the ledger's for a commit and for other Spaces.
  ghost predicate JointEnabled(digest: Digest, me: RootLedger.Space, j: Joint, step: JointStep) {
    match step
    case InSpace(a) => SpaceStore.Enabled(digest, j.world, a) && !a.UpdateRoots?
    case CommitRoots(plan) => plan.space == me && RootLedger.Licensed(j.ledger, plan)
    case Elsewhere(step) => RootLedger.Foreign(step, me) && RootLedger.Enabled(j.ledger, step)
  }

  ghost function JointApply(me: RootLedger.Space, j: Joint, step: JointStep): Joint {
    match step
    case InSpace(a) =>
      var ledger := match LedgerStep(me, a)
                    case Some(step) => RootLedger.Apply(j.ledger, step)
                    case None => j.ledger;
      Joint(SpaceStore.Apply(j.world, a), ledger)
    case CommitRoots(plan) =>
      if RootLedger.CommitBatch(j.ledger, plan).Ok?
      then Joint(SpaceStore.Apply(j.world, SpaceStore.UpdateRoots(plan.entries)), RootLedger.CommitBatch(j.ledger, plan).value)
      else j
    case Elsewhere(step) => j.(ledger := RootLedger.Apply(j.ledger, step))
  }

  ghost predicate JointInv(digest: Digest, me: RootLedger.Space, j: Joint) {
    SpaceStore.Inv(digest, j.world) && RootLedger.Inv(j.ledger) && Agrees(j.ledger, me, j.world.store)
  }

  // The Space's guard for an action is the ledger's guard for its step.
  lemma GuardsMeet(digest: Digest, me: RootLedger.Space, j: Joint, a: SpaceStore.Action)
    requires JointInv(digest, me, j) && SpaceStore.Enabled(digest, j.world, a) && !a.UpdateRoots?
    requires forall b :: |digest(b)| == 32
    ensures LedgerStep(me, a).Some? ==> RootLedger.Enabled(j.ledger, LedgerStep(me, a).value)
  {
    hide SpaceStore.Inv, RootLedger.Inv, SpaceStore.IsGrouping;
  }

  // What a node or object step does to the rows and objects the ledger sees.
  ghost predicate MovesLike(
    nodes: map<Hash, UsageProjection.NodeRow>, stored: set<Hash>, nodes': map<Hash, UsageProjection.NodeRow>, stored': set<Hash>,
    me: RootLedger.Space, step: RootLedger.Step)
  {
    && (forall h :: h in nodes && h in nodes' ==> nodes'[h].rootRefCount == nodes[h].rootRefCount)
    && match step
       case AddNode(key) =>
         key.0 == me && nodes'.Keys == nodes.Keys + {key.1} && nodes'[key.1].rootRefCount == 0 && stored' == stored
       case RemoveNode(key) => key.0 == me && nodes'.Keys == nodes.Keys - {key.1} && stored' == stored
       case PutObject(key) => key.0 == me && nodes'.Keys == nodes.Keys && stored' == stored + {key.1}
       case RemoveObject(key) => key.0 == me && nodes'.Keys == nodes.Keys && stored' == stored - {key.1}
       case Commit(_) => false
  }

  lemma StepKeepsAgreement(
    l: RootLedger.Ledger, nodes: map<Hash, UsageProjection.NodeRow>, stored: set<Hash>,
    nodes': map<Hash, UsageProjection.NodeRow>, stored': set<Hash>, me: RootLedger.Space, step: RootLedger.Step)
    requires AgreesOn(l, me, nodes, stored) && MovesLike(nodes, stored, nodes', stored', me, step)
    ensures AgreesOn(RootLedger.Apply(l, step), me, nodes', stored')
  {
  }

  lemma ActionKeepsAgreement(me: RootLedger.Space, l: RootLedger.Ledger, s: SpaceStore.Store, s': SpaceStore.Store, a: SpaceStore.Action)
    requires Agrees(l, me, s) && SpaceTheorems.MovesRows(s, s', a) && !a.UpdateRoots?
    ensures match LedgerStep(me, a)
            case Some(step) => Agrees(RootLedger.Apply(l, step), me, s')
            case None => Agrees(l, me, s')
  {
    hide RootLedger.Apply;
    match LedgerStep(me, a) {
      case Some(step) => StepKeepsAgreement(l, s.tables.nodes, s.objects.Keys, s'.tables.nodes, s'.objects.Keys, me, step);
      case None =>
    }
  }

  lemma ElsewhereKeepsAgreement(me: RootLedger.Space, l: RootLedger.Ledger, s: SpaceStore.Store, step: RootLedger.Step)
    requires RootLedger.Inv(l) && RootLedger.Enabled(l, step) && RootLedger.Foreign(step, me) && Agrees(l, me, s)
    ensures Agrees(RootLedger.Apply(l, step), me, s)
  {
    hide RootLedger.CommitBatch;
    if step.Commit? {
      RootLedger.CommitCommits(l, step.plan);
    }
  }

  /** Every step of either side keeps both invariants and the agreement, under the acting side's own guards alone. */
  lemma JointStepKeepsInv(digest: Digest, me: RootLedger.Space, j: Joint, step: JointStep)
    requires JointInv(digest, me, j) && JointEnabled(digest, me, j, step)
    requires forall b :: |digest(b)| == 32
    ensures JointInv(digest, me, JointApply(me, j, step))
  {
    hide SpaceStore.Inv, SpaceStore.Enabled, SpaceStore.Apply, RootLedger.Inv, RootLedger.Enabled, RootLedger.Apply;
    hide RootLedger.Licensed, RootLedger.CommitBatch, Agrees, SpaceTheorems.MovesRows;
    match step {
      case InSpace(a) =>
        GuardsMeet(digest, me, j, a);
        SpaceInvariant.StepKeepsInv(digest, j.world, a);
        SpaceTheorems.ActionMovesRows(digest, j.world, a);
        ActionKeepsAgreement(me, j.ledger, j.world.store, SpaceStore.Apply(j.world, a).store, a);
        if LedgerStep(me, a).Some? {
          RootLedger.StepKeepsInv(j.ledger, LedgerStep(me, a).value);
        }
      case CommitRoots(plan) =>
        RootLedger.CommitCommits(j.ledger, plan);
        if RootLedger.CommitBatch(j.ledger, plan).Ok? {
          CommitIsUpdateRoots(digest, j.world, j.ledger, plan);
          RootLedger.CommitKeepsInv(j.ledger, plan);
          CommitApplies(j.ledger, plan);
        }
      case Elsewhere(step) =>
        RootLedger.StepKeepsInv(j.ledger, step);
        ElsewhereKeepsAgreement(me, j.ledger, j.world.store, step);
    }
  }

  lemma CommitApplies(l: RootLedger.Ledger, plan: RootLedger.Plan)
    requires RootLedger.CommitBatch(l, plan).Ok?
    ensures RootLedger.Apply(l, RootLedger.Commit(plan)) == RootLedger.CommitBatch(l, plan).value
  {
  }

  ghost function JointExec(me: RootLedger.Space, j: Joint, steps: seq<JointStep>): Joint
    decreases |steps|
  {
    if steps == [] then j else JointExec(me, JointApply(me, j, steps[0]), steps[1..])
  }

  ghost predicate IsJointRun(digest: Digest, me: RootLedger.Space, j: Joint, steps: seq<JointStep>)
    decreases |steps|
  {
    steps != [] ==>
      JointEnabled(digest, me, j, steps[0]) && IsJointRun(digest, me, JointApply(me, j, steps[0]), steps[1..])
  }

  /**
   * Over every joint run both invariants hold and the two agree; so a live node's root count is the
   * sum of the deltas of all events the App ever recorded for it.
   */
  lemma {:induction false} JointRunKeepsInv(digest: Digest, me: RootLedger.Space, j: Joint, steps: seq<JointStep>)
    requires JointInv(digest, me, j) && IsJointRun(digest, me, j, steps)
    requires forall b :: |digest(b)| == 32
    ensures JointInv(digest, me, JointExec(me, j, steps))
    ensures var end := JointExec(me, j, steps);
            forall h :: h in end.world.store.tables.nodes ==>
              end.world.store.tables.nodes[h].rootRefCount
              == RootLedger.Balance(end.ledger.events, RootLedger.CurrentRevision(end.ledger), (me, h))
    decreases |steps|
  {
    hide JointInv, JointEnabled, JointApply;
    if steps == [] {
      RootCountsAreSums(digest, me, j);
    } else {
      JointStepKeepsInv(digest, me, j, steps[0]);
      JointRunKeepsInv(digest, me, JointApply(me, j, steps[0]), steps[1..]);
    }
  }

  lemma RootCountsAreSums(digest: Digest, me: RootLedger.Space, j: Joint)
    requires JointInv(digest, me, j)
    ensures forall h :: h in j.world.store.tables.nodes ==>
              j.world.store.tables.nodes[h].rootRefCount
              == RootLedger.Balance(j.ledger.events, RootLedger.CurrentRevision(j.ledger), (me, h))
  {
    hide SpaceStore.Inv;
    forall h | h in j.world.store.tables.nodes
      ensures j.world.store.tables.nodes[h].rootRefCount
              == RootLedger.Balance(j.ledger.events, RootLedger.CurrentRevision(j.ledger), (me, h))
    {
      assert RootLedger.CountOf(j.ledger, (me, h)) == j.world.store.tables.nodes[h].rootRefCount;
    }
  }

  // Joint runs start somewhere: an empty Space and an empty ledger.
  lemma EmptyJoint(digest: Digest, me: RootLedger.Space, cutoff: int)
    ensures JointInv(digest, me, Joint(SpaceStore.EmptyWorld(cutoff), RootLedger.EMPTY))
  {
    SpaceStore.EmptyWorldInv(digest, cutoff);
    RootLedger.EmptyLedger();
  }

  /** So all of this holds of every state a joint run reaches from nothing. */
  lemma EveryReachableJoint(digest: Digest, me: RootLedger.Space, cutoff: int, steps: seq<JointStep>)
    requires forall b :: |digest(b)| == 32
    requires IsJointRun(digest, me, Joint(SpaceStore.EmptyWorld(cutoff), RootLedger.EMPTY), steps)
    ensures JointInv(digest, me, JointExec(me, Joint(SpaceStore.EmptyWorld(cutoff), RootLedger.EMPTY), steps))
  {
    hide JointInv, JointEnabled, JointApply;
    EmptyJoint(digest, me, cutoff);
    JointRunKeepsInv(digest, me, Joint(SpaceStore.EmptyWorld(cutoff), RootLedger.EMPTY), steps);
  }
}
