// What holds over every run of a Space: collection is safe and complete, leases
// keep their promise, and published metadata is true.
module SpaceTheorems {
  import opened Prelude
  import opened UsageProjection
  import opened Codec
  import opened SpaceStore
  import opened SpaceInvariant
  import NodeRead

  // ----- runs -----

  ghost function Exec(w: World, actions: seq<Action>): World
    decreases |actions|
  {
    if actions == [] then w else Exec(Apply(w, actions[0]), actions[1..])
  }

  ghost predicate IsRun(digest: Digest, w: World, actions: seq<Action>)
    decreases |actions|
  {
    actions == [] || (Enabled(digest, w, actions[0]) && IsRun(digest, Apply(w, actions[0]), actions[1..]))
  }

  /** The invariant holds after every run, and so after every prefix a crash can leave. */
  lemma {:induction false} RunKeepsInv(digest: Digest, w: World, actions: seq<Action>)
    requires Inv(digest, w) && IsRun(digest, w, actions)
    ensures Inv(digest, Exec(w, actions))
    decreases |actions|
  {
    hide Inv, Enabled, Apply;
    if actions != [] {
      StepKeepsInv(digest, w, actions[0]);
      RunKeepsInv(digest, Apply(w, actions[0]), actions[1..]);
    }
  }

  lemma {:induction false} ExecConcat(digest: Digest, w: World, a: seq<Action>, b: seq<Action>)
    ensures Exec(w, a + b) == Exec(Exec(w, a), b)
    ensures IsRun(digest, w, a + b) <==> IsRun(digest, w, a) && IsRun(digest, Exec(w, a), b)
    decreases |a|
  {
    hide Enabled, Apply;
    if a == [] {
      assert a + b == b;
    } else {
      assert (a + b)[1..] == a[1..] + b;
      ExecConcat(digest, Apply(w, a[0]), a[1..], b);
    }
  }

  /** So every state a run reaches from an empty Space, stopped anywhere, satisfies the invariant. */
  lemma EveryReachableWorld(digest: Digest, cutoff: int, actions: seq<Action>)
    requires IsRun(digest, EmptyWorld(cutoff), actions)
    ensures Inv(digest, Exec(EmptyWorld(cutoff), actions))
  {
    hide Inv, Enabled, Apply;
    EmptyWorldInv(digest, cutoff);
    RunKeepsInv(digest, EmptyWorld(cutoff), actions);
  }

  // ----- reachability -----

  ghost predicate Linked(edges: set<Edge>, parent: Hash, child: Hash) {
    exists e :: e in edges && e.parent == parent && e.child == child
  }

  // A path along edges, parents first.
  ghost predicate IsPath(edges: set<Edge>, path: seq<Hash>) {
    path != [] && forall i :: 0 <= i < |path| - 1 ==> Linked(edges, path[i], path[i + 1])
  }

  // Root-referenced, or leased past the cutoff.
  ghost predicate Pinned(w: World, cutoff: int, hash: Hash) {
    hash in w.store.tables.nodes
    && (w.store.tables.nodes[hash].rootRefCount > 0 || w.store.tables.nodes[hash].leaseExpiresAt > cutoff)
  }

  ghost predicate Protects(w: World, cutoff: int, path: seq<Hash>) {
    IsPath(w.store.edges, path) && Pinned(w, cutoff, path[0])
  }

  // What collection must not take from a protected node.
  ghost predicate Kept(w: World, w': World, hash: Hash) {
    && hash in w.store.tables.nodes && hash in w'.store.tables.nodes
    && hash in w.store.objects && hash in w'.store.objects
    && w'.store.objects[hash] == w.store.objects[hash]
    && Out(w'.store.edges, hash) == Out(w.store.edges, hash)
    && w'.store.tables.nodes[hash].contentSize == w.store.tables.nodes[hash].contentSize
    && w'.store.tables.nodes[hash].contentType == w.store.tables.nodes[hash].contentType
  }

  // ----- collection is safe -----

  // Below an anchor whose object is present every node is referenced, so its object is present too.
  lemma ProtectedIsReferenced(digest: Digest, w: World, cutoff: int, path: seq<Hash>, i: nat)
    requires Inv(digest, w) && Protects(w, cutoff, path) && i < |path| && path[0] in w.store.objects
    ensures path[i] in w.store.tables.nodes && path[i] in w.store.objects
    ensures !Unreferenced(w.store.tables.nodes[path[i]]) || w.store.tables.nodes[path[i]].leaseExpiresAt > cutoff
  {
    hide Consistent, ParseNode, RowsDescribed, ObjectsAddressed, UploadsWitnessed;
    if i > 0 {
      assert Linked(w.store.edges, path[i - 1], path[i]);
      var e :| e in w.store.edges && e.parent == path[i - 1] && e.child == path[i];
      assert e in In(w.store.edges, path[i]);
    }
  }

  // What one action can change about nodes other than the one it deletes.
  ghost predicate KeepsAllBut(w: World, w': World, victim: Option<Hash>) {
    forall h :: h in w.store.tables.nodes && Some(h) != victim ==>
      && h in w'.store.tables.nodes
      && Out(w'.store.edges, h) == Out(w.store.edges, h)
      && w'.store.tables.nodes[h].contentSize == w.store.tables.nodes[h].contentSize
      && w'.store.tables.nodes[h].contentType == w.store.tables.nodes[h].contentType
      && (h in w.store.objects ==> h in w'.store.objects && w'.store.objects[h] == w.store.objects[h])
  }

  ghost function Victim(a: Action): Option<Hash> {
    match a
    case DeleteObject(hash, _) => Some(hash)
    case CommitDeletion(hash, _) => Some(hash)
    case _ => None
  }

  lemma PublicationKeepsOthers(digest: Digest, w: World, a: Action)
    requires Inv(digest, w) && Enabled(digest, w, a) && a.CommitNode?
    ensures KeepsAllBut(w, Apply(w, a), None)
  {
    hide Inv, CommitNodeBatch, Describes, Witnessed, IsGrouping;
    var CommitNode(hash, v, lease, at) := a;
    CommitNodeCommits(digest, w, hash, v, lease, at);
    forall h | h in w.store.tables.nodes
      ensures Out(Apply(w, a).store.edges, h) == Out(w.store.edges, h)
    {
    }
  }

  lemma DeletionKeepsOthers(digest: Digest, w: World, a: Action)
    requires Inv(digest, w) && Enabled(digest, w, a) && a.CommitDeletion?
    ensures KeepsAllBut(w, Apply(w, a), Some(a.hash))
  {
    hide Inv, CommitDeletionBatch, Describes, Witnessed, IsGrouping;
    CommitDeletionCommits(digest, w, a.hash, a.children);
    forall h | h in w.store.tables.nodes && h != a.hash
      ensures Out(Apply(w, a).store.edges, h) == Out(w.store.edges, h)
    {
    }
  }

  /** No action touches the content, the edges or the row identity of a node it does not delete. */
  lemma ActionKeepsOthers(digest: Digest, w: World, a: Action)
    requires Inv(digest, w) && Enabled(digest, w, a)
    ensures KeepsAllBut(w, Apply(w, a), Victim(a))
  {
    hide Inv, Enabled, Apply, KeepsAllBut;
    if a.CommitNode? {
      PublicationKeepsOthers(digest, w, a);
    } else if a.CommitDeletion? {
      DeletionKeepsOthers(digest, w, a);
    } else {
      StatementKeepsOthers(digest, w, a);
    }
  }

  lemma StatementKeepsOthers(digest: Digest, w: World, a: Action)
    requires Inv(digest, w) && Enabled(digest, w, a) && !a.CommitNode? && !a.CommitDeletion?
    ensures KeepsAllBut(w, Apply(w, a), Victim(a))
  {
    hide Inv, UpdateRootsBatch, ObserveStatement, RenewLeaseStatement, StageValidationBatch, ExpireUploadBatch;
    hide Describes, Witnessed;
    StepKeepsInv(digest, w, a);
    match a {
      case UpdateRoots(entries) => UpdateRootsShape(w.store, entries, 0);
      case Observe(hash, stored, at) => ObserveShape(w.store, hash, stored, at);
      case ForgetObject(hash, at) => ObserveShape(w.store, hash, None, at);
      case RenewLease(hash, lease) => RenewLeaseCommits(digest, w, hash, lease);
      case StageValidation(hash, generation, v, _) => StageValidationShape(w.store, hash, generation, v);
      case ExpireUpload(hash, generation) => ExpireUploadShape(w.store, hash, generation);
      case _ =>
    }
  }

  lemma ObserveShape(s: Store, hash: Hash, stored: Option<nat>, at: nat)
    requires ObserveStatement(s, hash, stored, at).Ok?
    ensures var s' := ObserveStatement(s, hash, stored, at).value;
            && SameElsewhere(s, s')
            && s'.tables.nodes == if hash in s.tables.nodes
                                  then s.tables.nodes[hash := s.tables.nodes[hash].(storedBytes := stored, observedAt := Some(at))]
                                  else s.tables.nodes
  {
    hide UpdateNode;
    if hash in s.tables.nodes {
      UpdateNodeShape(s.tables, hash, s.tables.nodes[hash].(storedBytes := stored, observedAt := Some(at)));
    }
  }

  lemma StageValidationShape(s: Store, hash: Hash, generation: Key, v: Validation)
    requires StageValidationBatch(s, hash, generation, v).Ok?
    ensures var s' := StageValidationBatch(s, hash, generation, v).value;
            && s' == s.(tables := s'.tables, uploads := s'.uploads)
            && s'.tables.nodes == s.tables.nodes
  {
  }

  lemma ExpireUploadShape(s: Store, hash: Hash, generation: Key)
    requires ExpireUploadBatch(s, hash, generation).Ok?
    ensures var s' := ExpireUploadBatch(s, hash, generation).value;
            && s' == s.(tables := s'.tables, uploads := s'.uploads)
            && s'.tables.nodes == s.tables.nodes
  {
  }

  // A node that something references or pins is never the one an action deletes.
  lemma VictimIsUnprotected(digest: Digest, w: World, a: Action, cutoff: int, path: seq<Hash>, i: nat)
    requires Inv(digest, w) && Enabled(digest, w, a)
    requires Protects(w, cutoff, path) && i < |path| && path[0] in w.store.objects
    requires a.DeleteObject? ==> a.cutoff <= cutoff
    ensures Some(path[i]) != Victim(a)
  {
    hide Inv, IsGrouping;
    ProtectedIsReferenced(digest, w, cutoff, path, i);
  }

  /** One action keeps a protected path and every node on it, whatever the action is. */
  lemma ActionKeepsPath(digest: Digest, w: World, a: Action, cutoff: int, path: seq<Hash>)
    requires Inv(digest, w) && Enabled(digest, w, a)
    requires Protects(w, cutoff, path) && path[0] in w.store.objects
    requires a.DeleteObject? ==> a.cutoff <= cutoff
    ensures IsPath(Apply(w, a).store.edges, path)
    ensures forall i :: 0 <= i < |path| ==> Kept(w, Apply(w, a), path[i])
  {
    hide Inv, Enabled, Batch;
    var w' := Apply(w, a);
    ActionKeepsOthers(digest, w, a);
    forall i | 0 <= i < |path|
      ensures Kept(w, w', path[i])
    {
      ProtectedIsReferenced(digest, w, cutoff, path, i);
      VictimIsUnprotected(digest, w, a, cutoff, path, i);
    }
    forall i | 0 <= i < |path| - 1
      ensures Linked(w'.store.edges, path[i], path[i + 1])
    {
      assert Linked(w.store.edges, path[i], path[i + 1]);
      var e :| e in w.store.edges && e.parent == path[i] && e.child == path[i + 1];
      assert Kept(w, w', path[i]);
      assert e in Out(w.store.edges, path[i]);
      assert e in Out(w'.store.edges, path[i]);
    }
  }

  // No collection in the run uses a cutoff past this one.
  ghost predicate CutoffsWithin(actions: seq<Action>, cutoff: int) {
    forall i :: 0 <= i < |actions| && actions[i].DeleteObject? ==> actions[i].cutoff <= cutoff
  }

  // The anchor stays pinned before every action of the run.
  ghost predicate PinnedThroughout(w: World, actions: seq<Action>, cutoff: int, anchor: Hash)
    decreases |actions|
  {
    Pinned(w, cutoff, anchor)
    && (actions != [] ==> PinnedThroughout(Apply(w, actions[0]), actions[1..], cutoff, anchor))
  }

  /**
   * Collection is safe. Over any run whose collections use no cutoff past `cutoff`, everything
   * reachable from a node that stays pinned keeps its row, its edges and its canonical object,
   * byte for byte. The run may stop anywhere, also between deleting an object and its row, and
   * earlier collections may have used any cutoff: all it takes is that they left the node's object.
   */
  lemma {:induction false} CollectionIsSafe(digest: Digest, w: World, actions: seq<Action>, cutoff: int, path: seq<Hash>)
    requires Inv(digest, w) && IsRun(digest, w, actions)
    requires CutoffsWithin(actions, cutoff)
    requires IsPath(w.store.edges, path) && path[0] in w.store.objects && PinnedThroughout(w, actions, cutoff, path[0])
    ensures IsPath(Exec(w, actions).store.edges, path)
    ensures forall i :: 0 <= i < |path| ==> Kept(w, Exec(w, actions), path[i])
    decreases |actions|
  {
    hide Inv, Enabled, Apply;
    if actions == [] {
      forall i | 0 <= i < |path|
        ensures Kept(w, w, path[i])
      {
        ProtectedIsReferenced(digest, w, cutoff, path, i);
      }
    } else {
      var w' := Apply(w, actions[0]);
      StepKeepsInv(digest, w, actions[0]);
      ActionKeepsPath(digest, w, actions[0], cutoff, path);
      assert Kept(w, w', path[0]);
      CollectionIsSafe(digest, w', actions[1..], cutoff, path);
      forall i | 0 <= i < |path|
        ensures Kept(w, Exec(w, actions), path[i])
      {
        assert Kept(w, w', path[i]) && Kept(w', Exec(w, actions), path[i]);
      }
    }
  }

  // ----- leases keep their promise -----

  // An action's effect on the rows there are, their leases and root counts, and the objects.
  ghost predicate MovesRows(s: Store, s': Store, a: Action) {
    && s'.tables.nodes.Keys == (match a
                                case CommitNode(hash, _, _, _) => s.tables.nodes.Keys + {hash}
                                case CommitDeletion(hash, _) => s.tables.nodes.Keys - {hash}
                                case _ => s.tables.nodes.Keys)
    && s'.objects.Keys == (match a
                           case PutCanonical(hash, _) => s.objects.Keys + {hash}
                           case DeleteObject(hash, _) => s.objects.Keys - {hash}
                           case _ => s.objects.Keys)
    && (forall h :: h in s.tables.nodes && h in s'.tables.nodes ==> MovesRow(s.tables.nodes[h], s'.tables.nodes[h], a))
    && (a.CommitNode? ==> s'.tables.nodes[a.hash].rootRefCount == 0)
  }

  ghost predicate MovesRow(row: NodeRow, row': NodeRow, a: Action) {
    && row.leaseStartedAt <= row'.leaseStartedAt && row.leaseExpiresAt <= row'.leaseExpiresAt
    && (!a.UpdateRoots? ==> row'.rootRefCount == row.rootRefCount)
  }

  lemma ActionMovesRows(digest: Digest, w: World, a: Action)
    requires Inv(digest, w) && Enabled(digest, w, a)
    ensures MovesRows(w.store, Apply(w, a).store, a)
  {
    if a.CommitNode? || a.CommitDeletion? || a.UpdateRoots? {
      BatchMovesRows(digest, w, a);
    } else {
      StatementMovesRows(digest, w, a);
    }
  }

  lemma BatchMovesRows(digest: Digest, w: World, a: Action)
    requires Inv(digest, w) && Enabled(digest, w, a) && (a.CommitNode? || a.CommitDeletion? || a.UpdateRoots?)
    ensures MovesRows(w.store, Apply(w, a).store, a)
  {
    hide Inv, CommitNodeBatch, CommitDeletionBatch, UpdateRootsBatch, Describes, Witnessed, IsGrouping;
    StepKeepsInv(digest, w, a);
    match a {
      case CommitNode(h, v, lease, at) => CommitNodeCommits(digest, w, h, v, lease, at);
      case CommitDeletion(h, children) => CommitDeletionCommits(digest, w, h, children);
      case UpdateRoots(entries) => UpdateRootsShape(w.store, entries, 0);
    }
  }

  lemma StatementMovesRows(digest: Digest, w: World, a: Action)
    requires Inv(digest, w) && Enabled(digest, w, a) && !a.CommitNode? && !a.CommitDeletion? && !a.UpdateRoots?
    ensures MovesRows(w.store, Apply(w, a).store, a)
  {
    hide Inv, ObserveStatement, RenewLeaseStatement, StageValidationBatch, ExpireUploadBatch, Describes, Witnessed;
    StepKeepsInv(digest, w, a);
    match a {
      case Observe(h, stored, at) => ObserveShape(w.store, h, stored, at);
      case ForgetObject(h, at) => ObserveShape(w.store, h, None, at);
      case RenewLease(h, lease) => RenewLeaseCommits(digest, w, h, lease);
      case StageValidation(h, generation, v, _) => StageValidationShape(w.store, h, generation, v);
      case ExpireUpload(h, generation) => ExpireUploadShape(w.store, h, generation);
      case _ =>
    }
  }

  /** No action moves a live node's lease backwards. */
  lemma LeaseNeverDecreases(digest: Digest, w: World, a: Action, hash: Hash)
    requires Inv(digest, w) && Enabled(digest, w, a)
    requires hash in w.store.tables.nodes && hash in Apply(w, a).store.tables.nodes
    ensures var row, row' := w.store.tables.nodes[hash], Apply(w, a).store.tables.nodes[hash];
            row.leaseStartedAt <= row'.leaseStartedAt && row.leaseExpiresAt <= row'.leaseExpiresAt
  {
    hide Inv, Enabled, Apply;
    ActionMovesRows(digest, w, a);
  }

  // A node leased past every cutoff of the run stays pinned by that lease.
  lemma {:induction false} LeaseStaysPinned(digest: Digest, w: World, actions: seq<Action>, cutoff: int, anchor: Hash)
    requires Inv(digest, w) && IsRun(digest, w, actions)
    requires CutoffsWithin(actions, cutoff) && anchor in w.store.objects
    requires anchor in w.store.tables.nodes && w.store.tables.nodes[anchor].leaseExpiresAt > cutoff
    ensures PinnedThroughout(w, actions, cutoff, anchor)
    decreases |actions|
  {
    hide Inv, Enabled, Apply;
    if actions != [] {
      var a := actions[0];
      StepKeepsInv(digest, w, a);
      ActionKeepsPath(digest, w, a, cutoff, [anchor]);
      assert Kept(w, Apply(w, a), [anchor][0]);
      LeaseNeverDecreases(digest, w, a, anchor);
      LeaseStaysPinned(digest, Apply(w, a), actions[1..], cutoff, anchor);
    }
  }

  // Only a root update changes a live node's root count.
  lemma RootCountStays(digest: Digest, w: World, a: Action, hash: Hash)
    requires Inv(digest, w) && Enabled(digest, w, a) && !a.UpdateRoots?
    requires hash in w.store.tables.nodes && hash in Apply(w, a).store.tables.nodes
    ensures Apply(w, a).store.tables.nodes[hash].rootRefCount == w.store.tables.nodes[hash].rootRefCount
  {
    hide Inv, Enabled, Apply;
    ActionMovesRows(digest, w, a);
  }

  // Between root updates a pinned node stays pinned.
  lemma {:induction false} StaysPinned(digest: Digest, w: World, actions: seq<Action>, cutoff: int, anchor: Hash)
    requires Inv(digest, w) && IsRun(digest, w, actions)
    requires CutoffsWithin(actions, cutoff)
    requires forall i :: 0 <= i < |actions| ==> !actions[i].UpdateRoots?
    requires Pinned(w, cutoff, anchor) && anchor in w.store.objects
    ensures PinnedThroughout(w, actions, cutoff, anchor)
    decreases |actions|
  {
    hide Inv, Enabled, Apply;
    if actions != [] {
      var a := actions[0];
      StepKeepsInv(digest, w, a);
      ActionKeepsPath(digest, w, a, cutoff, [anchor]);
      assert Kept(w, Apply(w, a), [anchor][0]);
      LeaseNeverDecreases(digest, w, a, anchor);
      RootCountStays(digest, w, a, anchor);
      StaysPinned(digest, Apply(w, a), actions[1..], cutoff, anchor);
    }
  }

  /** A lease keeps its promise: until it expires, no collection removes the node or a descendant of it. */
  lemma LeaseKeepsItsPromise(digest: Digest, w: World, actions: seq<Action>, cutoff: int, path: seq<Hash>)
    requires Inv(digest, w) && IsRun(digest, w, actions)
    requires CutoffsWithin(actions, cutoff)
    requires IsPath(w.store.edges, path) && path[0] in w.store.objects
    requires path[0] in w.store.tables.nodes && w.store.tables.nodes[path[0]].leaseExpiresAt > cutoff
    ensures IsPath(Exec(w, actions).store.edges, path)
    ensures forall i :: 0 <= i < |path| ==> Kept(w, Exec(w, actions), path[i])
  {
    hide Inv, Enabled, Apply;
    LeaseStaysPinned(digest, w, actions, cutoff, path[0]);
    CollectionIsSafe(digest, w, actions, cutoff, path);
  }

  /**
   * So does a granted one, whatever clocks earlier collections read: from the renewal or publication
   * that grants it on, everything the node reaches is kept by every run that stays below its expiry.
   */
  lemma GrantKeepsItsPromise(digest: Digest, w: World, grant: Action, actions: seq<Action>, cutoff: int, path: seq<Hash>)
    requires Inv(digest, w) && Enabled(digest, w, grant) && (grant.RenewLease? || grant.CommitNode?)
    requires IsRun(digest, Apply(w, grant), actions) && CutoffsWithin(actions, cutoff) && cutoff < grant.lease.expiresAt
    requires IsPath(Apply(w, grant).store.edges, path) && path[0] == grant.hash
    ensures IsPath(Exec(Apply(w, grant), actions).store.edges, path)
    ensures forall i :: 0 <= i < |path| ==> Kept(Apply(w, grant), Exec(Apply(w, grant), actions), path[i])
  {
    hide Inv, Enabled, Apply, IsRun, Exec, Kept;
    StepKeepsInv(digest, w, grant);
    GrantLeasesPresentNode(digest, w, grant);
    LeaseKeepsItsPromise(digest, Apply(w, grant), actions, cutoff, path);
  }

  lemma GrantLeasesPresentNode(digest: Digest, w: World, grant: Action)
    requires Inv(digest, w) && Enabled(digest, w, grant) && (grant.RenewLease? || grant.CommitNode?)
    ensures var s' := Apply(w, grant).store;
            && grant.hash in s'.objects && grant.hash in s'.tables.nodes
            && s'.tables.nodes[grant.hash].leaseExpiresAt == grant.lease.expiresAt
  {
    hide Inv, CommitNodeBatch, RenewLeaseStatement, Describes, Witnessed;
    if grant.RenewLease? {
      RenewLeaseCommits(digest, w, grant.hash, grant.lease);
    } else {
      CommitNodeCommits(digest, w, grant.hash, grant.validation, grant.lease, grant.at);
    }
  }

  /** A root-referenced node has its object, and so has one leased past every cutoff there was. */
  lemma AnchorIsPresent(digest: Digest, w: World, hash: Hash)
    requires Inv(digest, w) && hash in w.store.tables.nodes
    requires w.store.tables.nodes[hash].rootRefCount > 0 || w.store.tables.nodes[hash].leaseExpiresAt > w.history.cutoff
    ensures hash in w.store.objects
  {
    hide Consistent, ParseNode, GraphInv, RowsDescribed, ObjectsAddressed, UploadsWitnessed;
  }

  // ----- temporary objects -----

  ghost predicate DeletesKey(a: Action, key: Key) {
    a.DeleteTemporary? && a.key == key
  }

  lemma ActionKeepsTemporary(digest: Digest, w: World, a: Action, key: Key)
    requires Inv(digest, w) && Enabled(digest, w, a) && key in w.store.temporary && !DeletesKey(a, key)
    ensures key in Apply(w, a).store.temporary && Apply(w, a).store.temporary[key] == w.store.temporary[key]
  {
    hide Inv, CommitNodeBatch, CommitDeletionBatch, UpdateRootsBatch, ObserveStatement, RenewLeaseStatement;
    hide StageValidationBatch, ExpireUploadBatch, Describes, Witnessed, IsGrouping;
    StepKeepsInv(digest, w, a);
    match a {
      case CommitNode(h, v, lease, at) => CommitNodeCommits(digest, w, h, v, lease, at);
      case CommitDeletion(h, children) => CommitDeletionCommits(digest, w, h, children);
      case UpdateRoots(entries) => UpdateRootsShape(w.store, entries, 0);
      case Observe(h, stored, at) => ObserveShape(w.store, h, stored, at);
      case ForgetObject(h, at) => ObserveShape(w.store, h, None, at);
      case RenewLease(h, lease) => RenewLeaseCommits(digest, w, h, lease);
      case StageValidation(h, generation, v, _) => StageValidationShape(w.store, h, generation, v);
      case ExpireUpload(h, generation) => ExpireUploadShape(w.store, h, generation);
      case _ =>
    }
  }

  /** An uploaded object is never replaced: it stays byte for byte until its key is deleted. */
  lemma {:induction false} UploadedObjectStays(digest: Digest, w: World, actions: seq<Action>, key: Key)
    requires Inv(digest, w) && IsRun(digest, w, actions) && key in w.store.temporary
    requires forall i :: 0 <= i < |actions| ==> !DeletesKey(actions[i], key)
    ensures key in Exec(w, actions).store.temporary
    ensures Exec(w, actions).store.temporary[key] == w.store.temporary[key]
    decreases |actions|
  {
    hide Inv, Enabled, Apply;
    if actions != [] {
      StepKeepsInv(digest, w, actions[0]);
      ActionKeepsTemporary(digest, w, actions[0], key);
      UploadedObjectStays(digest, Apply(w, actions[0]), actions[1..], key);
    }
  }

  // ----- collection is complete -----

  ghost predicate Anchored(w: World, cutoff: int, hash: Hash) {
    Pinned(w, cutoff, hash) || (hash in w.store.tables.nodes && Reserved(w.store, cutoff, hash))
  }

  // A path from an anchor to a node that a completed collection left behind.
  lemma {:induction false} LeftoverHasAnchor(digest: Digest, w: World, cutoff: int, hash: Hash) returns (path: seq<Hash>)
    requires Inv(digest, w) && hash in w.store.tables.nodes
    requires forall h :: !Eligible(w.store, cutoff, h)
    ensures IsPath(w.store.edges, path) && path[|path| - 1] == hash && Anchored(w, cutoff, path[0])
    decreases w.history.next - w.history.rank[hash]
  {
    hide Consistent, ParseNode, RowsDescribed, ObjectsAddressed, UploadsWitnessed, MissingOnlyExpired;
    assert !Eligible(w.store, cutoff, hash);
    if Anchored(w, cutoff, hash) {
      path := [hash];
    } else {
      var row := w.store.tables.nodes[hash];
      assert |In(w.store.edges, hash)| == row.childRefCount;
      LegalCount(w.store.tables, hash);
      assert In(w.store.edges, hash) != {};
      var e :| e in In(w.store.edges, hash);
      var above := LeftoverHasAnchor(digest, w, cutoff, e.parent);
      path := above + [hash];
      assert Linked(w.store.edges, e.parent, hash);
      forall i | 0 <= i < |path| - 1
        ensures Linked(w.store.edges, path[i], path[i + 1])
      {
        if i < |above| - 1 {
          assert Linked(w.store.edges, above[i], above[i + 1]);
        }
      }
    }
  }

  lemma LegalCount(m: Metered, hash: Hash)
    requires Consistent(m) && hash in m.nodes
    ensures m.nodes[hash].childRefCount >= 0 && m.nodes[hash].rootRefCount >= 0
  {
    assert LegalRow(m.nodes[hash]);
  }

  /** Collection is complete: when nothing is eligible, the rows are exactly the nodes an anchor reaches. */
  lemma CollectionIsComplete(digest: Digest, w: World, cutoff: int, hash: Hash)
    requires Inv(digest, w) && forall h :: !Eligible(w.store, cutoff, h)
    ensures hash in w.store.tables.nodes <==>
            exists path :: IsPath(w.store.edges, path) && path[|path| - 1] == hash && Anchored(w, cutoff, path[0])
  {
    if hash in w.store.tables.nodes {
      var path := LeftoverHasAnchor(digest, w, cutoff, hash);
    }
    forall path | IsPath(w.store.edges, path) && path[|path| - 1] == hash && Anchored(w, cutoff, path[0])
      ensures hash in w.store.tables.nodes
    {
      hide Consistent, ParseNode, RowsDescribed, ObjectsAddressed, UploadsWitnessed, MissingOnlyExpired, ExactCounts;
      if |path| > 1 {
        assert Linked(w.store.edges, path[|path| - 2], path[|path| - 1]);
      }
    }
  }

  // ----- published metadata is true -----

  // The children of a node, in ordinal order, are these.
  ghost predicate OrderedRefs(edges: set<Edge>, hash: Hash, refs: seq<Hash>) {
    Out(edges, hash) == EdgesFrom(hash, refs, 0)
  }

  /**
   * Whatever clients uploaded and wherever evaluations stopped, a node row states what its
   * canonical object parses to: size, content type, ordered references and stored length.
   */
  lemma PublishedMetadataIsTrue(digest: Digest, w: World, hash: Hash)
    requires Inv(digest, w) && CollisionFree(digest, w.history.seen)
    requires hash in w.store.tables.nodes && hash in w.store.objects
    ensures var row := w.store.tables.nodes[hash];
            var content := w.store.objects[hash];
            var parsed := ParseNode(content, DEFAULT_LIMITS);
            && digest(content) == hash && parsed.Ok?
            && row.contentSize == parsed.value.contentSize && row.contentType == parsed.value.contentType
            && OrderedRefs(w.store.edges, hash, parsed.value.refs)
            && (row.storedBytes.Some? ==> row.storedBytes.value == |content|)
  {
    hide Consistent, ParseNode, GraphInv, UploadsWitnessed, MissingOnlyExpired;
    var row := w.store.tables.nodes[hash];
    var content :| content in w.history.seen && RowDescribes(digest, w.store.edges, hash, row, content);
    assert content == w.store.objects[hash];
    if row.storedBytes.Some? {
      var c :| c in w.history.seen && digest(c) == hash && |c| == row.storedBytes.value;
      assert c == content;
    }
  }

  /** A staged validation always describes bytes that have the node's digest. */
  lemma StagedValidationIsTrue(digest: Digest, w: World, hash: Hash, content: bytes)
    requires Inv(digest, w) && CollisionFree(digest, w.history.seen)
    requires hash in w.store.uploads && w.store.uploads[hash].validation.Some?
    requires content in w.history.seen && digest(content) == hash
    ensures Describes(digest, hash, w.store.uploads[hash].validation.value, content)
  {
    hide Consistent, ParseNode, GraphInv, RowsDescribed, ObjectsAddressed, MissingOnlyExpired;
    var v := w.store.uploads[hash].validation.value;
    var c :| c in w.history.seen && Describes(digest, hash, v, c);
    assert c == content;
  }

  /** So a read driven by the tables serves the content of the node that was stored under the hash. */
  lemma PublishedContentIsServed(digest: Digest, w: World, hash: Hash, refs: seq<Hash>, header: Option<string>)
    requires Inv(digest, w) && CollisionFree(digest, w.history.seen)
    requires hash in w.store.tables.nodes && hash in w.store.objects && OrderedRefs(w.store.edges, hash, refs)
    ensures exists node :: LegalNode(node, DEFAULT_LIMITS) && digest(Encode(node)) == hash && node.refs == refs
              && var row := w.store.tables.nodes[hash];
                 NodeRead.Serves(
                   NodeRead.ReadNodeContent(Some(Metadata(row.contentSize, row.contentType, refs)),
                                            Some(w.store.objects[hash]), header),
                   node.content, header)
  {
    hide Inv, NodeRead.Serves, NodeRead.ReadNodeContent, ParseNode, LegalNode, Encode;
    PublishedMetadataIsTrue(digest, w, hash);
    var content := w.store.objects[hash];
    var m := ParseNode(content, DEFAULT_LIMITS).value;
    SameRefs(hash, refs, m.refs);
    ParseThenEncode(content, DEFAULT_LIMITS);
    var node := Node(m.contentType, m.refs, content[PrefixLength(m.contentType, m.refs)..]);
    NodeRead.ReadsTheContent(node, m, header);
    assert LegalNode(node, DEFAULT_LIMITS) && digest(Encode(node)) == hash && node.refs == refs;
  }

  lemma SameRefs(hash: Hash, a: seq<Hash>, b: seq<Hash>)
    requires EdgesFrom(hash, a, 0) == EdgesFrom(hash, b, 0)
    ensures a == b
  {
    PrefixOf(hash, a, b);
    PrefixOf(hash, b, a);
  }

  lemma PrefixOf(hash: Hash, a: seq<Hash>, b: seq<Hash>)
    requires EdgesFrom(hash, a, 0) <= EdgesFrom(hash, b, 0)
    ensures a <= b
  {
    forall i | 0 <= i < |a|
      ensures i < |b| && b[i] == a[i]
    {
      assert Edge(hash, i, a[i]) in EdgesFrom(hash, b, 0);
    }
    if |a| > 0 {
      assert Edge(hash, |a| - 1, a[|a| - 1]) in EdgesFrom(hash, b, 0);
    }
  }
}
