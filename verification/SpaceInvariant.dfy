// Every atomic action whose guard holds commits (no constraint, guard trigger or
// unique key ever aborts it) and keeps the invariant of the Space.
module SpaceInvariant {
  import opened Prelude
  import opened UsageProjection
  import opened Codec
  import opened SpaceStore

  // ----- edge sets -----

  lemma InAdd(edges: set<Edge>, e: Edge, child: Hash)
    requires e !in edges
    ensures |In(edges + {e}, child)| == |In(edges, child)| + if e.child == child then 1 else 0
  {
    assert In(edges + {e}, child) == if e.child == child then In(edges, child) + {e} else In(edges, child);
  }

  lemma InRemoveParent(edges: set<Edge>, parent: Hash, child: Hash)
    ensures |In(edges, child)| == |In(edges - Out(edges, parent), child)| + |Between(edges, parent, child)|
  {
    assert In(edges, child) == In(edges - Out(edges, parent), child) + Between(edges, parent, child);
  }

  // ----- updates of one count -----

  // Two node tables that differ in child counts only.
  ghost predicate SameButChildCounts(a: map<Hash, NodeRow>, b: map<Hash, NodeRow>) {
    && a.Keys == b.Keys
    && forall h :: h in a ==> b[h] == a[h].(childRefCount := b[h].childRefCount)
  }

  // Everything but the node rows and the projection row.
  ghost predicate SameElsewhere(a: Store, b: Store) {
    b == a.(tables := b.tables) && b.tables.reservations == a.tables.reservations
  }

  // What a committed update changes; and when it commits.
  lemma UpdateNodeShape(m: Metered, hash: Hash, row: NodeRow)
    requires UpdateNode(m, hash, row).Ok?
    ensures var m' := UpdateNode(m, hash, row).value;
            && m'.reservations == m.reservations
            && m'.nodes == if hash in m.nodes then m.nodes[hash := row] else m.nodes
  {
  }

  lemma ShiftChildCountShape(s: Store, hash: Hash, delta: int)
    requires ShiftChildCount(s, hash, delta).Ok?
    ensures var s' := ShiftChildCount(s, hash, delta).value;
            && SameElsewhere(s, s') && SameButChildCounts(s.tables.nodes, s'.tables.nodes)
            && forall h :: h in s.tables.nodes ==>
                 s'.tables.nodes[h].childRefCount == s.tables.nodes[h].childRefCount + if h == hash then delta else 0
  {
    if hash in s.tables.nodes {
      var row := s.tables.nodes[hash];
      UpdateNodeShape(s.tables, hash, row.(childRefCount := row.childRefCount + delta));
    }
  }

  lemma ShiftChildCountCommits(s: Store, hash: Hash, delta: int)
    requires Consistent(s.tables)
    requires hash in s.tables.nodes ==> s.tables.nodes[hash].childRefCount + delta >= 0
    ensures ShiftChildCount(s, hash, delta).Ok? && Consistent(ShiftChildCount(s, hash, delta).value.tables)
  {
    hide UpdateNode;
    if hash in s.tables.nodes {
      var row := s.tables.nodes[hash];
      UpdateNodeKeeps(s.tables, hash, row.(childRefCount := row.childRefCount + delta));
      assert LegalRow(row);
    }
  }

  ghost predicate FreeFrom(edges: set<Edge>, parent: Hash, i: nat) {
    forall e :: e in edges && e.parent == parent ==> e.ordinal < i
  }

  lemma AddEdgeCommits(s: Store, parent: Hash, i: nat, child: Hash)
    requires Consistent(s.tables) && FreeFrom(s.edges, parent, i)
    ensures AddEdge(s, Edge(parent, i, child)).Ok? && Consistent(AddEdge(s, Edge(parent, i, child)).value.tables)
  {
    assert child in s.tables.nodes ==> LegalRow(s.tables.nodes[child]);
    ShiftChildCountCommits(s.(edges := s.edges + {Edge(parent, i, child)}), child, 1);
  }

  lemma AddEdgeShape(s: Store, e: Edge)
    requires AddEdge(s, e).Ok? && e !in s.edges
    ensures var s' := AddEdge(s, e).value;
            && s'.edges == s.edges + {e}
            && SameElsewhere(s.(edges := s'.edges), s')
            && SameButChildCounts(s.tables.nodes, s'.tables.nodes)
            && (ExactCounts(s.tables.nodes, s.edges) ==> ExactCounts(s'.tables.nodes, s'.edges))
  {
    ShiftChildCountShape(s.(edges := s.edges + {e}), e.child, 1);
    forall h | h in s.tables.nodes {
      InAdd(s.edges, e, h);
    }
  }

  /** Linking a node commits edge by edge. */
  lemma {:induction false} AddEdgesCommits(s: Store, parent: Hash, refs: seq<Hash>, i: nat)
    requires i <= |refs| && Consistent(s.tables) && FreeFrom(s.edges, parent, i)
    ensures AddEdges(s, parent, refs, i).Ok? && Consistent(AddEdges(s, parent, refs, i).value.tables)
    decreases |refs| - i
  {
    if i < |refs| {
      AddEdgeCommits(s, parent, i, refs[i]);
      AddEdgeShape(s, Edge(parent, i, refs[i]));
      AddEdgesCommits(AddEdge(s, Edge(parent, i, refs[i])).value, parent, refs, i + 1);
    }
  }

  /** It adds one edge and one count at a time, and stays exact at every step. */
  lemma {:induction false} AddEdgesShape(s: Store, parent: Hash, refs: seq<Hash>, i: nat)
    requires i <= |refs| && AddEdges(s, parent, refs, i).Ok? && FreeFrom(s.edges, parent, i)
    ensures var s' := AddEdges(s, parent, refs, i).value;
            && s'.edges == s.edges + EdgesFrom(parent, refs, i)
            && SameElsewhere(s.(edges := s'.edges), s')
            && SameButChildCounts(s.tables.nodes, s'.tables.nodes)
            && (ExactCounts(s.tables.nodes, s.edges) ==> ExactCounts(s'.tables.nodes, s'.edges))
    decreases |refs| - i
  {
    if i == |refs| {
      assert s.edges + EdgesFrom(parent, refs, i) == s.edges;
    } else {
      var e := Edge(parent, i, refs[i]);
      AddEdgeShape(s, e);
      AddEdgesShape(AddEdge(s, e).value, parent, refs, i + 1);
      assert EdgesFrom(parent, refs, i) == {e} + EdgesFrom(parent, refs, i + 1);
    }
  }

  // References of `children[i..]` to `h` that are still counted.
  ghost function Pending(children: seq<(Hash, nat)>, i: nat, h: Hash): nat
    requires i <= |children|
    decreases |children| - i
  {
    if i == |children| then 0
    else (if children[i].0 == h then children[i].1 else 0) + Pending(children, i + 1, h)
  }

  lemma {:induction false} PendingAbsent(children: seq<(Hash, nat)>, i: nat, h: Hash)
    requires i <= |children| && forall k :: i <= k < |children| ==> children[k].0 != h
    ensures Pending(children, i, h) == 0
    decreases |children| - i
  {
    if i < |children| {
      PendingAbsent(children, i + 1, h);
    }
  }

  lemma {:induction false} PendingAt(children: seq<(Hash, nat)>, i: nat, at: nat)
    requires i <= at < |children|
    requires forall j, k :: 0 <= j < k < |children| ==> children[j].0 != children[k].0
    ensures Pending(children, i, children[at].0) == children[at].1
    decreases at - i
  {
    if i < at {
      PendingAt(children, i + 1, at);
    } else {
      PendingAbsent(children, i + 1, children[at].0);
    }
  }

  /** A grouping counts each child with its multiplicity among the parent's edges. */
  lemma GroupingCounts(edges: set<Edge>, parent: Hash, children: seq<(Hash, nat)>, h: Hash)
    requires IsGrouping(edges, parent, children)
    ensures Pending(children, 0, h) == |Between(edges, parent, h)|
  {
    if at :| 0 <= at < |children| && children[at].0 == h {
      PendingAt(children, 0, at);
    } else {
      PendingAbsent(children, 0, h);
      assert Between(edges, parent, h) == {};
    }
  }

  ghost predicate CountsPending(s: Store, children: seq<(Hash, nat)>, i: nat)
    requires i <= |children|
  {
    forall h :: h in s.tables.nodes ==> s.tables.nodes[h].childRefCount == |In(s.edges, h)| + Pending(children, i, h)
  }

  lemma DropOneReference(s: Store, children: seq<(Hash, nat)>, i: nat)
    requires i < |children| && CountsPending(s, children, i)
    ensures var r := ShiftChildCount(s, children[i].0, -(children[i].1 as int));
            && (r.Ok? ==>
                  && CountsPending(r.value, children, i + 1) && SameElsewhere(s, r.value)
                  && SameButChildCounts(s.tables.nodes, r.value.tables.nodes))
            && (Consistent(s.tables) ==> r.Ok? && Consistent(r.value.tables))
  {
    hide UpdateNode;
    var (child, count) := children[i];
    if ShiftChildCount(s, child, -(count as int)).Ok? {
      ShiftChildCountShape(s, child, -(count as int));
    }
    if Consistent(s.tables) {
      ShiftChildCountCommits(s, child, -(count as int));
    }
  }

  /** No decrement of the cascade goes below zero. */
  lemma {:induction false} DropReferencesCommits(s: Store, children: seq<(Hash, nat)>, i: nat)
    requires i <= |children| && Consistent(s.tables) && CountsPending(s, children, i)
    ensures DropReferences(s, children, i).Ok? && Consistent(DropReferences(s, children, i).value.tables)
    decreases |children| - i
  {
    if i < |children| {
      DropOneReference(s, children, i);
      DropReferencesCommits(ShiftChildCount(s, children[i].0, -(children[i].1 as int)).value, children, i + 1);
    }
  }

  /** The cascade ends with exact counts and touches nothing else. */
  lemma {:induction false} DropReferencesShape(s: Store, children: seq<(Hash, nat)>, i: nat)
    requires i <= |children| && CountsPending(s, children, i) && DropReferences(s, children, i).Ok?
    ensures var s' := DropReferences(s, children, i).value;
            && SameElsewhere(s, s') && SameButChildCounts(s.tables.nodes, s'.tables.nodes)
            && ExactCounts(s'.tables.nodes, s'.edges)
    decreases |children| - i
  {
    if i < |children| {
      DropOneReference(s, children, i);
      DropReferencesShape(ShiftChildCount(s, children[i].0, -(children[i].1 as int)).value, children, i + 1);
    }
  }

  // ----- node publication -----

  lemma CommitNodeCommits(digest: Digest, w: World, hash: Hash, v: Validation, lease: Lease, at: nat)
    requires Inv(digest, w) && Enabled(digest, w, CommitNode(hash, v, lease, at))
    ensures var r := CommitNodeBatch(w.store, hash, v, lease, at);
            && r.Ok? && Consistent(r.value.tables)
            && r.value == w.store.(tables := r.value.tables, edges := r.value.edges)
            && r.value.tables.reservations == w.store.tables.reservations - {hash}
            && r.value.edges == w.store.edges + EdgesFrom(hash, v.metadata.refs, 0)
            && SameButChildCounts(w.store.tables.nodes[hash := NewRow(v, lease, at)], r.value.tables.nodes)
            && ExactCounts(r.value.tables.nodes, r.value.edges)
  {
    var s := w.store;
    var refs := v.metadata.refs;
    InsertNodeKeeps(s.tables, hash, NewRow(v, lease, at));
    var inserted := s.(tables := InsertNode(s.tables, hash, NewRow(v, lease, at)).value);
    forall h | h in inserted.tables.nodes
      ensures inserted.tables.nodes[h].childRefCount == |In(s.edges, h)|
    {
      if h == hash {
        assert In(s.edges, hash) == {};
      }
    }
    AddEdgesCommits(inserted, hash, refs, 0);
    AddEdgesShape(inserted, hash, refs, 0);
    var linked := AddEdges(inserted, hash, refs, 0).value;
    DeleteReservationKeeps(linked.tables, hash);
  }

  lemma CommitDeletionCommits(digest: Digest, w: World, hash: Hash, children: seq<(Hash, nat)>)
    requires Inv(digest, w) && Enabled(digest, w, CommitDeletion(hash, children))
    ensures var r := CommitDeletionBatch(w.store, hash, children);
            && r.Ok? && Consistent(r.value.tables)
            && r.value == w.store.(tables := r.value.tables, edges := r.value.edges)
            && r.value.tables.reservations == w.store.tables.reservations
            && r.value.edges == w.store.edges - Out(w.store.edges, hash)
            && SameButChildCounts(w.store.tables.nodes - {hash}, r.value.tables.nodes)
            && ExactCounts(r.value.tables.nodes, r.value.edges)
  {
    var s := w.store;
    var unlinked := s.(edges := set e | e in s.edges && e.parent != hash);
    assert unlinked.edges == s.edges - Out(s.edges, hash);
    DeleteNodeKeeps(unlinked.tables, hash);
    var deleted := unlinked.(tables := DeleteNode(unlinked.tables, hash).value);
    forall h | h in deleted.tables.nodes
      ensures deleted.tables.nodes[h].childRefCount == |In(unlinked.edges, h)| + Pending(children, 0, h)
    {
      InRemoveParent(s.edges, hash, h);
      GroupingCounts(s.edges, hash, children, h);
    }
    DropReferencesCommits(deleted, children, 0);
    DropReferencesShape(deleted, children, 0);
  }

  // ----- root reference counts -----

  ghost predicate SameButRootCounts(a: map<Hash, NodeRow>, b: map<Hash, NodeRow>) {
    && a.Keys == b.Keys
    && forall h :: h in a ==> b[h] == a[h].(rootRefCount := b[h].rootRefCount)
  }

  // The count an update leaves on one node.
  ghost function RootDelta(entries: seq<(Hash, int)>, i: nat, h: Hash): int
    requires i <= |entries|
    decreases |entries| - i
  {
    if i == |entries| then 0
    else (if entries[i].0 == h then entries[i].1 else 0) + RootDelta(entries, i + 1, h)
  }

  lemma {:induction false} RootDeltaAbsent(entries: seq<(Hash, int)>, i: nat, h: Hash)
    requires i <= |entries| && forall k :: i <= k < |entries| ==> entries[k].0 != h
    ensures RootDelta(entries, i, h) == 0
    decreases |entries| - i
  {
    if i < |entries| {
      RootDeltaAbsent(entries, i + 1, h);
    }
  }

  lemma {:induction false} RootDeltaAt(entries: seq<(Hash, int)>, i: nat, at: nat)
    requires i <= at < |entries|
    requires forall j, k :: 0 <= j < k < |entries| ==> entries[j].0 != entries[k].0
    ensures RootDelta(entries, i, entries[at].0) == entries[at].1
    decreases at - i
  {
    if i < at {
      RootDeltaAt(entries, i + 1, at);
    } else {
      RootDeltaAbsent(entries, i + 1, entries[at].0);
    }
  }

  ghost predicate RootsAdmit(s: Store, entries: seq<(Hash, int)>, i: nat)
    requires i <= |entries|
  {
    forall k :: i <= k < |entries| ==>
      entries[k].0 in s.tables.nodes && s.tables.nodes[entries[k].0].rootRefCount + entries[k].1 >= 0
  }

  ghost predicate DistinctEntries(entries: seq<(Hash, int)>) {
    forall j, k :: 0 <= j < k < |entries| ==> entries[j].0 != entries[k].0
  }

  lemma UpdateOneRoot(s: Store, entries: seq<(Hash, int)>, i: nat)
    requires i < |entries| && DistinctEntries(entries) && RootsAdmit(s, entries, i)
    ensures var r := ShiftRootCount(s, entries[i].0, entries[i].1);
            && (r.Ok? ==>
                  && SameElsewhere(s, r.value) && SameButRootCounts(s.tables.nodes, r.value.tables.nodes)
                  && RootsAdmit(r.value, entries, i + 1)
                  && forall h :: h in s.tables.nodes ==>
                       r.value.tables.nodes[h].rootRefCount
                       == s.tables.nodes[h].rootRefCount + if h == entries[i].0 then entries[i].1 else 0)
            && (Consistent(s.tables) ==> r.Ok? && Consistent(r.value.tables))
  {
    hide UpdateNode;
    var (hash, delta) := entries[i];
    var row := s.tables.nodes[hash];
    var row' := row.(rootRefCount := row.rootRefCount + delta);
    if UpdateNode(s.tables, hash, row').Ok? {
      UpdateNodeShape(s.tables, hash, row');
    }
    if Consistent(s.tables) {
      assert LegalRow(row);
      UpdateNodeKeeps(s.tables, hash, row');
    }
  }

  /** Every entry of an admitted update commits. */
  lemma {:induction false} UpdateRootsCommits(s: Store, entries: seq<(Hash, int)>, i: nat)
    requires i <= |entries| && Consistent(s.tables) && DistinctEntries(entries) && RootsAdmit(s, entries, i)
    ensures UpdateRootsBatch(s, entries, i).Ok? && Consistent(UpdateRootsBatch(s, entries, i).value.tables)
    decreases |entries| - i
  {
    if i < |entries| {
      UpdateOneRoot(s, entries, i);
      UpdateRootsCommits(ShiftRootCount(s, entries[i].0, entries[i].1).value, entries, i + 1);
    }
  }

  /** Each node's count moves by its own delta and by nothing else. */
  lemma {:induction false} UpdateRootsShape(s: Store, entries: seq<(Hash, int)>, i: nat)
    requires i <= |entries| && DistinctEntries(entries) && RootsAdmit(s, entries, i)
    requires UpdateRootsBatch(s, entries, i).Ok?
    ensures var s' := UpdateRootsBatch(s, entries, i).value;
            && SameElsewhere(s, s') && SameButRootCounts(s.tables.nodes, s'.tables.nodes)
            && forall h :: h in s.tables.nodes ==>
                 s'.tables.nodes[h].rootRefCount == s.tables.nodes[h].rootRefCount + RootDelta(entries, i, h)
    decreases |entries| - i
  {
    if i < |entries| {
      UpdateOneRoot(s, entries, i);
      UpdateRootsShape(ShiftRootCount(s, entries[i].0, entries[i].1).value, entries, i + 1);
    }
  }

  // ----- each part of the invariant, action by action -----

  lemma WitnessedMonotone(digest: Digest, seen: set<bytes>, seen': set<bytes>, hash: Hash, v: Validation)
    requires seen <= seen' && Witnessed(digest, seen, hash, v)
    ensures Witnessed(digest, seen', hash, v)
  {
    var content :| content in seen && Describes(digest, hash, v, content);
    assert content in seen';
  }

  // Rows keep their description when nothing it speaks of changes and more bytes are seen.
  ghost predicate SameDescriptions(w: World, w': World) {
    && w.history.seen <= w'.history.seen
    && w'.store.tables.nodes.Keys <= w.store.tables.nodes.Keys
    && forall h :: h in w'.store.tables.nodes ==>
         var row, row' := w.store.tables.nodes[h], w'.store.tables.nodes[h];
         && row'.contentSize == row.contentSize && row'.contentType == row.contentType
         && Out(w'.store.edges, h) == Out(w.store.edges, h)
  }

  lemma RowsStayDescribed(digest: Digest, w: World, w': World)
    requires RowsDescribed(digest, w) && SameDescriptions(w, w')
    requires forall h :: h in w'.store.tables.nodes && w'.store.tables.nodes[h].storedBytes.Some?
               && w'.store.tables.nodes[h].storedBytes != w.store.tables.nodes[h].storedBytes
               ==> LengthSeen(digest, w'.history.seen, h, w'.store.tables.nodes[h].storedBytes.value)
    ensures RowsDescribed(digest, w')
  {
    forall h | h in w'.store.tables.nodes
      ensures var row := w'.store.tables.nodes[h];
              && RowDescribed(digest, w'.history.seen, w'.store.edges, h, row)
              && (row.storedBytes.Some? ==> LengthSeen(digest, w'.history.seen, h, row.storedBytes.value))
    {
      var row, row' := w.store.tables.nodes[h], w'.store.tables.nodes[h];
      var content :| content in w.history.seen && RowDescribes(digest, w.store.edges, h, row, content);
      assert RowDescribes(digest, w'.store.edges, h, row', content);
      if row'.storedBytes.Some? && row'.storedBytes == row.storedBytes {
        var c :| c in w.history.seen && digest(c) == h && |c| == row.storedBytes.value;
        assert c in w'.history.seen;
      }
    }
  }

  lemma UploadsStayWitnessed(digest: Digest, w: World, w': World)
    requires UploadsWitnessed(digest, w) && w.history.seen <= w'.history.seen
    requires forall h :: h in w'.store.uploads && w'.store.uploads[h].validation.Some? ==>
               || (h in w.store.uploads && w.store.uploads[h].validation == w'.store.uploads[h].validation)
               || Witnessed(digest, w'.history.seen, h, w'.store.uploads[h].validation.value)
    ensures UploadsWitnessed(digest, w')
  {
    forall h | h in w'.store.uploads && w'.store.uploads[h].validation.Some?
      ensures Witnessed(digest, w'.history.seen, h, w'.store.uploads[h].validation.value)
    {
      if h in w.store.uploads && w.store.uploads[h].validation == w'.store.uploads[h].validation {
        WitnessedMonotone(digest, w.history.seen, w'.history.seen, h, w.store.uploads[h].validation.value);
      }
    }
  }

  // ----- one action -----

  // What publication changes: one row, its edges, its rank, and its children's counts.
  ghost predicate Publishes(w: World, w': World, hash: Hash, v: Validation, lease: Lease, at: nat) {
    var s, s' := w.store, w'.store;
    && s' == s.(tables := s'.tables, edges := s.edges + EdgesFrom(hash, v.metadata.refs, 0))
    && w'.history == w.history.(rank := w.history.rank[hash := w.history.next], next := w.history.next + 1)
    && SameButChildCounts(s.tables.nodes[hash := NewRow(v, lease, at)], s'.tables.nodes)
    && ExactCounts(s'.tables.nodes, s'.edges)
  }

  lemma PublishedGraph(digest: Digest, w: World, w': World, hash: Hash, v: Validation, lease: Lease, at: nat)
    requires Inv(digest, w) && Enabled(digest, w, CommitNode(hash, v, lease, at))
    requires Publishes(w, w', hash, v, lease, at)
    ensures GraphInv(w') && LeasesOrdered(w'.store.tables.nodes)
  {
    hide Consistent, ParseNode, RowsDescribed, ObjectsAddressed, UploadsWitnessed, MissingOnlyExpired, Witnessed;
    var refs := v.metadata.refs;
    forall e | e in w'.store.edges
      ensures e.parent in w'.store.tables.nodes && e.child in w'.store.tables.nodes
              && w'.history.rank[e.child] < w'.history.rank[e.parent]
    {
      if e !in w.store.edges {
        assert e.child == refs[e.ordinal] && Ready(w.store, refs[e.ordinal]);
      }
    }
  }

  lemma PublishedRows(digest: Digest, w: World, w': World, hash: Hash, v: Validation, lease: Lease, at: nat)
    requires Inv(digest, w) && Enabled(digest, w, CommitNode(hash, v, lease, at))
    requires Publishes(w, w', hash, v, lease, at)
    ensures RowsDescribed(digest, w')
  {
    hide Consistent, ParseNode, ObjectsAddressed, UploadsWitnessed, MissingOnlyExpired, ExactCounts;
    var seen := w.history.seen;
    var edges, edges' := w.store.edges, w'.store.edges;
    forall h | h in w'.store.tables.nodes
      ensures var row := w'.store.tables.nodes[h];
              && RowDescribed(digest, seen, edges', h, row)
              && (row.storedBytes.Some? ==> LengthSeen(digest, seen, h, row.storedBytes.value))
    {
      var row := w'.store.tables.nodes[h];
      if h == hash {
        assert Out(edges', hash) == EdgesFrom(hash, v.metadata.refs, 0);
        var content :| content in seen && Describes(digest, hash, v, content);
        assert RowDescribes(digest, edges', hash, row, content);
        assert LengthSeen(digest, seen, hash, v.storedBytes);
      } else {
        assert Out(edges', h) == Out(edges, h);
        var content :| content in seen && RowDescribes(digest, edges, h, w.store.tables.nodes[h], content);
        assert RowDescribes(digest, edges', h, row, content);
      }
    }
  }

  // A row whose object is missing gains no reference from a new node.
  lemma PublishedMissing(digest: Digest, w: World, w': World, hash: Hash, v: Validation, lease: Lease, at: nat)
    requires Inv(digest, w) && Enabled(digest, w, CommitNode(hash, v, lease, at))
    requires Publishes(w, w', hash, v, lease, at)
    ensures MissingOnlyExpired(w')
  {
    hide Consistent, ParseNode, RowsDescribed, ObjectsAddressed, UploadsWitnessed, ClosedAndRanked, Witnessed;
    var refs := v.metadata.refs;
    forall h | h in w'.store.tables.nodes && h !in w'.store.objects
      ensures Unreferenced(w'.store.tables.nodes[h]) && w'.store.tables.nodes[h].leaseExpiresAt <= w'.history.cutoff
    {
      forall e | e in EdgesFrom(hash, refs, 0)
        ensures e.child != h
      {
        assert e.child == refs[e.ordinal] && Ready(w.store, refs[e.ordinal]);
      }
      assert In(w'.store.edges, h) == In(w.store.edges, h);
    }
  }

  lemma CommitNodeKeepsInv(digest: Digest, w: World, hash: Hash, v: Validation, lease: Lease, at: nat)
    requires Inv(digest, w) && Enabled(digest, w, CommitNode(hash, v, lease, at))
    ensures Inv(digest, Apply(w, CommitNode(hash, v, lease, at)))
  {
    hide Consistent, ParseNode, CommitNodeBatch, RowsDescribed, MissingOnlyExpired, ClosedAndRanked, ExactCounts, LeasesOrdered;
    CommitNodeCommits(digest, w, hash, v, lease, at);
    var w' := Apply(w, CommitNode(hash, v, lease, at));
    PublishedGraph(digest, w, w', hash, v, lease, at);
    PublishedRows(digest, w, w', hash, v, lease, at);
    PublishedMissing(digest, w, w', hash, v, lease, at);
    UploadsStayWitnessed(digest, w, w');
  }

  // What a committed deletion changes.
  ghost predicate Deletes(w: World, w': World, hash: Hash) {
    var s, s' := w.store, w'.store;
    && s' == s.(tables := s'.tables, edges := s.edges - Out(s.edges, hash))
    && w'.history == w.history.(rank := w.history.rank - {hash})
    && SameButChildCounts(s.tables.nodes - {hash}, s'.tables.nodes)
    && ExactCounts(s'.tables.nodes, s'.edges)
  }

  lemma DeletedGraph(digest: Digest, w: World, w': World, hash: Hash)
    requires Inv(digest, w) && hash in w.store.tables.nodes && Unreferenced(w.store.tables.nodes[hash])
    requires Deletes(w, w', hash)
    ensures GraphInv(w') && LeasesOrdered(w'.store.tables.nodes) && MissingOnlyExpired(w')
  {
    hide Consistent, ParseNode, RowsDescribed, ObjectsAddressed, UploadsWitnessed;
    var s, s' := w.store, w'.store;
    assert In(s.edges, hash) == {};
    forall e | e in s'.edges
      ensures e.parent in s'.tables.nodes && e.child in s'.tables.nodes
              && w'.history.rank[e.child] < w'.history.rank[e.parent]
    {
      assert e.child == hash ==> e in In(s.edges, hash);
    }
    forall h | h in s'.tables.nodes && h !in s'.objects
      ensures Unreferenced(s'.tables.nodes[h]) && s'.tables.nodes[h].leaseExpiresAt <= w'.history.cutoff
    {
      assert In(s.edges, h) == {} && In(s'.edges, h) == {};
    }
  }

  lemma CommitDeletionKeepsInv(digest: Digest, w: World, hash: Hash, children: seq<(Hash, nat)>)
    requires Inv(digest, w) && Enabled(digest, w, CommitDeletion(hash, children))
    ensures Inv(digest, Apply(w, CommitDeletion(hash, children)))
  {
    hide Consistent, ParseNode, CommitDeletionBatch, MissingOnlyExpired, ClosedAndRanked, ExactCounts, LeasesOrdered;
    CommitDeletionCommits(digest, w, hash, children);
    var w' := Apply(w, CommitDeletion(hash, children));
    DeletedGraph(digest, w, w', hash);
    forall h | h in w'.store.tables.nodes
      ensures Out(w'.store.edges, h) == Out(w.store.edges, h)
    {
    }
    RowsStayDescribed(digest, w, w');
    UploadsStayWitnessed(digest, w, w');
  }

  // A row whose object is missing gains no root reference.
  lemma RootsStayMissing(w: World, w': World, entries: seq<(Hash, int)>)
    requires MissingOnlyExpired(w) && LegalRootUpdate(w.store, entries) && Consistent(w'.store.tables)
    requires SameElsewhere(w.store, w'.store) && SameButRootCounts(w.store.tables.nodes, w'.store.tables.nodes)
    requires w'.history == w.history
    requires forall h :: h in w.store.tables.nodes ==>
               w'.store.tables.nodes[h].rootRefCount == w.store.tables.nodes[h].rootRefCount + RootDelta(entries, 0, h)
    ensures MissingOnlyExpired(w')
  {
    hide Consistent;
    forall h | h in w'.store.tables.nodes && h !in w'.store.objects
      ensures w'.store.tables.nodes[h].rootRefCount == 0
    {
      RowIsLegal(w'.store.tables, h);
      if at :| 0 <= at < |entries| && entries[at].0 == h {
        RootDeltaAt(entries, 0, at);
        assert entries[at].1 <= 0;
      } else {
        RootDeltaAbsent(entries, 0, h);
      }
    }
  }

  lemma RootsKeepTheRest(digest: Digest, w: World, w': World)
    requires Inv(digest, w) && w'.history == w.history && Consistent(w'.store.tables) && MissingOnlyExpired(w')
    requires SameElsewhere(w.store, w'.store) && SameButRootCounts(w.store.tables.nodes, w'.store.tables.nodes)
    ensures Inv(digest, w')
  {
    hide Consistent, ParseNode, MissingOnlyExpired, RowsDescribed;
    RowsStayDescribed(digest, w, w');
    UploadsStayWitnessed(digest, w, w');
  }

  lemma UpdateRootsKeepsInv(digest: Digest, w: World, entries: seq<(Hash, int)>)
    requires Inv(digest, w) && Enabled(digest, w, UpdateRoots(entries))
    ensures Batch(w.store, UpdateRoots(entries)).Ok?
    ensures Inv(digest, Apply(w, UpdateRoots(entries)))
  {
    hide Consistent, UpdateRootsBatch, MissingOnlyExpired, RowsDescribed, GraphInv, ObjectsAddressed, UploadsWitnessed;
    hide UploadsHeld, LeasesOrdered, SameButRootCounts;
    UpdateRootsCommits(w.store, entries, 0);
    UpdateRootsShape(w.store, entries, 0);
    var w' := Apply(w, UpdateRoots(entries));
    RootsStayMissing(w, w', entries);
    RootsKeepTheRest(digest, w, w');
  }

  // Observing, forgetting and renewing rewrite columns of one row.
  ghost predicate RewritesRow(w: World, w': World, hash: Hash) {
    && w'.history == w.history
    && w'.store == w.store.(tables := w'.store.tables)
    && w'.store.tables.nodes.Keys == w.store.tables.nodes.Keys
    && forall h :: h in w.store.tables.nodes ==>
         var row, row' := w.store.tables.nodes[h], w'.store.tables.nodes[h];
         && (h != hash ==> row' == row)
         && row'.contentSize == row.contentSize && row'.contentType == row.contentType
         && row'.childRefCount == row.childRefCount && row'.rootRefCount == row.rootRefCount
  }

  lemma RewriteKeepsInv(digest: Digest, w: World, w': World, hash: Hash)
    requires Inv(digest, w) && RewritesRow(w, w', hash) && Consistent(w'.store.tables)
    requires hash in w.store.tables.nodes ==>
               var row, row' := w.store.tables.nodes[hash], w'.store.tables.nodes[hash];
               && (row'.storedBytes.Some? && row'.storedBytes != row.storedBytes ==>
                     LengthSeen(digest, w.history.seen, hash, row'.storedBytes.value))
               && row'.leaseStartedAt <= row'.leaseExpiresAt
               && (hash in w.store.objects || row'.leaseExpiresAt == row.leaseExpiresAt)
    ensures Inv(digest, w')
  {
    hide Consistent, ParseNode;
    RowsStayDescribed(digest, w, w');
    UploadsStayWitnessed(digest, w, w');
  }

  lemma ObserveKeepsInv(digest: Digest, w: World, a: Action)
    requires Inv(digest, w) && Enabled(digest, w, a) && (a.Observe? || a.ForgetObject?)
    ensures Batch(w.store, a).Ok? && Inv(digest, Apply(w, a))
  {
    hide Consistent, ParseNode, UpdateNode;
    var stored := if a.Observe? then a.stored else None;
    if a.hash in w.store.tables.nodes {
      var row := w.store.tables.nodes[a.hash].(storedBytes := stored, observedAt := Some(a.at));
      RowIsLegal(w.store.tables, a.hash);
      UpdateNodeKeeps(w.store.tables, a.hash, row);
      RewriteKeepsInv(digest, w, Apply(w, a), a.hash);
    }
  }

  lemma RowIsLegal(m: Metered, hash: Hash)
    requires Consistent(m) && hash in m.nodes
    ensures LegalRow(m.nodes[hash])
  {
  }

  lemma RenewLeaseCommits(digest: Digest, w: World, hash: Hash, lease: Lease)
    requires Inv(digest, w) && hash in w.store.tables.nodes
    ensures var r := RenewLeaseStatement(w.store, hash, lease);
            && r.Ok? && Consistent(r.value.tables)
            && r.value == w.store.(tables := r.value.tables)
            && r.value.tables.nodes == w.store.tables.nodes[hash :=
                 w.store.tables.nodes[hash].(leaseStartedAt := lease.startedAt, leaseExpiresAt := lease.expiresAt)]
  {
    hide Consistent, ParseNode, UpdateNode, GraphInv, RowsDescribed, ObjectsAddressed, UploadsWitnessed;
    var row := w.store.tables.nodes[hash].(leaseStartedAt := lease.startedAt, leaseExpiresAt := lease.expiresAt);
    RowIsLegal(w.store.tables, hash);
    UpdateNodeKeeps(w.store.tables, hash, row);
  }

  lemma RenewLeaseKeepsInv(digest: Digest, w: World, hash: Hash, lease: Lease)
    requires Inv(digest, w) && Enabled(digest, w, RenewLease(hash, lease))
    ensures Batch(w.store, RenewLease(hash, lease)).Ok? && Inv(digest, Apply(w, RenewLease(hash, lease)))
  {
    hide Inv, RenewLeaseStatement;
    RenewLeaseCommits(digest, w, hash, lease);
    RewriteKeepsInv(digest, w, Apply(w, RenewLease(hash, lease)), hash);
  }

  // Actions that leave nodes, edges, ranks and the cutoff alone.
  ghost predicate SameGraph(w: World, w': World) {
    && w'.store.tables.nodes == w.store.tables.nodes && w'.store.edges == w.store.edges
    && w'.history.rank == w.history.rank && w'.history.next == w.history.next
    && w'.history.cutoff == w.history.cutoff && w.history.seen <= w'.history.seen
  }

  // Dropping records, and recording unvalidated ones under free keys, keeps what is held.
  lemma HeldThroughUploads(digest: Digest, w: World, w': World)
    requires UploadsHeld(digest, w) && DistinctKeys(w'.store.uploads)
    requires w'.store.temporary == w.store.temporary && w'.history.staged == w.history.staged
    requires forall h :: h in w'.store.uploads && w'.store.uploads[h].validation.Some? ==>
               h in w.store.uploads && w'.store.uploads[h] == w.store.uploads[h]
    ensures UploadsHeld(digest, w')
  {
  }

  lemma HeldThroughPut(digest: Digest, w: World, key: Key, content: bytes)
    requires UploadsHeld(digest, w)
    ensures UploadsHeld(digest, Apply(w, PutTemporary(key, content)))
  {
  }

  lemma HeldThroughDelete(digest: Digest, w: World, key: Key)
    requires UploadsHeld(digest, w)
    ensures UploadsHeld(digest, Apply(w, DeleteTemporary(key)))
  {
  }

  lemma HeldThroughStaging(digest: Digest, w: World, w': World, hash: Hash, generation: Key, v: Validation, content: bytes)
    requires UploadsHeld(digest, w) && digest(content) == hash
    requires w'.store.temporary == w.store.temporary && w'.history.staged == StagedKeys(w, hash, generation, content)
    requires w'.store.uploads == if IsCurrent(w.store, hash, generation)
                                 then w.store.uploads[hash := w.store.uploads[hash].(validation := Some(v))]
                                 else w.store.uploads
    ensures UploadsHeld(digest, w')
  {
  }

  lemma HeldThroughUploadAction(digest: Digest, w: World, a: Action)
    requires Inv(digest, w) && Enabled(digest, w, a)
    requires a.PutTemporary? || a.CreateUpload? || a.ReplaceUpload? || a.DeleteTemporary? || a.AcknowledgeCleanup?
             || a.DeleteUpload? || a.RepairUsage? || a.PutCanonical?
    ensures UploadsHeld(digest, Apply(w, a))
  {
    hide Consistent, ParseNode, GraphInv, RowsDescribed, ObjectsAddressed, UploadsWitnessed, MissingOnlyExpired;
    if a.PutTemporary? {
      HeldThroughPut(digest, w, a.key, a.content);
    } else if a.DeleteTemporary? {
      HeldThroughDelete(digest, w, a.key);
    } else {
      HeldThroughUploads(digest, w, Apply(w, a));
    }
  }

  lemma SameGraphKeepsInv(digest: Digest, w: World, w': World)
    requires Inv(digest, w) && SameGraph(w, w') && Consistent(w'.store.tables)
    requires w.store.objects.Keys <= w'.store.objects.Keys && ObjectsAddressed(digest, w') && UploadsHeld(digest, w')
    requires forall h :: h in w'.store.uploads && w'.store.uploads[h].validation.Some? ==>
               || (h in w.store.uploads && w.store.uploads[h].validation == w'.store.uploads[h].validation)
               || Witnessed(digest, w'.history.seen, h, w'.store.uploads[h].validation.value)
    ensures Inv(digest, w')
  {
    hide Consistent, ParseNode;
    RowsStayDescribed(digest, w, w');
    UploadsStayWitnessed(digest, w, w');
  }

  lemma UploadActionKeepsInv(digest: Digest, w: World, a: Action)
    requires Inv(digest, w) && Enabled(digest, w, a)
    requires a.PutTemporary? || a.CreateUpload? || a.ReplaceUpload? || a.DeleteTemporary? || a.AcknowledgeCleanup?
             || a.DeleteUpload? || a.RepairUsage? || a.PutCanonical?
    ensures Batch(w.store, a).Ok? && Inv(digest, Apply(w, a))
  {
    hide Consistent, ParseNode;
    if a.RepairUsage? {
      TablesAreLegal(w.store.tables);
      RepairRestores(w.store.tables, a.repairedAt);
    }
    HeldThroughUploadAction(digest, w, a);
    SameGraphKeepsInv(digest, w, Apply(w, a));
  }

  lemma TablesAreLegal(m: Metered)
    requires Consistent(m)
    ensures LegalTables(m)
  {
  }

  lemma StageValidationKeepsInv(digest: Digest, w: World, a: Action)
    requires Inv(digest, w) && Enabled(digest, w, a) && a.StageValidation?
    ensures Batch(w.store, a).Ok? && Inv(digest, Apply(w, a))
  {
    hide Consistent, ParseNode, UpsertReservation;
    var StageValidation(hash, generation, v, content) := a;
    if IsCurrent(w.store, hash, generation) {
      var upload := w.store.uploads[hash];
      AcceptedIsNotEmpty(content);
      UpsertReservationKeeps(w.store.tables, hash, Reservation(v.storedBytes, upload.createdAt, upload.cleanupAt));
      assert Witnessed(digest, w.history.seen + {content}, hash, v);
    }
    HeldThroughStaging(digest, w, Apply(w, a), hash, generation, v, content);
    SameGraphKeepsInv(digest, w, Apply(w, a));
  }

  lemma AcceptedIsNotEmpty(content: bytes)
    ensures ParseNode(content, DEFAULT_LIMITS).Ok? ==> |content| >= HEADER_SIZE
  {
  }

  lemma ExpireUploadKeepsInv(digest: Digest, w: World, hash: Hash, generation: Key)
    requires Inv(digest, w)
    ensures Batch(w.store, ExpireUpload(hash, generation)).Ok?
    ensures Inv(digest, Apply(w, ExpireUpload(hash, generation)))
  {
    hide Consistent, ParseNode, DeleteReservation;
    if IsCurrent(w.store, hash, generation) {
      DeleteReservationKeeps(w.store.tables, hash);
    }
    HeldThroughUploads(digest, w, Apply(w, ExpireUpload(hash, generation)));
    SameGraphKeepsInv(digest, w, Apply(w, ExpireUpload(hash, generation)));
  }

  lemma DeleteObjectKeepsInv(digest: Digest, w: World, hash: Hash, cutoff: int)
    requires Inv(digest, w) && Enabled(digest, w, DeleteObject(hash, cutoff))
    ensures Inv(digest, Apply(w, DeleteObject(hash, cutoff)))
  {
    hide Consistent, ParseNode;
    var w' := Apply(w, DeleteObject(hash, cutoff));
    RowsStayDescribed(digest, w, w');
    UploadsStayWitnessed(digest, w, w');
  }

  /** Every admitted action commits and keeps the invariant. */
  lemma StepKeepsInv(digest: Digest, w: World, a: Action)
    requires Inv(digest, w) && Enabled(digest, w, a)
    ensures Batch(w.store, a).Ok? && Inv(digest, Apply(w, a))
  {
    hide Inv, Enabled, CommitNodeBatch, CommitDeletionBatch, StageValidationBatch, ExpireUploadBatch, UpdateRootsBatch;
    hide ObserveStatement, RenewLeaseStatement;
    match a {
      case Observe(_, _, _) => ObserveKeepsInv(digest, w, a);
      case ForgetObject(_, _) => ObserveKeepsInv(digest, w, a);
      case RenewLease(hash, lease) => RenewLeaseKeepsInv(digest, w, hash, lease);
      case StageValidation(_, _, _, _) => StageValidationKeepsInv(digest, w, a);
      case CommitNode(hash, v, lease, at) =>
        CommitNodeCommits(digest, w, hash, v, lease, at);
        CommitNodeKeepsInv(digest, w, hash, v, lease, at);
      case ExpireUpload(hash, generation) => ExpireUploadKeepsInv(digest, w, hash, generation);
      case DeleteObject(hash, cutoff) => DeleteObjectKeepsInv(digest, w, hash, cutoff);
      case CommitDeletion(hash, children) =>
        CommitDeletionCommits(digest, w, hash, children);
        CommitDeletionKeepsInv(digest, w, hash, children);
      case UpdateRoots(entries) => UpdateRootsKeepsInv(digest, w, entries);
      case _ => UploadActionKeepsInv(digest, w, a);
    }
  }
}
