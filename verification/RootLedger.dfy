// The root-reference ledger of one App: counts on node rows, the current-balance
// projection, the append-only events and the idempotency records, shared by all
// Spaces of the App and changed by one compare-and-set batch.
module RootLedger {
  import opened Prelude
  import opened Order

  type Space = bytes
  type RequestId = string
  type Key = (Space, Hash)

  const MAX_REQUEST_ID_LENGTH: nat := 256
  const MAX_ROOT_REF_CHANGES: nat := 1000
  const MAX_ROOT_REF_DELTA: nat := 1000000

  datatype Event = Event(space: Space, requestId: RequestId, payloadHash: Hash, entries: seq<(Hash, int)>, appliedAt: int)

  datatype Request = Request(payloadHash: Hash, revision: nat)

  datatype Ledger = Ledger(
    revision: Option<nat>,
    counts: map<Key, int>,
    ready: set<Key>,
    refs: map<Key, int>,
    events: map<nat, Event>,
    requests: map<(Space, RequestId), Request>
  )

  datatype Plan = Plan(
    space: Space,
    requestId: RequestId,
    payloadHash: Hash,
    entries: seq<(Hash, int)>,
    expectedRevision: nat,
    revision: nat,
    projections: seq<(Hash, Option<int>)>,
    appliedAt: int
  )

  datatype Abort = CheckViolation | UniqueViolation | NotNullViolation

  // ----- the batch -----

  function CurrentRevision(l: Ledger): nat {
    l.revision.GetOr(0)
  }

  function FindProjection(projections: seq<(Hash, Option<int>)>, hash: Hash): Option<int> {
    if projections == [] then None
    else if projections[0].0 == hash then projections[0].1
    else FindProjection(projections[1..], hash)
  }

  function ShiftCount(l: Ledger, key: Key, delta: int): Result<Ledger, Abort> {
    if key !in l.counts then Ok(l)
    else if l.counts[key] + delta < 0 then Err(CheckViolation)
    else Ok(l.(counts := l.counts[key := l.counts[key] + delta]))
  }

  function Project(l: Ledger, key: Key, refCount: Option<int>): Result<Ledger, Abort> {
    match refCount
    case None => Ok(l.(refs := l.refs - {key}))
    case Some(n) => if n <= 0 then Err(CheckViolation) else Ok(l.(refs := l.refs[key := n]))
  }

  function ApplyEntries(l: Ledger, plan: Plan, i: nat): Result<Ledger, Abort>
    requires i <= |plan.entries|
    decreases |plan.entries| - i
  {
    if i == |plan.entries| then Ok(l)
    else
      var key := (plan.space, plan.entries[i].0);
      var shifted :- ShiftCount(l, key, plan.entries[i].1);
      var projected :- Project(shifted, key, FindProjection(plan.projections, key.1));
      ApplyEntries(projected, plan, i + 1)
  }

  function AppendEvent(l: Ledger, plan: Plan): Result<Ledger, Abort> {
    if plan.revision in l.events
       || exists r :: r in l.events && l.events[r].space == plan.space && l.events[r].requestId == plan.requestId
    then Err(UniqueViolation)
    else if plan.revision == 0 then Err(CheckViolation)
    else
      var event := Event(plan.space, plan.requestId, plan.payloadHash, plan.entries, plan.appliedAt);
      Ok(l.(events := l.events[plan.revision := event]))
  }

  function RecordRequest(l: Ledger, plan: Plan): Result<Ledger, Abort> {
    var id := (plan.space, plan.requestId);
    if id in l.requests then Err(UniqueViolation)
    else Ok(l.(requests := l.requests[id := Request(plan.payloadHash, plan.revision)]))
  }

  /** All statements of one commit; the NOT NULL column aborts everything when the revision has moved. */
  function CommitBatch(l: Ledger, plan: Plan): Result<Ledger, Abort> {
    if CurrentRevision(l) != plan.expectedRevision then Err(NotNullViolation)
    else
      var applied :- ApplyEntries(l.(revision := Some(plan.revision)), plan, 0);
      var appended :- AppendEvent(applied, plan);
      RecordRequest(appended, plan)
  }

  // ----- what the batch needs and does, on every ledger -----

  lemma {:induction false} FindsFirst(projections: seq<(Hash, Option<int>)>, hash: Hash, i: nat)
    requires i < |projections| ==> projections[i].0 == hash
    requires i <= |projections| && forall j :: 0 <= j < i ==> projections[j].0 != hash
    ensures FindProjection(projections, hash) == if i < |projections| then projections[i].1 else None
  {
    if i > 0 {
      FindsFirst(projections[1..], hash, i - 1);
    }
  }

  // The constraints an entry is checked against: no negative count, and a projected balance is positive.
  ghost predicate Passes(l: Ledger, plan: Plan, i: nat)
    requires i < |plan.entries|
  {
    var key := (plan.space, plan.entries[i].0);
    var projected := FindProjection(plan.projections, plan.entries[i].0);
    (key in l.counts ==> l.counts[key] + plan.entries[i].1 >= 0) && (projected.Some? ==> projected.value > 0)
  }

  // The count moves if there is one, and the balance is written or dropped.
  ghost predicate KeyMoves(l: Ledger, l': Ledger, key: Key, delta: int, projected: Option<int>) {
    && (key in l.counts ==> key in l'.counts && l'.counts[key] == l.counts[key] + delta)
    && match projected
       case None => key !in l'.refs
       case Some(n) => key in l'.refs && l'.refs[key] == n
  }

  ghost predicate KeyStays(l: Ledger, l': Ledger, key: Key) {
    && (key in l.counts ==> key in l'.counts && l'.counts[key] == l.counts[key])
    && (key in l'.refs <==> key in l.refs) && (key in l.refs ==> l'.refs[key] == l.refs[key])
  }

  // The entries from `i` on, each on its own key, and nothing else.
  ghost predicate Moved(l: Ledger, l': Ledger, plan: Plan, i: nat) {
    && l'.counts.Keys == l.counts.Keys && l'.ready == l.ready
    && (forall j :: i <= j < |plan.entries| ==>
          KeyMoves(l, l', (plan.space, plan.entries[j].0), plan.entries[j].1,
                   FindProjection(plan.projections, plan.entries[j].0)))
    && forall key :: Untouched(plan, i, key) ==> KeyStays(l, l', key)
  }

  ghost predicate Untouched(plan: Plan, i: nat, key: Key) {
    forall j :: i <= j < |plan.entries| ==> key != (plan.space, plan.entries[j].0)
  }

  // One entry's two statements.
  lemma EntryApplies(l: Ledger, plan: Plan, i: nat) returns (s: Ledger)
    requires i < |plan.entries| && Passes(l, plan, i)
    ensures ApplyEntries(l, plan, i) == ApplyEntries(s, plan, i + 1)
    ensures s == l.(counts := s.counts, refs := s.refs) && s.counts.Keys == l.counts.Keys
    ensures var key := (plan.space, plan.entries[i].0);
            && KeyMoves(l, s, key, plan.entries[i].1, FindProjection(plan.projections, plan.entries[i].0))
            && forall k :: k != key ==> KeyStays(l, s, k)
  {
    hide FindProjection;
    var key := (plan.space, plan.entries[i].0);
    var shifted := ShiftCount(l, key, plan.entries[i].1).value;
    s := Project(shifted, key, FindProjection(plan.projections, key.1)).value;
  }

  lemma {:induction false} EntriesApply(l: Ledger, plan: Plan, i: nat)
    requires DistinctKeys(plan.entries) && i <= |plan.entries|
    ensures ApplyEntries(l, plan, i).Ok? <==> forall j :: i <= j < |plan.entries| ==> Passes(l, plan, j)
    ensures ApplyEntries(l, plan, i).Ok? ==>
              var l' := ApplyEntries(l, plan, i).value;
              l' == l.(counts := l'.counts, refs := l'.refs) && Moved(l, l', plan, i)
    decreases |plan.entries| - i
  {
    if i < |plan.entries| {
      if Passes(l, plan, i) {
        hide ApplyEntries, KeyMoves, FindProjection, Passes;
        var s := EntryApplies(l, plan, i);
        EntriesApply(s, plan, i + 1);
        forall j | i < j < |plan.entries|
          ensures Passes(s, plan, j) <==> Passes(l, plan, j)
        {
          PassesAsBefore(l, s, plan, i, j);
        }
        if ApplyEntries(s, plan, i + 1).Ok? {
          MovedOneMore(l, s, ApplyEntries(s, plan, i + 1).value, plan, i);
        }
      }
    }
  }

  lemma PassesAsBefore(l: Ledger, s: Ledger, plan: Plan, i: nat, j: nat)
    requires DistinctKeys(plan.entries) && i < j < |plan.entries| && s.counts.Keys == l.counts.Keys
    requires forall k :: k != (plan.space, plan.entries[i].0) ==> KeyStays(l, s, k)
    ensures Passes(s, plan, j) <==> Passes(l, plan, j)
  {
    hide FindProjection;
    assert plan.entries[j].0 != plan.entries[i].0;
    assert KeyStays(l, s, (plan.space, plan.entries[j].0));
  }

  lemma StaysThenMoves(l: Ledger, s: Ledger, l': Ledger, key: Key, delta: int, projected: Option<int>)
    ensures KeyStays(l, s, key) && KeyMoves(s, l', key, delta, projected) ==> KeyMoves(l, l', key, delta, projected)
    ensures KeyMoves(l, s, key, delta, projected) && KeyStays(s, l', key) ==> KeyMoves(l, l', key, delta, projected)
    ensures KeyStays(l, s, key) && KeyStays(s, l', key) ==> KeyStays(l, l', key)
  {
  }

  lemma MovedOneMore(l: Ledger, s: Ledger, l': Ledger, plan: Plan, i: nat)
    requires DistinctKeys(plan.entries) && i < |plan.entries| && Moved(s, l', plan, i + 1)
    requires s.counts.Keys == l.counts.Keys && s.ready == l.ready
    requires KeyMoves(l, s, (plan.space, plan.entries[i].0), plan.entries[i].1,
                      FindProjection(plan.projections, plan.entries[i].0))
    requires forall k :: k != (plan.space, plan.entries[i].0) ==> KeyStays(l, s, k)
    ensures Moved(l, l', plan, i)
  {
    hide FindProjection, KeyMoves, KeyStays;
    var first := (plan.space, plan.entries[i].0);
    forall j | i <= j < |plan.entries|
      ensures KeyMoves(l, l', (plan.space, plan.entries[j].0), plan.entries[j].1,
                       FindProjection(plan.projections, plan.entries[j].0))
    {
      StaysThenMoves(l, s, l', (plan.space, plan.entries[j].0), plan.entries[j].1,
                     FindProjection(plan.projections, plan.entries[j].0));
      if j == i {
        assert Untouched(plan, i + 1, first);
      } else {
        assert plan.entries[j].0 != plan.entries[i].0;
      }
    }
    forall k | Untouched(plan, i, k)
      ensures KeyStays(l, l', k)
    {
      assert k != first && Untouched(plan, i + 1, k);
      StaysThenMoves(l, s, l', k, 0, None);
    }
  }

  // What lets a whole batch through.
  ghost predicate Acceptable(l: Ledger, plan: Plan) {
    && plan.expectedRevision == (if l.revision.Some? then l.revision.value else 0)
    && (forall i :: 0 <= i < |plan.entries| ==> Passes(l, plan, i))
    && plan.revision > 0 && plan.revision !in l.events
    && (forall r :: r in l.events ==> l.events[r].space != plan.space || l.events[r].requestId != plan.requestId)
    && (plan.space, plan.requestId) !in l.requests
  }

  // And what it then leaves.
  ghost predicate Accepted(l: Ledger, l': Ledger, plan: Plan) {
    && Moved(l, l', plan, 0)
    && l'.revision == Some(plan.revision)
    && l'.events == l.events[plan.revision :=
         Event(plan.space, plan.requestId, plan.payloadHash, plan.entries, plan.appliedAt)]
    && l'.requests == l.requests[(plan.space, plan.requestId) := Request(plan.payloadHash, plan.revision)]
  }

  /** A batch with distinct keys goes through exactly when no constraint is broken, and then does all of this. */
  lemma BatchGoesThrough(l: Ledger, plan: Plan)
    requires DistinctKeys(plan.entries)
    ensures CommitBatch(l, plan).Ok? <==> Acceptable(l, plan)
    ensures CommitBatch(l, plan).Ok? ==> Accepted(l, CommitBatch(l, plan).value, plan)
  {
    hide ApplyEntries, FindProjection, Moved;
    var s := l.(revision := Some(plan.revision));
    EntriesApply(s, plan, 0);
    assert forall i :: 0 <= i < |plan.entries| ==> (Passes(s, plan, i) <==> Passes(l, plan, i));
    if CommitBatch(l, plan).Ok? {
      SameMoves(l, s, ApplyEntries(s, plan, 0).value, CommitBatch(l, plan).value, plan);
    }
  }

  lemma SameMoves(l: Ledger, s: Ledger, s': Ledger, l': Ledger, plan: Plan)
    requires Moved(s, s', plan, 0) && s.counts == l.counts && s.refs == l.refs && s.ready == l.ready
    requires l'.counts == s'.counts && l'.refs == s'.refs && l'.ready == s'.ready
    ensures Moved(l, l', plan, 0)
  {
    hide FindProjection;
    forall j | 0 <= j < |plan.entries|
      ensures KeyMoves(l, l', (plan.space, plan.entries[j].0), plan.entries[j].1,
                       FindProjection(plan.projections, plan.entries[j].0))
    {
      assert KeyMoves(s, s', (plan.space, plan.entries[j].0), plan.entries[j].1,
                      FindProjection(plan.projections, plan.entries[j].0));
    }
    forall key | Untouched(plan, 0, key)
      ensures KeyStays(l, l', key)
    {
      assert KeyStays(s, s', key);
    }
  }

  // ----- what the ledger means -----

  // The change an event makes to one key.
  function DeltaOf(entries: seq<(Hash, int)>, hash: Hash): int {
    if entries == [] then 0
    else if entries[0].0 == hash then entries[0].1
    else DeltaOf(entries[1..], hash)
  }

  function EventDelta(e: Event, key: Key): int {
    if e.space == key.0 then DeltaOf(e.entries, key.1) else 0
  }

  /** The sum of the deltas of the first `revision` events. */
  ghost function Balance(events: map<nat, Event>, revision: nat, key: Key): int {
    if revision == 0 then 0
    else Balance(events, revision - 1, key) + if revision in events then EventDelta(events[revision], key) else 0
  }

  // Revisions are exactly 1..n, and requests and events name each other.
  ghost predicate Chronicle(l: Ledger) {
    && (forall r :: r in l.events <==> 1 <= r <= CurrentRevision(l))
    && (forall id :: id in l.requests ==>
          var r := l.requests[id].revision;
          && r in l.events && l.events[r].space == id.0 && l.events[r].requestId == id.1
          && l.events[r].payloadHash == l.requests[id].payloadHash)
    && (forall r :: r in l.events ==>
          var id := (l.events[r].space, l.events[r].requestId);
          id in l.requests && l.requests[id].revision == r)
  }

  // The projection holds exactly the positive counts, and what is counted is stored.
  ghost predicate Projected(l: Ledger) {
    && (forall k :: k in l.counts ==> |k.1| == 32 && l.counts[k] >= 0 && (l.counts[k] > 0 ==> k in l.ready))
    && (forall k :: k in l.refs <==> k in l.counts && l.counts[k] > 0)
    && (forall k :: k in l.refs ==> l.refs[k] == l.counts[k])
  }

  function CountOf(l: Ledger, key: Key): int {
    if key in l.counts then l.counts[key] else 0
  }

  // Counts are the sums of all deltas, and no prefix of the history was ever negative.
  ghost predicate Balanced(l: Ledger) {
    && (forall k :: Balance(l.events, CurrentRevision(l), k) == CountOf(l, k))
    && (forall k, r: nat :: r <= CurrentRevision(l) ==> Balance(l.events, r, k) >= 0)
  }

  ghost predicate Inv(l: Ledger) {
    Chronicle(l) && Projected(l) && Balanced(l)
  }

  // ----- the steps of a run -----

  datatype Step =
    | Commit(plan: Plan)
    | AddNode(key: Key)
    | RemoveNode(key: Key)
    | PutObject(key: Key)
    | RemoveObject(key: Key)

  // What a Space's kernel has established when it commits: its reads of its own Space still hold,
  // because its gate keeps the Space to itself; the revision it read may be stale.
  predicate Licensed(l: Ledger, plan: Plan) {
    && plan.revision == plan.expectedRevision + 1
    && DistinctKeys(plan.entries)
    && (plan.space, plan.requestId) !in l.requests
    && forall i :: 0 <= i < |plan.entries| ==> EntryLicensed(l, plan, plan.entries[i])
  }

  predicate EntryLicensed(l: Ledger, plan: Plan, entry: (Hash, int)) {
    var key := (plan.space, entry.0);
    && key in l.counts && l.counts[key] + entry.1 >= 0
    && (entry.1 > 0 ==> key in l.ready)
    && FindProjection(plan.projections, entry.0)
       == if l.counts[key] + entry.1 == 0 then None else Some(l.counts[key] + entry.1)
  }

  predicate Enabled(l: Ledger, step: Step) {
    match step
    case Commit(plan) => Licensed(l, plan)
    case AddNode(key) => key !in l.counts && |key.1| == 32
    case RemoveNode(key) => key in l.counts && l.counts[key] == 0
    case PutObject(_) => true
    case RemoveObject(key) => CountOf(l, key) == 0
  }

  // An aborted commit changes nothing.
  function Apply(l: Ledger, step: Step): Ledger {
    match step
    case Commit(plan) => (match CommitBatch(l, plan) case Ok(l') => l' case Err(_) => l)
    case AddNode(key) => l.(counts := l.counts[key := 0])
    case RemoveNode(key) => l.(counts := l.counts - {key})
    case PutObject(key) => l.(ready := l.ready + {key})
    case RemoveObject(key) => l.(ready := l.ready - {key})
  }

  // A step of some other Space.
  predicate Foreign(step: Step, me: Space) {
    match step
    case Commit(plan) => plan.space != me
    case AddNode(key) => key.0 != me
    case RemoveNode(key) => key.0 != me
    case PutObject(key) => key.0 != me
    case RemoveObject(key) => key.0 != me
  }

  const EMPTY := Ledger(None, map[], {}, map[], map[], map[])

  lemma EmptyLedger()
    ensures Inv(EMPTY)
  {
  }

  // ----- one commit -----

  // The keys of the first `i` entries carry their new counts, the others their old ones.
  ghost predicate Shifted(l: Ledger, l': Ledger, plan: Plan, i: nat)
    requires i <= |plan.entries|
  {
    && l' == l.(counts := l'.counts, refs := l'.refs)
    && l'.counts.Keys == l.counts.Keys
    && (forall k :: k in l.counts ==>
          l'.counts[k] == l.counts[k] + if k.0 == plan.space then DeltaOf(plan.entries[..i], k.1) else 0)
    && Projected(l')
  }

  lemma {:induction false} DeltaAppend(entries: seq<(Hash, int)>, last: (Hash, int), hash: Hash)
    requires forall i :: 0 <= i < |entries| ==> entries[i].0 != last.0
    ensures DeltaOf(entries + [last], hash) == if hash == last.0 then last.1 else DeltaOf(entries, hash)
    ensures DeltaOf(entries, last.0) == 0
  {
    if entries != [] {
      assert (entries + [last])[1..] == entries[1..] + [last];
      DeltaAppend(entries[1..], last, hash);
    }
  }

  // Count and projection move together.
  lemma KeyShifts(s: Ledger, key: Key, delta: int)
    requires Projected(s) && key in s.counts
    requires var count := s.counts[key] + delta; count >= 0 && (count > 0 ==> key in s.ready)
    ensures var count := s.counts[key] + delta;
            var shifted := ShiftCount(s, key, delta);
            && shifted.Ok?
            && var projected := Project(shifted.value, key, if count == 0 then None else Some(count));
               && projected.Ok? && Projected(projected.value)
               && projected.value == s.(counts := s.counts[key := count], refs := projected.value.refs)
  {
  }

  lemma PrefixDelta(entries: seq<(Hash, int)>, i: nat, hash: Hash)
    requires DistinctKeys(entries) && i < |entries|
    ensures DeltaOf(entries[..i + 1], hash) == if hash == entries[i].0 then entries[i].1 else DeltaOf(entries[..i], hash)
    ensures DeltaOf(entries[..i], entries[i].0) == 0
  {
    assert entries[..i + 1] == entries[..i] + [entries[i]];
    DeltaAppend(entries[..i], entries[i], hash);
  }

  // One entry's two statements succeed and keep the projection exact.
  lemma EntryCommits(l: Ledger, s: Ledger, plan: Plan, i: nat)
    requires Projected(l) && Licensed(l, plan) && i < |plan.entries| && Shifted(l, s, plan, i)
    ensures var key := (plan.space, plan.entries[i].0);
            var shifted := ShiftCount(s, key, plan.entries[i].1);
            && shifted.Ok?
            && var projected := Project(shifted.value, key, FindProjection(plan.projections, key.1));
               projected.Ok? && Shifted(l, projected.value, plan, i + 1)
  {
    hide Projected, FindProjection, ShiftCount, Project, DeltaOf;
    var (hash, delta) := plan.entries[i];
    var key := (plan.space, hash);
    assert EntryLicensed(l, plan, plan.entries[i]);
    PrefixDelta(plan.entries, i, hash);
    assert s.counts[key] == l.counts[key];
    ReadyWhenCounted(l, key);
    KeyShifts(s, key, delta);
    var shifted := ShiftCount(s, key, delta).value;
    var projected := Project(shifted, key, FindProjection(plan.projections, hash)).value;
    OneMoreShifted(l, s, projected, plan, i);
  }

  lemma OneMoreShifted(l: Ledger, s: Ledger, s': Ledger, plan: Plan, i: nat)
    requires DistinctKeys(plan.entries) && i < |plan.entries| && Shifted(l, s, plan, i) && Projected(s')
    requires var key := (plan.space, plan.entries[i].0);
             key in l.counts && s' == s.(counts := s.counts[key := s.counts[key] + plan.entries[i].1], refs := s'.refs)
    ensures Shifted(l, s', plan, i + 1)
  {
    hide Projected, DeltaOf;
    forall k | k in l.counts
      ensures s'.counts[k] == l.counts[k] + if k.0 == plan.space then DeltaOf(plan.entries[..i + 1], k.1) else 0
    {
      PrefixDelta(plan.entries, i, k.1);
    }
  }

  lemma ReadyWhenCounted(l: Ledger, key: Key)
    requires Projected(l) && key in l.counts
    ensures l.counts[key] >= 0 && (l.counts[key] > 0 ==> key in l.ready)
  {
  }

  lemma {:induction false} EntriesCommit(l: Ledger, s: Ledger, plan: Plan, i: nat)
    requires Projected(l) && Licensed(l, plan) && i <= |plan.entries| && Shifted(l, s, plan, i)
    ensures ApplyEntries(s, plan, i).Ok? && Shifted(l, ApplyEntries(s, plan, i).value, plan, |plan.entries|)
    decreases |plan.entries| - i
  {
    hide Shifted, Licensed, Projected;
    if i < |plan.entries| {
      EntryCommits(l, s, plan, i);
      var key := (plan.space, plan.entries[i].0);
      var shifted := ShiftCount(s, key, plan.entries[i].1).value;
      var projected := Project(shifted, key, FindProjection(plan.projections, key.1)).value;
      EntriesCommit(l, projected, plan, i + 1);
    }
  }

  // The ledger after a committed plan.
  ghost predicate Committed(l: Ledger, l': Ledger, plan: Plan) {
    && l' == l.(revision := Some(plan.revision), counts := l'.counts, refs := l'.refs,
                events := l.events[plan.revision := Event(plan.space, plan.requestId, plan.payloadHash, plan.entries, plan.appliedAt)],
                requests := l.requests[(plan.space, plan.requestId) := Request(plan.payloadHash, plan.revision)])
    && l'.counts.Keys == l.counts.Keys
    && (forall k :: k in l.counts ==>
          l'.counts[k] == l.counts[k] + if k.0 == plan.space then DeltaOf(plan.entries, k.1) else 0)
    && Projected(l')
  }

  /** A licensed commit aborts exactly when the revision has moved; otherwise it applies every delta once. */
  lemma CommitCommits(l: Ledger, plan: Plan)
    requires Inv(l) && Licensed(l, plan)
    ensures CommitBatch(l, plan).Ok? <==> CurrentRevision(l) == plan.expectedRevision
    ensures CommitBatch(l, plan).Ok? ==> Committed(l, CommitBatch(l, plan).value, plan)
  {
    if CurrentRevision(l) == plan.expectedRevision {
      var s := l.(revision := Some(plan.revision));
      assert plan.entries[..0] == [] && plan.entries[..|plan.entries|] == plan.entries;
      assert Licensed(s, plan) && Shifted(s, s, plan, 0);
      EntriesCommit(s, s, plan, 0);
    }
  }

  lemma {:induction false} BalanceOfOthers(events: map<nat, Event>, revision: nat, e: Event, r: nat, key: Key)
    requires r < revision
    ensures Balance(events[revision := e], r, key) == Balance(events, r, key)
  {
    if r > 0 {
      BalanceOfOthers(events, revision, e, r - 1, key);
    }
  }

  lemma {:induction false} NoDelta(entries: seq<(Hash, int)>, hash: Hash)
    requires forall i :: 0 <= i < |entries| ==> entries[i].0 != hash
    ensures DeltaOf(entries, hash) == 0
  {
    if entries != [] {
      NoDelta(entries[1..], hash);
    }
  }

  // A licensed plan moves only keys that have rows.
  lemma DeltaNeedsRow(l: Ledger, plan: Plan, key: Key)
    requires Licensed(l, plan) && key.0 == plan.space && key !in l.counts
    ensures DeltaOf(plan.entries, key.1) == 0
  {
    forall i | 0 <= i < |plan.entries|
      ensures plan.entries[i].0 != key.1
    {
      assert EntryLicensed(l, plan, plan.entries[i]);
    }
    NoDelta(plan.entries, key.1);
  }

  lemma CommitMovesBalance(l: Ledger, l': Ledger, plan: Plan, k: Key)
    requires Balanced(l) && Licensed(l, plan) && CurrentRevision(l) == plan.expectedRevision && Committed(l, l', plan)
    ensures Balance(l'.events, plan.revision, k) == CountOf(l', k)
  {
    hide Licensed, Projected;
    assert plan.revision == plan.expectedRevision + 1 by {
      LicensedRevision(l, plan);
    }
    BalanceOfOthers(l.events, plan.revision, l'.events[plan.revision], plan.expectedRevision, k);
    assert Balance(l.events, CurrentRevision(l), k) == CountOf(l, k);
    if k.0 == plan.space && k !in l.counts {
      DeltaNeedsRow(l, plan, k);
    }
  }

  lemma LicensedRevision(l: Ledger, plan: Plan)
    requires Licensed(l, plan)
    ensures plan.revision == plan.expectedRevision + 1
  {
  }

  lemma CommitKeepsBalance(l: Ledger, l': Ledger, plan: Plan)
    requires Inv(l) && Licensed(l, plan) && CurrentRevision(l) == plan.expectedRevision && Committed(l, l', plan)
    ensures Balanced(l')
  {
    hide Licensed, Chronicle;
    LicensedRevision(l, plan);
    var e := l'.events[plan.revision];
    forall k
      ensures Balance(l'.events, plan.revision, k) == CountOf(l', k)
    {
      CommitMovesBalance(l, l', plan, k);
    }
    forall k, r: nat | r <= plan.revision
      ensures Balance(l'.events, r, k) >= 0
    {
      if r < plan.revision {
        BalanceOfOthers(l.events, plan.revision, e, r, k);
      } else {
        assert CountOf(l', k) >= 0;
      }
    }
  }

  lemma CommitKeepsInv(l: Ledger, plan: Plan)
    requires Inv(l) && Licensed(l, plan)
    ensures Inv(Apply(l, Commit(plan)))
  {
    hide CommitBatch, Chronicle, Balanced, Projected;
    CommitCommits(l, plan);
    if CommitBatch(l, plan).Ok? {
      var l' := CommitBatch(l, plan).value;
      CommitKeepsBalance(l, l', plan);
      CommitKeepsChronicle(l, l', plan);
    }
  }

  /** Every step keeps the ledger's invariant. */
  lemma StepKeepsInv(l: Ledger, step: Step)
    requires Inv(l) && Enabled(l, step)
    ensures Inv(Apply(l, step))
  {
    hide Inv, Licensed, CommitBatch;
    match step {
      case Commit(plan) => CommitKeepsInv(l, plan);
      case _ => EnvironmentKeepsInv(l, step);
    }
  }

  lemma SameChronicle(l: Ledger, l': Ledger)
    requires Chronicle(l) && l'.events == l.events && l'.requests == l.requests && l'.revision == l.revision
    ensures Chronicle(l')
  {
  }

  // Node rows and objects come and go only where the count is zero.
  lemma EnvironmentKeepsInv(l: Ledger, step: Step)
    requires Inv(l) && Enabled(l, step) && !step.Commit?
    ensures Inv(Apply(l, step))
  {
    hide Chronicle;
    SameChronicle(l, Apply(l, step));
    match step {
      case AddNode(key) => assert CountOf(l, key) == 0;
      case RemoveNode(key) => assert CountOf(l, key) == 0;
      case PutObject(_) =>
      case RemoveObject(_) =>
    }
  }

  lemma CommitKeepsChronicle(l: Ledger, l': Ledger, plan: Plan)
    requires Chronicle(l) && CurrentRevision(l) == plan.expectedRevision && plan.revision == plan.expectedRevision + 1
    requires (plan.space, plan.requestId) !in l.requests && Committed(l, l', plan)
    ensures Chronicle(l')
  {
  }

  // ----- runs -----

  ghost function Exec(l: Ledger, steps: seq<Step>): Ledger
    decreases |steps|
  {
    if steps == [] then l else Exec(Apply(l, steps[0]), steps[1..])
  }

  ghost predicate IsRun(l: Ledger, steps: seq<Step>)
    decreases |steps|
  {
    steps != [] ==> Enabled(l, steps[0]) && IsRun(Apply(l, steps[0]), steps[1..])
  }

  /** Over every run: revisions are 1..n, counts, projection and event sums agree, and no prefix sum is negative. */
  lemma {:induction false} RunKeepsInv(l: Ledger, steps: seq<Step>)
    requires Inv(l) && IsRun(l, steps)
    ensures Inv(Exec(l, steps))
    decreases |steps|
  {
    hide Inv, Enabled, Apply;
    if steps != [] {
      StepKeepsInv(l, steps[0]);
      RunKeepsInv(Apply(l, steps[0]), steps[1..]);
    }
  }

  /** So every ledger an interleaving reaches from an empty one satisfies the invariant. */
  lemma EveryReachableLedger(steps: seq<Step>)
    requires IsRun(EMPTY, steps)
    ensures Inv(Exec(EMPTY, steps))
  {
    hide Inv, Enabled, Apply;
    EmptyLedger();
    RunKeepsInv(EMPTY, steps);
  }

  /** No request ever takes effect twice. */
  lemma RequestTakesEffectOnce(l: Ledger, a: nat, b: nat)
    requires Inv(l) && a in l.events && b in l.events
    requires l.events[a].space == l.events[b].space && l.events[a].requestId == l.events[b].requestId
    ensures a == b
  {
  }

  // The history so far is never rewritten.
  ghost predicate Append(l: Ledger, l': Ledger) {
    && CurrentRevision(l) <= CurrentRevision(l')
    && (forall r :: r in l.events ==> r in l'.events && l'.events[r] == l.events[r])
    && (forall id :: id in l.requests ==> id in l'.requests && l'.requests[id] == l.requests[id])
  }

  lemma StepAppends(l: Ledger, step: Step)
    requires Inv(l) && Enabled(l, step)
    ensures Append(l, Apply(l, step))
  {
    if step.Commit? {
      CommitCommits(l, step.plan);
    }
  }

  /** Events and request records stay exactly as committed, for the rest of every run. */
  lemma {:induction false} RunAppends(l: Ledger, steps: seq<Step>)
    requires Inv(l) && IsRun(l, steps)
    ensures Append(l, Exec(l, steps))
    decreases |steps|
  {
    hide Inv, Enabled, Apply;
    if steps != [] {
      StepKeepsInv(l, steps[0]);
      StepAppends(l, steps[0]);
      RunAppends(Apply(l, steps[0]), steps[1..]);
    }
  }
}
