// The kernels of one Space, as they run behind its gate: lease evaluation, upload
// cleanup and collection. Before every storage call the outside may act (clients
// put temporary objects, the reconciler observes object sizes) and the call may
// throw, which also stands for a crash; a reply lost after the call is a throw
// before the next one. Both are drawn from an arbitrary schedule.
module SpaceActor {
  import opened Prelude
  import opened Order
  import opened UsageProjection
  import opened Codec
  import opened CanonicalStream
  import opened SpaceStore
  import opened SpaceInvariant
  import opened SpaceTheorems

  const MIN_LEASE_MS: int := 60 * 1000
  const MAX_LEASE_MS: int := 24 * 60 * 60 * 1000

  datatype Event =
    | ClientPut(key: Key, content: bytes)
    | HeadObject(hash: Hash)
    | WriteObservation(at: nat)

  datatype Turn = Turn(events: seq<Event>, proceeds: bool)

  datatype LeaseError = Storage | Conflict | UploadLimit | DuplicateKey | Interrupted

  datatype LeaseResult =
    | ReadyLease(lease: Lease)
    | AwaitingUpload(upload: Upload)
    | AwaitingReplacement(upload: Upload, rejection: Rejection)
    | AwaitingChildren(children: seq<Hash>)
    | Failed(error: LeaseError)

  datatype Deletion = Deletion(hash: Hash, contentSize: nat, children: seq<(Hash, nat)>)

  datatype GcResult = GcResult(examined: nat, deleted: nat, reclaimedContentBytes: nat)

  // ----- lease arithmetic -----

  function ClampLeaseDuration(value: int): int {
    Min(Max(value, MIN_LEASE_MS), MAX_LEASE_MS)
  }

  function NextNodeLease(existing: Option<Lease>, durationMs: int, now: int): Lease {
    Lease(if existing.Some? && existing.value.expiresAt > now then existing.value.startedAt else now,
          Max(if existing.Some? then existing.value.expiresAt else 0, now + durationMs))
  }

  /** Under any clock reading a renewal keeps start and expiry ordered, moves neither back, and covers the request. */
  lemma NextLeaseIsMonotone(existing: Option<Lease>, durationMs: int, now: int)
    requires existing.Some? ==> existing.value.startedAt <= existing.value.expiresAt
    ensures var lease := NextNodeLease(existing, ClampLeaseDuration(durationMs), now);
            && lease.startedAt <= lease.expiresAt
            && lease.expiresAt >= now + ClampLeaseDuration(durationMs) >= now + MIN_LEASE_MS
            && (existing.Some? ==>
                  existing.value.startedAt <= lease.startedAt && existing.value.expiresAt <= lease.expiresAt)
  {
  }

  /**
   * In plain numbers: the duration counts as at least a minute and at most a day, it is added to the
   * clock and never to an older expiry, and a lease that has run out starts anew.
   */
  lemma NextLeaseInNumbers(existing: Option<Lease>, durationMs: int, now: int)
    ensures var lease := NextNodeLease(existing, ClampLeaseDuration(durationMs), now);
            var duration := if durationMs < 60000 then 60000 else if durationMs > 86400000 then 86400000 else durationMs;
            var expiry := if existing.Some? then existing.value.expiresAt else 0;
            && lease.expiresAt == (if expiry > now + duration then expiry else now + duration)
            && lease.startedAt == (if existing.Some? && expiry > now then existing.value.startedAt else now)
  {
  }

  // ----- what the outside may change while a kernel holds the gate -----

  // Rows that differ in the observation columns only.
  ghost predicate SameButObservations(a: map<Hash, NodeRow>, b: map<Hash, NodeRow>) {
    && a.Keys == b.Keys
    && forall h :: h in a ==>
         b[h] == a[h].(storedBytes := b[h].storedBytes, observedAt := b[h].observedAt)
  }

  ghost predicate Interferes(s: Store, s': Store) {
    && s'.edges == s.edges && s'.uploads == s.uploads && s'.cleanup == s.cleanup && s'.objects == s.objects
    && s'.tables.reservations == s.tables.reservations
    && SameButObservations(s.tables.nodes, s'.tables.nodes)
  }

  // Nothing there is replaced or deleted.
  ghost predicate OnlyPuts(a: map<Key, bytes>, b: map<Key, bytes>) {
    forall k :: k in a ==> k in b && b[k] == a[k]
  }

  // Temporary objects are deleted, and nothing else about the history is new.
  ghost predicate OnlyFrees(h: History, h': History) {
    && h' == h.(staged := h'.staged) && h'.staged.Keys == h.staged.Keys
    && forall k :: k in h.staged ==> h'.staged[k] == h.staged[k] || h'.staged[k] == Deleted
  }

  // What the outside sees and changes: the store, and a head request not yet written back.
  datatype Outside = Outside(store: Store, head: Option<(Hash, Option<nat>)>)

  function Happened(o: Outside, event: Event): Outside {
    match event
    case ClientPut(key, content) => o.(store := o.store.(temporary := PutOnce(o.store.temporary, key, content)))
    case HeadObject(hash) =>
      o.(head := Some((hash, if hash in o.store.objects then Some(|o.store.objects[hash]|) else None)))
    case WriteObservation(at) =>
      if o.head.None? then o
      else
        match ObserveStatement(o.store, o.head.value.0, o.head.value.1, at)
        case Ok(s) => o.(store := s)
        case Err(_) => o
  }

  function After(o: Outside, events: seq<Event>): Outside {
    if events == [] then o else Happened(After(o, events[..|events| - 1]), events[|events| - 1])
  }

  lemma OneMoreEvent(o: Outside, events: seq<Event>, event: Event)
    ensures After(o, events + [event]) == Happened(After(o, events), event)
  {
    assert (events + [event])[..|events|] == events;
  }

  // The actions logged since `before`: which deletions they may contain, and no root update.
  ghost predicate Extends(before: seq<Action>, after: seq<Action>, cutoff: Option<int>) {
    && before <= after
    && forall i :: |before| <= i < |after| ==>
         && !after[i].UpdateRoots?
         && (after[i].DeleteObject? ==> cutoff == Some(after[i].cutoff))
  }

  lemma LogExtendsItself(log: seq<Action>)
    ensures Extends(log, log, None)
  {
  }

  lemma LogExtendsTwice(a: seq<Action>, b: seq<Action>, c: seq<Action>, cutoff: Option<int>)
    requires Extends(a, b, cutoff) && Extends(b, c, cutoff)
    ensures Extends(a, c, cutoff)
  {
  }

  /**
   * What any operation of the actor may have done to the nodes that something needs: whatever was
   * reachable from a present node with root references, or with a lease past the cutoff, when it began is
   * there when it ends, or wherever it was interrupted: row, edges, and object byte for byte.
   */
  lemma OperationIsSafe(
    digest: Digest, origin: World, before: seq<Action>, after: seq<Action>, used: Option<int>, cutoff: int, path: seq<Hash>)
    requires IsRun(digest, origin, before) && IsRun(digest, origin, after) && Extends(before, after, used)
    requires Inv(digest, Exec(origin, before)) && path != [] && path[0] in Exec(origin, before).store.objects
    requires used.Some? ==> used.value <= cutoff
    requires IsPath(Exec(origin, before).store.edges, path) && Pinned(Exec(origin, before), cutoff, path[0])
    ensures IsPath(Exec(origin, after).store.edges, path)
    ensures forall i :: 0 <= i < |path| ==> Kept(Exec(origin, before), Exec(origin, after), path[i])
  {
    hide Inv, Enabled, Apply, Pinned, Kept, Linked;
    var w, actions := Exec(origin, before), after[|before|..];
    assert after == before + actions;
    ExecConcat(digest, origin, before, actions);
    StaysPinned(digest, w, actions, cutoff, path[0]);
    CollectionIsSafe(digest, w, actions, cutoff, path);
  }

  // Rows that keep everything but observations and the count of children referencing them.
  ghost predicate RowsKept(a: map<Hash, NodeRow>, b: map<Hash, NodeRow>) {
    forall h :: h in a ==>
      h in b && b[h] == a[h].(childRefCount := b[h].childRefCount,
                              storedBytes := b[h].storedBytes, observedAt := b[h].observedAt)
  }

  ghost predicate StillReady(s: Store, s': Store) {
    forall h :: Ready(s, h) ==> Ready(s', h)
  }

  // Nothing but the upload records and reservations of `hashes` is gone or changed.
  ghost predicate OnlyExpires(s: Store, s': Store, hashes: set<Hash>) {
    && Undisturbed(s, s')
    && (forall h :: h in s.uploads && h !in hashes ==> h in s'.uploads && s'.uploads[h] == s.uploads[h])
    && (forall h :: h in s.tables.reservations && h !in hashes ==> h in s'.tables.reservations)
    && (forall h :: h in s'.tables.reservations ==>
          h in s.tables.reservations && s'.tables.reservations[h] == s.tables.reservations[h])
  }

  // What a lease evaluation leaves behind, by its answer.
  ghost predicate Evaluated(s: Store, s': Store, hash: Hash, r: LeaseResult) {
    var nodes, nodes' := s.tables.nodes, s'.tables.nodes;
    && s.objects.Keys <= s'.objects.Keys <= s.objects.Keys + {hash}
    && match r
       case ReadyLease(lease) =>
         && nodes'.Keys == nodes.Keys + {hash} && hash in s'.objects
         && nodes'[hash].leaseStartedAt == lease.startedAt && nodes'[hash].leaseExpiresAt == lease.expiresAt
         && RowsKept(nodes - {hash}, nodes')
       case _ => SameButObservations(nodes, nodes')
  }

  datatype Preparation = Prepared | Unready(children: seq<Hash>) | Refused(error: LeaseError)

  // The canonical object is there, or bytes with its digest are at hand.
  ghost predicate Obtainable(s: Store, digest: Digest, hash: Hash, key: Key, validated: Option<bytes>) {
    || hash in s.objects
    || (validated.Some? && digest(validated.value) == hash)
    || (validated.None? && key in s.temporary && digest(s.temporary[key]) == hash)
  }

  ghost predicate Undisturbed(s: Store, s': Store) {
    s'.objects == s.objects && s'.edges == s.edges && SameButObservations(s.tables.nodes, s'.tables.nodes)
  }

  lemma InterferesReflexive(s: Store)
    ensures Interferes(s, s)
  {
  }

  lemma InterferesTwice(a: Store, b: Store, c: Store)
    requires Interferes(a, b) && Interferes(b, c)
    ensures Interferes(a, c)
  {
  }

  lemma InterferenceKeepsReady(s: Store, s': Store)
    requires Interferes(s, s')
    ensures forall h :: Ready(s, h) <==> Ready(s', h)
  {
  }

  lemma InterferenceExpiresNothing(s: Store, s': Store, hashes: set<Hash>)
    requires Interferes(s, s')
    ensures OnlyExpires(s, s', hashes)
    ensures s'.uploads == s.uploads
  {
  }

  lemma DrainExpiresNothing(s: Store, s': Store)
    requires Interferes(s.(cleanup := s'.cleanup), s')
    ensures OnlyExpires(s, s', {})
  {
  }

  lemma StillRecorded(s: Store, s': Store, hashes: set<Hash>, hash: Hash)
    requires OnlyExpires(s, s', hashes) && hash in s.uploads && hash !in hashes
    ensures hash in s'.uploads && s'.uploads[hash] == s.uploads[hash]
  {
  }

  lemma ExpiresTransitive(a: Store, b: Store, c: Store, first: set<Hash>, second: set<Hash>, all: set<Hash>)
    requires OnlyExpires(a, b, first) && OnlyExpires(b, c, second) && first + second <= all
    ensures OnlyExpires(a, c, all)
  {
  }

  lemma CommitEvaluates(digest: Digest, w: World, hash: Hash, v: Validation, lease: Lease, at: nat)
    requires Inv(digest, w) && Enabled(digest, w, CommitNode(hash, v, lease, at))
    ensures var s' := Apply(w, CommitNode(hash, v, lease, at)).store;
            && Evaluated(w.store, s', hash, ReadyLease(lease)) && StillReady(w.store, s')
            && s'.tables.reservations == w.store.tables.reservations - {hash}
            && s'.uploads == w.store.uploads && s'.temporary == w.store.temporary && s'.cleanup == w.store.cleanup
  {
    hide Inv, CommitNodeBatch, Describes, Witnessed;
    CommitNodeCommits(digest, w, hash, v, lease, at);
  }

  lemma DropsAfterPublication(s: Store, published: Store, s': Store, hash: Hash, key: Key)
    requires published.tables.reservations == s.tables.reservations - {hash}
    requires published.uploads == s.uploads && published.temporary == s.temporary && published.cleanup == s.cleanup
    requires s' == published.(temporary := published.temporary - {key}, cleanup := published.cleanup - {key},
                              uploads := published.uploads - {hash})
    ensures DropsRecords(s, s', {hash}, {key})
  {
  }

  // What staging the validation first changes about the rest of the evaluation: nothing.
  lemma StagedThenPublished(
    s: Store, staged: Store, s': Store, hash: Hash, upload: Upload, v: Validation, reservation: Reservation,
    obtainable: bool, r: LeaseResult)
    requires hash in s.uploads && s.uploads[hash] == upload && staged.tables.nodes == s.tables.nodes
    requires staged == s.(uploads := staged.uploads, tables := staged.tables)
    requires staged.uploads == s.uploads[hash := upload.(validation := Some(v))]
    requires staged.tables.reservations == s.tables.reservations[hash := reservation]
    requires PublishesOrWaits(staged, s', hash, upload.(validation := Some(v)), v, obtainable, r)
    ensures PublishesOrWaits(s, s', hash, upload, v, obtainable, r)
  {
    assert staged.uploads - {hash} == s.uploads - {hash};
    assert staged.tables.reservations - {hash} == s.tables.reservations - {hash};
    assert forall c :: Ready(s, c) <==> Ready(staged, c);
  }

  lemma StagedProgress(
    digest: Digest, s: Store, s': Store, hash: Hash, upload: Upload, successor: Upload, now: int, r: LeaseResult)
    requires upload.temporaryKey in s.temporary && upload.validation.Some? && hash !in s.objects
    requires PublishesOrWaits(s, s', hash, upload, upload.validation.value,
                              Obtainable(s, digest, hash, upload.temporaryKey, None), r)
    ensures Progresses(digest, s, s', hash, upload, successor, now, r)
  {
    hide PublishesOrWaits;
  }

  lemma AcceptedProgress(
    digest: Digest, s: Store, s': Store, hash: Hash, upload: Upload, successor: Upload, now: int, v: Validation,
    r: LeaseResult)
    requires upload.temporaryKey in s.temporary && upload.validation.None?
    requires Acceptable(digest, hash, s.temporary[upload.temporaryKey])
    requires Describes(digest, hash, v, s.temporary[upload.temporaryKey])
    requires PublishesOrWaits(s, s', hash, upload, v,
                              Obtainable(s, digest, hash, upload.temporaryKey, Some(s.temporary[upload.temporaryKey])), r)
    ensures Progresses(digest, s, s', hash, upload, successor, now, r)
  {
    hide PublishesOrWaits, ParseNode;
  }

  lemma RejectedProgress(
    digest: Digest, s: Store, s': Store, hash: Hash, upload: Upload, successor: Upload, now: int, rejection: Rejection,
    r: LeaseResult)
    requires upload.temporaryKey in s.temporary && upload.validation.None?
    requires !Acceptable(digest, hash, s.temporary[upload.temporaryKey])
    requires rejection == RejectionOf(digest, hash, s.temporary[upload.temporaryKey])
    requires Replaces(s, s', hash, upload, successor.(rejection := Some(rejection)), r)
    ensures Progresses(digest, s, s', hash, upload, successor, now, r)
  {
    hide Replaces, ParseNode;
  }

  lemma EvaluatedStays(s: Store, s1: Store, s2: Store, hash: Hash, lease: Lease)
    requires Evaluated(s, s1, hash, ReadyLease(lease)) && StillReady(s, s1) && Undisturbed(s1, s2)
    ensures Evaluated(s, s2, hash, ReadyLease(lease)) && StillReady(s, s2)
  {
  }

  lemma EvaluatedFrom(s0: Store, s: Store, s1: Store, hash: Hash, r: LeaseResult)
    requires SameButObservations(s0.tables.nodes, s.tables.nodes)
    requires s0.objects.Keys <= s.objects.Keys <= s0.objects.Keys + {hash}
    requires Evaluated(s, s1, hash, r)
    ensures Evaluated(s0, s1, hash, r)
  {
  }

  // What an answer says about the upload record, or about the lease it grants.
  ghost predicate Answers(s: Store, hash: Hash, notBefore: int, r: LeaseResult) {
    match r
    case ReadyLease(lease) => lease.startedAt <= lease.expiresAt && lease.expiresAt >= notBefore
    case AwaitingUpload(upload) =>
      hash in s.uploads && s.uploads[hash] == upload && upload.validation.None? && upload.rejection.None?
    case AwaitingReplacement(upload, rejection) =>
      hash in s.uploads && s.uploads[hash] == upload && upload.validation.None? && upload.rejection == Some(rejection)
    case AwaitingChildren(children) =>
      && hash in s.uploads && s.uploads[hash].validation.Some? && children != []
      && forall c :: c in children <==> c in s.uploads[hash].validation.value.metadata.refs && !Ready(s, c)
    case Failed(_) => true
  }

  lemma NothingEvaluated(s: Store, s': Store, hash: Hash)
    requires SameButObservations(s.tables.nodes, s'.tables.nodes)
    requires s.objects.Keys <= s'.objects.Keys <= s.objects.Keys + {hash}
    ensures forall error :: Evaluated(s, s', hash, Failed(error))
    ensures forall error, notBefore :: Answers(s', hash, notBefore, Failed(error))
  {
  }

  // An answer that neither grants a lease nor reports an interruption leaves the rows alone.
  lemma EvaluatedWithoutLease(s: Store, s': Store, hash: Hash, r: LeaseResult)
    requires SameButObservations(s.tables.nodes, s'.tables.nodes) && !r.ReadyLease?
    requires s.objects.Keys <= s'.objects.Keys <= s.objects.Keys + {hash}
    ensures Evaluated(s, s', hash, r)
  {
  }

  lemma OversizedIsUnacceptable(digest: Digest, hash: Hash, content: bytes)
    requires |content| > MAX_CANONICAL_NODE_BYTES
    ensures !Acceptable(digest, hash, content) && RejectionOf(digest, hash, content) == OversizedUpload
  {
  }

  // What validation accepts: bounded bytes with the right digest that parse as a canonical node.
  ghost predicate Acceptable(digest: Digest, hash: Hash, content: bytes) {
    |content| <= MAX_CANONICAL_NODE_BYTES && digest(content) == hash && ParseNode(content, DEFAULT_LIMITS).Ok?
  }

  // Exactly these records, their reservations and these temporary objects are gone.
  ghost predicate DropsRecords(s: Store, s': Store, hashes: set<Hash>, keys: set<Key>) {
    && s'.uploads == s.uploads - hashes && s'.tables.reservations == s.tables.reservations - hashes
    && s'.temporary == s.temporary - keys && s'.cleanup == s.cleanup - keys
  }

  // Nothing else about the Space is different.
  ghost predicate DropsOnly(s: Store, s': Store, hashes: set<Hash>, keys: set<Key>) {
    && DropsRecords(s, s', hashes, keys)
    && s'.tables.nodes == s.tables.nodes && s'.edges == s.edges && s'.objects == s.objects
  }

  lemma MapMinus<T>(m: map<bytes, T>, a: set<bytes>, b: set<bytes>)
    ensures m - a - b == m - (a + b)
  {
  }

  lemma DropsMore(a: Store, b: Store, c: Store, first: set<Hash>, keys: set<Key>, second: set<Hash>, more: set<Key>)
    requires DropsOnly(a, b, first, keys) && DropsOnly(b, c, second, more)
    ensures DropsOnly(a, c, first + second, keys + more)
  {
    MapMinus(a.uploads, first, second);
    MapMinus(a.tables.reservations, first, second);
    MapMinus(a.temporary, keys, more);
    MapMinus(a.cleanup, keys, more);
  }

  lemma RecordThenObject(s: Store, emptied: Store, s': Store, hash: Hash, key: Key)
    requires emptied == s.(temporary := s.temporary - {key}, cleanup := s.cleanup - {key})
    requires DropsOnly(emptied, s', {hash}, {})
    ensures DropsOnly(s, s', {hash}, {key})
  {
    assert s'.temporary == s.temporary - {key} && s'.cleanup == s.cleanup - {key};
  }

  lemma NothingDropped(s: Store, rows: seq<Hash>)
    requires rows == []
    ensures HashesOf(rows) == {} && KeysOf(s, rows) == {}
    ensures DropsOnly(s, s, HashesOf(rows), KeysOf(s, rows))
  {
    assert s.uploads - {} == s.uploads && s.tables.reservations - {} == s.tables.reservations;
    assert s.temporary - {} == s.temporary && s.cleanup - {} == s.cleanup;
  }

  // ----- what clean-up selects -----

  predicate DistinctHashes(rows: seq<Hash>) {
    forall i, j :: 0 <= i < j < |rows| ==> rows[i] != rows[j]
  }

  function HashesOf(rows: seq<Hash>): set<Hash> {
    set h | h in rows
  }

  function KeySet(keys: seq<Key>): set<Key> {
    set k | k in keys
  }

  function KeysOf(s: Store, rows: seq<Hash>): set<Key> {
    set h | h in rows && h in s.uploads :: s.uploads[h].temporaryKey
  }

  function DueUploads(s: Store, now: int): map<Hash, int> {
    map h | h in s.uploads && s.uploads[h].cleanupAt <= now :: s.uploads[h].cleanupAt
  }

  function DueKeys(cleanup: map<Key, int>, now: int): map<Key, int> {
    map k | k in cleanup && cleanup[k] <= now :: cleanup[k]
  }

  // Until when each record is kept.
  ghost function CleanupTimes(s: Store): map<Hash, int> {
    map h | h in s.uploads :: s.uploads[h].cleanupAt
  }

  // The records whose own clean-up time has come.
  ghost function Overdue(s: Store, now: int): set<Hash> {
    set h | h in s.uploads && s.uploads[h].cleanupAt <= now
  }

  lemma SelectsOverdue(s: Store, now: int, limit: nat, rows: seq<Hash>)
    requires IsFirst(DueUploads(s, now), limit, rows)
    ensures Earliest(CleanupTimes(s), now, limit, rows)
  {
    FirstIsEarliest(CleanupTimes(s), now, DueUploads(s, now), limit, rows);
  }

  lemma SameOverdue(s: Store, s': Store, now: int)
    requires Interferes(s, s')
    ensures Overdue(s', now) == Overdue(s, now) && CleanupTimes(s') == CleanupTimes(s)
  {
  }

  lemma RowsAreOverdue(s: Store, now: int, limit: nat, rows: seq<Hash>)
    requires Earliest(CleanupTimes(s), now, limit, rows)
    ensures DistinctHashes(rows) && |rows| <= limit && HashesOf(rows) <= Overdue(s, now)
    ensures forall h :: h in rows ==> h in s.uploads
  {
    forall h | h in rows
      ensures h in Overdue(s, now)
    {
      var i :| 0 <= i < |rows| && rows[i] == h;
    }
  }

  lemma OneMoreRow(s: Store, rows: seq<Hash>, i: nat)
    requires i < |rows| && rows[i] in s.uploads
    ensures HashesOf(rows[..i + 1]) == HashesOf(rows[..i]) + {rows[i]} && HashesOf(rows[..i + 1]) <= HashesOf(rows)
    ensures KeysOf(s, rows[..i + 1]) == KeysOf(s, rows[..i]) + {s.uploads[rows[i]].temporaryKey}
  {
    assert rows[..i + 1] == rows[..i] + [rows[i]];
  }

  // The oldest `limit` due keys of the queue, with their objects, and nothing else.
  ghost predicate Drained(s: Store, s': Store, now: int, limit: nat, keys: seq<Key>) {
    && Earliest(s.cleanup, now, limit, keys)
    && s' == s.(temporary := s.temporary - KeySet(keys), cleanup := s.cleanup - KeySet(keys))
  }

  ghost predicate Drains(s: Store, s': Store, now: int, limit: nat, deleted: nat) {
    exists keys :: Drained(s, s', now, limit, keys) && deleted == |keys|
  }

  lemma NothingDrained(s: Store, now: int)
    ensures Drains(s, s, now, 0, 0)
  {
    assert s.temporary - KeySet([]) == s.temporary && s.cleanup - KeySet([]) == s.cleanup;
    assert Drained(s, s, now, 0, []);
  }

  // The oldest due uploads up to the limit, then with what is left of it the oldest due superseded keys.
  ghost predicate CleanedUp(s: Store, s': Store, now: int, limit: nat, rows: seq<Hash>, keys: seq<Key>) {
    && Earliest(CleanupTimes(s), now, limit, rows)
    && Earliest(s.cleanup - KeysOf(s, rows), now, limit - |rows|, keys)
    && DropsOnly(s, s', HashesOf(rows), KeysOf(s, rows) + KeySet(keys))
  }

  // An undisturbed clean-up deletes these and reports how many.
  ghost predicate CleansUp(s: Store, s': Store, now: int, limit: nat, deleted: nat) {
    exists rows, keys :: CleanedUp(s, s', now, limit, rows, keys) && deleted == |rows| + |keys|
  }

  lemma CleanedUpInTwo(s: Store, middle: Store, s': Store, now: int, limit: nat, rows: seq<Hash>, drained: nat)
    requires Earliest(CleanupTimes(s), now, limit, rows) && |rows| <= limit
    requires DropsOnly(s, middle, HashesOf(rows), KeysOf(s, rows))
    requires Drains(middle, s', now, limit - |rows|, drained)
    ensures CleansUp(s, s', now, limit, |rows| + drained)
  {
    hide Earliest;
    var keys :| Drained(middle, s', now, limit - |rows|, keys) && drained == |keys|;
    assert middle.uploads - {} == middle.uploads && middle.tables.reservations - {} == middle.tables.reservations;
    assert DropsOnly(middle, s', {}, KeySet(keys));
    DropsMore(s, middle, s', HashesOf(rows), KeysOf(s, rows), {}, KeySet(keys));
    assert HashesOf(rows) + {} == HashesOf(rows);
    assert CleanedUp(s, s', now, limit, rows, keys);
  }

  lemma OnlyExpiresMore(s: Store, s': Store, hashes: set<Hash>, more: set<Hash>)
    requires OnlyExpires(s, s', hashes) && hashes <= more
    ensures OnlyExpires(s, s', more)
  {
  }

  // The record says there is nothing to evaluate yet.
  function Awaiting(upload: Upload): LeaseResult {
    if upload.rejection.None? then AwaitingUpload(upload) else AwaitingReplacement(upload, upload.rejection.value)
  }

  // The validation on record was read from the temporary object, and that was not deleted since.
  ghost predicate StagedFromUpload(w: World, hash: Hash) {
    && hash in w.store.uploads && w.store.uploads[hash].validation.Some?
    && w.store.uploads[hash].temporaryKey in w.history.staged
    && w.history.staged[w.store.uploads[hash].temporaryKey].FromUpload?
  }

  // Nothing was staged from a canonical object or lost its temporary object yet.
  ghost predicate Stageable(w: World, hash: Hash) {
    hash in w.store.uploads && w.store.uploads[hash].validation.Some? ==> StagedFromUpload(w, hash)
  }

  // The record the writer expects is the current one; None expects that there is none.
  predicate Expects(s: Store, hash: Hash, generation: Option<Key>) {
    match generation
    case None => hash !in s.uploads
    case Some(g) => IsCurrent(s, hash, g)
  }

  // Undisturbed, the record is superseded, its temporary object is gone, and the answer is its
  // successor; unless the successor's key is another record's.
  ghost predicate Replaces(s: Store, s': Store, hash: Hash, upload: Upload, replacement: Upload, r: LeaseResult) {
    if KeyTaken(s, hash, replacement.temporaryKey) then r == Failed(DuplicateKey) && s' == s
    else
    && r == Awaiting(replacement)
    && s' == s.(uploads := s.uploads[hash := replacement], temporary := s.temporary - {upload.temporaryKey},
                cleanup := s.cleanup - {upload.temporaryKey})
  }

  // Without a temporary object a validated record is an error, a running session waits, and one that is over is replaced.
  ghost predicate Waits(s: Store, s': Store, hash: Hash, upload: Upload, successor: Upload, now: int, r: LeaseResult) {
    if upload.validation.Some? then r == Failed(Storage) && s' == s
    else if upload.expiresAt > now then r == Awaiting(upload) && s' == s
    else Replaces(s, s', hash, upload, successor.(rejection := upload.rejection), r)
  }

  // The validation is on record with its reservation, and nothing else is different.
  ghost predicate Stages(s: Store, s': Store, hash: Hash, upload: Upload, v: Validation) {
    && s' == s.(uploads := s.uploads[hash := upload.(validation := Some(v))], tables := s'.tables)
    && s'.tables.nodes == s.tables.nodes
    && s'.tables.reservations.Keys <= s.tables.reservations.Keys + {hash}
    && s'.tables.reservations - {hash} == s.tables.reservations - {hash}
  }

  // A validated upload waits for children that are not ready, else is published if its bytes are to be had.
  ghost predicate PublishesOrWaits(
    s: Store, s': Store, hash: Hash, upload: Upload, v: Validation, obtainable: bool, r: LeaseResult)
  {
    if exists c :: c in v.metadata.refs && !Ready(s, c)
    then r.AwaitingChildren? && Stages(s, s', hash, upload, v)
    else if obtainable then r.ReadyLease? && DropsRecords(s, s', {hash}, {upload.temporaryKey})
    else r.Failed?
  }

  // Why validation refuses these bytes.
  function RejectionOf(digest: Digest, hash: Hash, content: bytes): Rejection {
    if |content| > MAX_CANONICAL_NODE_BYTES then OversizedUpload
    else if digest(content) != hash then DigestMismatch
    else InvalidUpload
  }

  // What an undisturbed evaluation of an upload record answers and leaves behind, in every case.
  ghost predicate Progresses(
    digest: Digest, s: Store, s': Store, hash: Hash, upload: Upload, successor: Upload, now: int, r: LeaseResult)
  {
    if upload.temporaryKey !in s.temporary then Waits(s, s', hash, upload, successor, now, r)
    else
      var content := s.temporary[upload.temporaryKey];
      if upload.validation.Some? then
        PublishesOrWaits(s, s', hash, upload, upload.validation.value, digest(content) == hash, r)
      else if Acceptable(digest, hash, content) then
        PublishesOrWaits(s, s', hash, upload, Validation(|content|, ParseNode(content, DEFAULT_LIMITS).value), true, r)
      else
        Replaces(s, s', hash, upload, successor.(rejection := Some(RejectionOf(digest, hash, content))), r)
  }

  /** A rejection says what is wrong, the size before the digest; a record that waits is answered with its rejection, if it has one. */
  lemma RejectionInPlainTerms(digest: Digest, hash: Hash, content: bytes, upload: Upload)
    ensures RejectionOf(digest, hash, content) == OversizedUpload <==> |content| > 67108864
    ensures RejectionOf(digest, hash, content) == DigestMismatch <==> |content| <= 67108864 && digest(content) != hash
    ensures Awaiting(upload) == AwaitingUpload(upload) <==> upload.rejection == None
    ensures forall r :: Awaiting(upload) == AwaitingReplacement(upload, r) <==> upload.rejection == Some(r)
  {
  }

  // The store with one more upload record.
  function WithUpload(s: Store, hash: Hash, upload: Upload): Store {
    s.(uploads := s.uploads[hash := upload])
  }

  // A first request is refused at the limit; below it the new record is there and is evaluated at once.
  ghost predicate Admits(
    digest: Digest, s: Store, s': Store, hash: Hash, upload: Upload, successor: Upload, maxActiveUploads: nat, now: int,
    r: LeaseResult)
  {
    if |s.uploads| >= maxActiveUploads then r == Failed(UploadLimit) && s' == s
    else if KeyTaken(s, hash, upload.temporaryKey) then r == Failed(DuplicateKey) && s' == s
    else Progresses(digest, WithUpload(s, hash, upload), s', hash, upload, successor, now, r)
  }

  lemma RefusedAtLimit(digest: Digest, s: Store, hash: Hash, maxActiveUploads: nat)
    requires |s.uploads| >= maxActiveUploads
    ensures forall upload, successor, now ::
              Admits(digest, s, s, hash, upload, successor, maxActiveUploads, now, Failed(UploadLimit))
  {
  }

  lemma RefusedDuplicate(digest: Digest, s: Store, hash: Hash, upload: Upload, maxActiveUploads: nat)
    requires |s.uploads| < maxActiveUploads && KeyTaken(s, hash, upload.temporaryKey)
    ensures forall successor, now ::
              Admits(digest, s, s, hash, upload, successor, maxActiveUploads, now, Failed(DuplicateKey))
  {
  }

  lemma AdmitsRecord(
    digest: Digest, s: Store, s': Store, hash: Hash, upload: Upload, successor: Upload, maxActiveUploads: nat, now: int,
    r: LeaseResult)
    requires |s.uploads| < maxActiveUploads && !KeyTaken(s, hash, upload.temporaryKey)
    requires Progresses(digest, WithUpload(s, hash, upload), s', hash, upload, successor, now, r)
    ensures Admits(digest, s, s', hash, upload, successor, maxActiveUploads, now, r)
  {
    hide Progresses;
  }

  // The references an orphaned object's publication needs: those staged, else those its bytes declare.
  ghost function OrphanRefs(digest: Digest, hash: Hash, content: bytes, found: Option<Upload>): Option<seq<Hash>> {
    if found.Some? && found.value.validation.Some? then Some(found.value.validation.value.metadata.refs)
    else if Acceptable(digest, hash, content) then Some(ParseNode(content, DEFAULT_LIMITS).value.refs)
    else None
  }

  // Undisturbed, recovery publishes an intact orphan exactly when its children are ready; without a
  // record it first makes one under `key`, which must not be another record's.
  ghost predicate Recovers(digest: Digest, s: Store, hash: Hash, found: Option<Upload>, key: Key, r: LeaseResult)
    requires hash in s.objects
  {
    if found.None? && KeyTaken(s, hash, key) then r == Failed(DuplicateKey)
    else
    match OrphanRefs(digest, hash, s.objects[hash], found)
    case None => r.Failed?
    case Some(refs) => if exists c :: c in refs && !Ready(s, c) then r.AwaitingChildren? else r.ReadyLease?
  }

  lemma StagedOrphan(digest: Digest, hash: Hash, content: bytes, found: Option<Upload>)
    requires found.Some? && found.value.validation.Some?
    ensures OrphanRefs(digest, hash, content, found) == Some(found.value.validation.value.metadata.refs)
  {
  }

  lemma FreshOrphan(digest: Digest, s: Store, hash: Hash, found: Option<Upload>, validated: Result<Validation, Rejection>)
    requires hash in s.objects && found.Some? && found.value.validation.None?
    requires validated.Ok? <==> Acceptable(digest, hash, s.objects[hash])
    requires validated.Ok? ==> Describes(digest, hash, validated.value, s.objects[hash])
    ensures validated.Ok? ==> OrphanRefs(digest, hash, s.objects[hash], found) == Some(validated.value.metadata.refs)
    ensures validated.Err? ==> forall key :: Recovers(digest, s, hash, found, key, Failed(Storage))
  {
    hide ParseNode;
  }

  lemma DuplicateOrphan(digest: Digest, s: Store, hash: Hash, upload: Upload)
    requires hash in s.objects
    ensures KeyTaken(s, hash, upload.temporaryKey) ==>
              Recovers(digest, s, hash, None, upload.temporaryKey, Failed(DuplicateKey))
  {
    hide OrphanRefs;
  }

  // A fresh record says nothing about the orphan that its bytes do not.
  lemma RecordChangesNothing(digest: Digest, s: Store, recorded: Store, hash: Hash, upload: Upload, r: LeaseResult)
    requires hash in s.objects && Undisturbed(s, recorded) && upload.validation.None?
    requires !KeyTaken(s, hash, upload.temporaryKey)
    ensures Recovers(digest, recorded, hash, Some(upload), upload.temporaryKey, r) ==>
              Recovers(digest, s, hash, None, upload.temporaryKey, r)
  {
    hide ParseNode, Acceptable;
    assert forall c :: Ready(s, c) <==> Ready(recorded, c);
  }

  lemma RecoversWhenReady(
    digest: Digest, s: Store, s1: Store, s': Store, hash: Hash, found: Option<Upload>, upload: Upload, v: Validation,
    r: LeaseResult)
    requires hash in s.objects && Undisturbed(s, s1) && found.Some?
    requires OrphanRefs(digest, hash, s.objects[hash], found) == Some(v.metadata.refs)
    requires PublishesOrWaits(s1, s', hash, upload, v, Obtainable(s1, digest, hash, upload.temporaryKey, None), r)
    ensures forall key :: Recovers(digest, s, hash, found, key, r)
  {
    hide ParseNode, Acceptable;
    assert forall c :: Ready(s, c) <==> Ready(s1, c);
  }

  function NewUpload(
    identifiers: (Key, Key), now: int, sessionMs: int, cleanupMs: int, rejection: Option<Rejection>): Upload
  {
    Upload(identifiers.0, identifiers.1, now, now + sessionMs, now + sessionMs + cleanupMs, rejection, None)
  }

  /** A new session lasts as long as sessions do from now, and its record is kept for the grace time after it. */
  lemma NewUploadInNumbers(identifiers: (Key, Key), now: int, sessionMs: int, cleanupMs: int, rejection: Option<Rejection>)
    ensures var upload := NewUpload(identifiers, now, sessionMs, cleanupMs, rejection);
            && (upload.generation, upload.temporaryKey) == identifiers && upload.createdAt == now
            && upload.expiresAt - now == sessionMs && upload.cleanupAt - upload.expiresAt == cleanupMs
            && upload.rejection == rejection && upload.validation.None?
  {
  }

  lemma UploadIsWitnessed(digest: Digest, w: World, hash: Hash)
    requires Inv(digest, w) && hash in w.store.uploads && w.store.uploads[hash].validation.Some?
    ensures Witnessed(digest, w.history.seen, hash, w.store.uploads[hash].validation.value)
  {
  }

  lemma LeaseIsOrdered(digest: Digest, w: World, hash: Hash)
    requires Inv(digest, w) && hash in w.store.tables.nodes
    ensures w.store.tables.nodes[hash].leaseStartedAt <= w.store.tables.nodes[hash].leaseExpiresAt
  {
  }

  // One more admitted action makes a longer run.
  lemma RunAdvances(digest: Digest, origin: World, log: seq<Action>, w: World, a: Action)
    requires IsRun(digest, origin, log) && Exec(origin, log) == w && Inv(digest, w) && Enabled(digest, w, a)
    ensures IsRun(digest, origin, log + [a]) && Exec(origin, log + [a]) == Apply(w, a)
    ensures Inv(digest, Apply(w, a))
  {
    hide Inv, Enabled, Batch, Recorded;
    ExecConcat(digest, origin, log, [a]);
    StepKeepsInv(digest, w, a);
    assert [a][1..] == [];
    assert Exec(w, [a]) == Exec(Apply(w, a), []);
    assert IsRun(digest, Apply(w, a), []);
  }

  class Space {
    const digest: Digest
    const schedule: nat -> Turn
    var clock: nat

    // the database
    var tables: Metered
    var edges: set<Edge>
    var uploads: map<Hash, Upload>
    var cleanup: map<Key, int>

    // the object bucket
    var objects: map<Hash, bytes>
    var temporary: map<Key, bytes>

    // the reconciler's last head request and its answer, not yet written back
    var head: Option<(Hash, Option<nat>)>

    ghost const origin: World
    ghost var history: History
    ghost var log: seq<Action>

    function S(): Store
      reads this
    {
      Store(tables, edges, uploads, cleanup, objects, temporary)
    }

    ghost function W(): World
      reads this
    {
      World(S(), history)
    }

    /** The state satisfies the invariant and was reached by a run of admitted actions. */
    ghost predicate Valid()
      reads this
    {
      && Inv(digest, W())
      && IsRun(digest, origin, log) && Exec(origin, log) == W()
      && (head.Some? && head.value.1.Some? ==> LengthSeen(digest, history.seen, head.value.0, head.value.1.value))
    }

    constructor (digest: Digest, schedule: nat -> Turn, s: Store, ghost h: History)
      requires Inv(digest, World(s, h))
      ensures Valid() && S() == s && this.digest == digest && this.schedule == schedule && log == []
    {
      this.digest, this.schedule, this.clock := digest, schedule, 0;
      tables, edges, uploads, cleanup := s.tables, s.edges, s.uploads, s.cleanup;
      objects, temporary := s.objects, s.temporary;
      head := None;
      origin, history, log := World(s, h), h, [];
    }

    // An undisturbed schedule: nothing from outside, and no call throws.
    ghost predicate Benign() {
      forall n :: schedule(n) == Turn([], true)
    }

    // ----- one atomic storage action -----

    // The commit point every storage action goes through: the fields take the action's new values.
    method Perform(ghost a: Action, s: Store)
      requires Valid() && Enabled(digest, W(), a) && Batch(S(), a) == Ok(s)
      modifies this
      ensures Valid() && S() == s && W() == Apply(old(W()), a)
      ensures log == old(log) + [a] && clock == old(clock) && head == old(head)
    {
      hide Inv, Enabled, Batch, LengthSeen, Recorded, IsRun, Exec, Apply;
      ghost var before := W();
      ApplyCommitted(before, a, s);
      SeenGrows(before, a);
      HeadStaysTrue(digest, history.seen, Recorded(before, a).seen, head);
      tables, edges, uploads, cleanup := s.tables, s.edges, s.uploads, s.cleanup;
      objects, temporary := s.objects, s.temporary;
      history := Recorded(before, a);
      log := log + [a];
      assert S() == s && W() == Apply(before, a);
      RunAdvances(digest, origin, old(log), before, a);
    }

    // The outside acts as scheduled, then the call about to be made either proceeds or throws.
    method Tick() returns (proceeds: bool)
      requires Valid()
      modifies this
      ensures Valid() && Interferes(old(S()), S()) && OnlyPuts(old(temporary), temporary) && history == old(history)
      ensures Extends(old(log), log, None)
      ensures Benign() ==> proceeds && S() == old(S())
      ensures clock == old(clock) + 1 && proceeds == schedule(old(clock)).proceeds
      ensures Outside(S(), head) == After(Outside(old(S()), old(head)), schedule(old(clock)).events)
    {
      hide Inv;
      var turn := schedule(clock);
      clock := clock + 1;
      for i := 0 to |turn.events|
        invariant Valid() && Interferes(old(S()), S()) && OnlyPuts(old(temporary), temporary) && history == old(history)
        invariant Extends(old(log), log, None)
        invariant turn.events == [] ==> S() == old(S())
        invariant clock == old(clock) + 1
        invariant Outside(S(), head) == After(Outside(old(S()), old(head)), turn.events[..i])
      {
        assert turn.events[..i + 1] == turn.events[..i] + [turn.events[i]];
        OneMoreEvent(Outside(old(S()), old(head)), turn.events[..i], turn.events[i]);
        Happen(turn.events[i]);
      }
      assert turn.events[..|turn.events|] == turn.events;
      proceeds := turn.proceeds;
    }

    // One event of the outside.
    method Happen(event: Event)
      requires Valid()
      modifies this
      ensures Valid() && Interferes(old(S()), S()) && OnlyPuts(old(temporary), temporary) && history == old(history)
      ensures Extends(old(log), log, None) && clock == old(clock)
      ensures Outside(S(), head) == Happened(Outside(old(S()), old(head)), event)
    {
      hide Inv, ObserveStatement;
      match event {
        case ClientPut(key, content) =>
          Perform(PutTemporary(key, content), S().(temporary := PutOnce(temporary, key, content)));
        case HeadObject(hash) =>
          ObjectLengthSeen(digest, W(), hash);
          head := Some((hash, if hash in objects then Some(|objects[hash]|) else None));
        case WriteObservation(at) =>
          if head.Some? {
            var (hash, stored) := head.value;
            StepKeepsInv(digest, W(), Observe(hash, stored, at));
            ObserveShape(S(), hash, stored, at);
            Perform(Observe(hash, stored, at), ObserveStatement(S(), hash, stored, at).value);
          }
      }
    }

    // ----- reads -----

    // Rows are ready from the moment they are committed.
    function ReadNodeLease(hash: Hash): Option<Lease>
      reads this
    {
      if hash in tables.nodes
      then Some(Lease(tables.nodes[hash].leaseStartedAt, tables.nodes[hash].leaseExpiresAt))
      else None
    }

    function ReadUpload(hash: Hash): Option<Upload>
      reads this
    {
      if hash in uploads then Some(uploads[hash]) else None
    }

    // ----- batches with a loop -----

    /** Publishes a node: its row, one edge and one count per reference, and its reservation dropped, all or nothing. */
    method CommitUploadedCanonicalNode(hash: Hash, v: Validation, lease: Lease, at: nat)
      requires Valid() && Enabled(digest, W(), CommitNode(hash, v, lease, at))
      modifies this
      ensures Valid() && W() == Apply(old(W()), CommitNode(hash, v, lease, at))
      ensures log == old(log) + [CommitNode(hash, v, lease, at)] && clock == old(clock)
    {
      hide Inv, Enabled, AddEdge, InsertNode, DeleteReservation;
      var refs := v.metadata.refs;
      CommitNodeCommits(digest, W(), hash, v, lease, at);
      var transaction := WithTables(S(), InsertNode(tables, hash, NewRow(v, lease, at)));
      ghost var inserted := transaction.value;
      for index := 0 to |refs|
        invariant transaction.Ok?
        invariant AddEdges(inserted, hash, refs, 0) == AddEdges(transaction.value, hash, refs, index)
      {
        transaction := AddEdge(transaction.value, Edge(hash, index, refs[index]));
      }
      var linked := transaction.value;
      transaction := WithTables(linked, DeleteReservation(linked.tables, hash));
      Perform(CommitNode(hash, v, lease, at), transaction.value);
    }

    /** Deletes a node's edges and row and takes its references off its children, all or nothing. */
    method CommitNodeDeletion(deletion: Deletion)
      requires Valid() && Enabled(digest, W(), CommitDeletion(deletion.hash, deletion.children))
      modifies this
      ensures Valid() && W() == Apply(old(W()), CommitDeletion(deletion.hash, deletion.children))
      ensures log == old(log) + [CommitDeletion(deletion.hash, deletion.children)] && clock == old(clock)
    {
      hide Inv, Enabled, ShiftChildCount, DeleteNode;
      var children := deletion.children;
      CommitDeletionCommits(digest, W(), deletion.hash, children);
      var unlinked := S().(edges := set e | e in edges && e.parent != deletion.hash);
      var transaction := WithTables(unlinked, DeleteNode(unlinked.tables, deletion.hash));
      ghost var deleted := transaction.value;
      for i := 0 to |children|
        invariant transaction.Ok?
        invariant DropReferences(deleted, children, 0) == DropReferences(transaction.value, children, i)
      {
        transaction := ShiftChildCount(transaction.value, children[i].0, -(children[i].1 as int));
      }
      Perform(CommitDeletion(deletion.hash, children), transaction.value);
    }

    // ----- single-statement actions -----

    method RenewNodeLease(hash: Hash, lease: Lease)
      requires Valid() && Enabled(digest, W(), RenewLease(hash, lease))
      modifies this
      ensures Valid() && W() == Apply(old(W()), RenewLease(hash, lease))
      ensures log == old(log) + [RenewLease(hash, lease)] && clock == old(clock)
      ensures S() == old(S()).(tables := tables)
      ensures tables.nodes == old(tables.nodes)[hash :=
                old(tables.nodes)[hash].(leaseStartedAt := lease.startedAt, leaseExpiresAt := lease.expiresAt)]
    {
      hide Inv, RenewLeaseStatement;
      RenewLeaseCommits(digest, W(), hash, lease);
      Perform(RenewLease(hash, lease), RenewLeaseStatement(S(), hash, lease).value);
    }

    /**
     * Creates or supersedes the upload record; true exactly when the expected generation was still
     * current. None is an abort: another node's record has the temporary key.
     */
    method ReplaceLeaseDrivenUpload(hash: Hash, expectedGeneration: Option<Key>, record: Upload)
      returns (changed: Option<bool>)
      requires Valid() && record.validation.None?
      modifies this
      ensures Valid() && history == old(history) && Extends(old(log), log, None) && clock == old(clock)
      ensures changed == if !Expects(old(S()), hash, expectedGeneration) then Some(false)
                         else if KeyTaken(old(S()), hash, record.temporaryKey) then None
                         else Some(true)
      ensures S() == old(S()).(uploads := uploads, cleanup := cleanup)
      ensures cleanup == if changed == Some(true) && expectedGeneration.Some?
                         then old(cleanup)[old(uploads)[hash].temporaryKey := old(uploads)[hash].cleanupAt]
                         else old(cleanup)
      ensures uploads == if changed == Some(true) then old(uploads)[hash := record] else old(uploads)
    {
      hide Inv, KeyTaken;
      var expected := Expects(S(), hash, expectedGeneration);
      if expected && KeyTaken(S(), hash, record.temporaryKey) {
        return None;
      }
      changed := Some(expected);
      match expectedGeneration {
        case None => Perform(CreateUpload(hash, record), CreateUploadStatement(S(), hash, record).value);
        case Some(generation) =>
          Perform(ReplaceUpload(hash, generation, record), ReplaceUploadBatch(S(), hash, generation, record).value);
      }
    }

    /** Stores the validation and its reservation; true exactly when the generation was still current. */
    method StageLeaseDrivenUploadValidation(hash: Hash, generation: Key, v: Validation, ghost content: bytes)
      returns (changed: bool)
      requires Valid() && Describes(digest, hash, v, content)
      modifies this
      ensures Valid() && Extends(old(log), log, None) && clock == old(clock)
      ensures changed <==> IsCurrent(old(S()), hash, generation)
      ensures S() == old(S()).(uploads := uploads, tables := tables) && tables.nodes == old(tables.nodes)
      ensures uploads == if changed then old(uploads)[hash := old(uploads)[hash].(validation := Some(v))] else old(uploads)
      ensures tables.reservations ==
              if changed
              then old(tables.reservations)[hash :=
                     Reservation(v.storedBytes, old(uploads)[hash].createdAt, old(uploads)[hash].cleanupAt)]
              else old(tables.reservations)
      ensures Witnessed(digest, history.seen, hash, v)
      ensures history.staged == StagedKeys(old(W()), hash, generation, content)
    {
      hide Inv, StageValidationBatch, Describes;
      changed := IsCurrent(S(), hash, generation);
      StepKeepsInv(digest, W(), StageValidation(hash, generation, v, content));
      StageValidationShape(S(), hash, generation, v);
      StagedUploads(S(), hash, generation, v);
      Perform(StageValidation(hash, generation, v, content), StageValidationBatch(S(), hash, generation, v).value);
      assert content in history.seen;
    }

    /** The bucket refuses bytes with another digest, and keeps an object that is already there. */
    method PutVerifiedCanonicalBytes(hash: Hash, content: bytes) returns (stored: bool)
      requires Valid()
      modifies this
      ensures Valid() && Extends(old(log), log, None) && clock == old(clock)
      ensures stored <==> hash in old(objects) || digest(content) == hash
      ensures S() == old(S()).(objects := objects) && old(history).seen <= history.seen
      ensures objects == if stored && hash !in old(objects) then old(objects)[hash := content] else old(objects)
    {
      hide Inv;
      if hash in objects {
        ObjectIsAddressed(digest, W(), hash);
        return digest(objects[hash]) == hash;
      }
      if digest(content) != hash {
        return false;
      }
      Perform(PutCanonical(hash, content), S().(objects := objects[hash := content]));
      stored := true;
    }

    // Deletes the temporary object, then its queue entry: two storage calls, the second may throw.
    method DeleteTemporaryUploadObject(key: Key) returns (proceeds: bool)
      requires Valid()
      modifies this
      ensures Valid() && OnlyFrees(old(history), history) && Extends(old(log), log, None)
      ensures Interferes(old(S()).(cleanup := cleanup), S())
      ensures Benign() ==>
                proceeds && S() == old(S()).(temporary := old(temporary) - {key}, cleanup := old(cleanup) - {key})
    {
      hide Inv;
      Perform(DeleteTemporary(key), S().(temporary := temporary - {key}));
      proceeds := Tick();
      if proceeds {
        Perform(AcknowledgeCleanup(key), S().(cleanup := cleanup - {key}));
      }
    }

    method DeleteLeaseDrivenUpload(hash: Hash, generation: Key)
      requires Valid()
      modifies this
      ensures Valid() && history == old(history) && Extends(old(log), log, None) && clock == old(clock)
      ensures S() == old(S()).(uploads := uploads)
      ensures uploads == if IsCurrent(old(S()), hash, generation) then old(uploads) - {hash} else old(uploads)
    {
      hide Inv;
      Perform(DeleteUpload(hash, generation),
              if IsCurrent(S(), hash, generation) then S().(uploads := uploads - {hash}) else S());
    }

    // ----- lease evaluation -----

    // The distinct references that are not ready, in order of first mention.
    method FindUnreadyChildren(refs: seq<Hash>) returns (proceeds: bool, children: seq<Hash>)
      requires Valid()
      modifies this
      ensures Valid() && Interferes(old(S()), S()) && history == old(history) && Extends(old(log), log, None)
      ensures proceeds ==> forall c :: c in children <==> c in refs && !Ready(S(), c)
      ensures forall i, j :: 0 <= i < j < |children| ==> children[i] != children[j]
      ensures Benign() ==> proceeds && S() == old(S())
    {
      hide Valid, Inv, Interferes, Ready, OnlyPuts, Extends;
      LogExtendsItself(log);
      InterferesReflexive(S());
      children := [];
      var seen: set<Hash> := {};
      for i := 0 to |refs|
        invariant Valid() && Interferes(old(S()), S()) && history == old(history) && Extends(old(log), log, None)
        invariant seen == set k | 0 <= k < i :: refs[k]
        invariant forall c :: c in children <==> c in seen && !Ready(S(), c)
        invariant forall k, l :: 0 <= k < l < |children| ==> children[k] != children[l]
        invariant Benign() ==> S() == old(S())
      {
        var child := refs[i];
        if child !in seen {
          ghost var before, earlier := S(), log;
          proceeds := Tick();
          InterferesTwice(old(S()), before, S());
          InterferenceKeepsReady(before, S());
          LogExtendsTwice(old(log), earlier, log, None);
          if !proceeds {
            return false, children;
          }
          seen := seen + {child};
          if !Ready(S(), child) {
            children := children + [child];
          }
        }
      }
      proceeds := true;
    }

    // The bytes to publish: those just validated, else what the temporary key holds now.
    method ReadValidatedBytes(key: Key, validated: Option<bytes>) returns (proceeds: bool, content: Option<bytes>)
      requires Valid()
      modifies this
      ensures Valid() && Interferes(old(S()), S()) && history == old(history) && Extends(old(log), log, None)
      ensures Benign() ==>
                && proceeds && S() == old(S())
                && content == if validated.Some? then validated
                              else if key in old(temporary) then Some(old(temporary)[key]) else None
    {
      hide Inv;
      content := validated;
      proceeds := true;
      if validated.None? {
        proceeds := Tick();
        content := if key in temporary then Some(temporary[key]) else None;
      }
    }

    // Puts the canonical object, or checks that it is there; false is a storage error or a throw.
    method EnsureCanonicalObject(hash: Hash, content: Option<bytes>) returns (present: bool)
      requires Valid()
      modifies this
      ensures Valid() && Extends(old(log), log, None)
      ensures Interferes(old(S()).(objects := objects), S()) && old(history).seen <= history.seen
      ensures old(objects).Keys <= objects.Keys <= old(objects).Keys + {hash}
      ensures present ==> hash in objects
      ensures Benign() ==>
                && S() == old(S()).(objects := objects)
                && (present <==> hash in old(objects) || (content.Some? && digest(content.value) == hash))
    {
      hide Valid, Inv;
      present := Tick();
      if !present {
        return false;
      }
      if content.Some? {
        present := PutVerifiedCanonicalBytes(hash, content.value);
      } else {
        present := hash in objects;
      }
    }

    // Failures here are swallowed: the ready node is authoritative.
    method CleanUpUpload(hash: Hash, upload: Upload)
      requires Valid()
      modifies this
      ensures Valid() && Extends(old(log), log, None) && Undisturbed(old(S()), S())
      ensures Benign() ==>
                S() == old(S()).(temporary := old(temporary) - {upload.temporaryKey},
                                 cleanup := old(cleanup) - {upload.temporaryKey},
                                 uploads := if IsCurrent(old(S()), hash, upload.generation)
                                            then old(uploads) - {hash} else old(uploads))
    {
      hide Valid, Inv;
      var proceeds := Tick();
      if proceeds {
        proceeds := DeleteTemporaryUploadObject(upload.temporaryKey);
      }
      if proceeds {
        proceeds := Tick();
      }
      if proceeds {
        DeleteLeaseDrivenUpload(hash, upload.generation);
      }
    }

    // Finds the bytes to publish and makes sure the canonical object is stored; false is a failure.
    method StoreCanonicalObject(hash: Hash, key: Key, validated: Option<bytes>) returns (present: bool)
      requires Valid()
      modifies this
      ensures Valid() && Extends(old(log), log, None) && old(history).seen <= history.seen
      ensures Interferes(old(S()).(objects := objects), S())
      ensures old(objects).Keys <= objects.Keys <= old(objects).Keys + {hash}
      ensures present ==> hash in objects
      ensures Benign() ==>
                && (present <==> Obtainable(old(S()), digest, hash, key, validated))
                && S() == old(S()).(objects := objects)
    {
      hide Valid, Inv;
      var proceeds, content := ReadValidatedBytes(key, validated);
      present := false;
      if proceeds {
        present := EnsureCanonicalObject(hash, content);
      }
    }

    // Checks the children, then makes sure the canonical object is stored.
    method PreparePublication(hash: Hash, upload: Upload, refs: seq<Hash>, validated: Option<bytes>)
      returns (p: Preparation)
      requires Valid()
      modifies this
      ensures Valid() && Extends(old(log), log, None) && old(history).seen <= history.seen
      ensures Interferes(old(S()).(objects := objects), S())
      ensures old(objects).Keys <= objects.Keys <= old(objects).Keys + {hash}
      ensures p.Prepared? ==> hash in objects && forall c :: c in refs ==> Ready(S(), c)
      ensures p.Unready? ==> history == old(history)
      ensures p.Unready? ==> p.children != [] && forall c :: c in p.children <==> c in refs && !Ready(S(), c)
      ensures Benign() ==>
                && S() == old(S()).(objects := objects) && (p.Unready? ==> S() == old(S()))
                && (p.Unready? <==> exists c :: c in refs && !Ready(old(S()), c))
                && (p.Prepared? <==> (forall c :: c in refs ==> Ready(old(S()), c))
                                     && Obtainable(old(S()), digest, hash, upload.temporaryKey, validated))
    {
      hide Valid, Inv, Obtainable;
      var proceeds, children := FindUnreadyChildren(refs);
      if !proceeds {
        return Refused(Interrupted);
      }
      if children != [] {
        assert children[0] in children;
        return Unready(children);
      }
      assert forall c :: c in refs ==> Ready(S(), c);
      var present := StoreCanonicalObject(hash, upload.temporaryKey, validated);
      p := if present then Prepared else Refused(Storage);
    }

    // The commit and the clean-up after it.
    method CommitThenCleanUp(hash: Hash, upload: Upload, v: Validation, lease: Lease, at: nat)
      requires Valid() && hash !in tables.nodes && Witnessed(digest, history.seen, hash, v)
      requires hash in objects && (forall c :: c in v.metadata.refs ==> Ready(S(), c))
      requires lease.startedAt <= lease.expiresAt
      modifies this
      ensures Valid() && Extends(old(log), log, None)
      ensures Evaluated(old(S()), S(), hash, ReadyLease(lease)) && StillReady(old(S()), S())
      ensures Benign() && IsCurrent(old(S()), hash, upload.generation) ==>
                DropsRecords(old(S()), S(), {hash}, {upload.temporaryKey})
    {
      hide Inv, Batch, Apply, Witnessed, Evaluated, StillReady, DropsRecords;
      ghost var before := W();
      var refs := v.metadata.refs;
      forall i | 0 <= i < |refs|
        ensures Ready(S(), refs[i])
      {
        assert refs[i] in refs;
      }
      CommitEvaluates(digest, before, hash, v, lease, at);
      CommitUploadedCanonicalNode(hash, v, lease, at);
      ghost var published := S();
      CleanUpUpload(hash, upload);
      if Benign() && IsCurrent(before.store, hash, upload.generation) {
        DropsAfterPublication(before.store, published, S(), hash, upload.temporaryKey);
      }
      EvaluatedStays(before.store, published, S(), hash, lease);
    }

    // The commit of a prepared publication, then the clean-up.
    method CommitPublication(hash: Hash, upload: Upload, v: Validation, lease: Lease, at: nat) returns (proceeds: bool)
      requires Valid() && hash !in tables.nodes && Witnessed(digest, history.seen, hash, v)
      requires hash in objects && (forall c :: c in v.metadata.refs ==> Ready(S(), c))
      requires lease.startedAt <= lease.expiresAt
      modifies this
      ensures Valid() && Extends(old(log), log, None)
      ensures proceeds ==> Evaluated(old(S()), S(), hash, ReadyLease(lease)) && StillReady(old(S()), S())
      ensures !proceeds ==> Undisturbed(old(S()), S())
      ensures Benign() ==> proceeds
      ensures Benign() && IsCurrent(old(S()), hash, upload.generation) ==>
                DropsRecords(old(S()), S(), {hash}, {upload.temporaryKey})
    {
      hide Valid, Inv, Witnessed, Evaluated, DropsRecords;
      proceeds := Tick();
      if proceeds {
        ghost var before := S();
        CommitThenCleanUp(hash, upload, v, lease, at);
        EvaluatedFrom(old(S()), before, S(), hash, ReadyLease(lease));
      }
    }

    /** Publishes a staged upload when all its children are ready, else names the children that are not. */
    method PublishValidatedUpload(
      hash: Hash, upload: Upload, v: Validation, leaseDurationMs: int, now: int, at: nat, validated: Option<bytes>)
      returns (r: LeaseResult)
      requires Valid() && hash !in tables.nodes && Witnessed(digest, history.seen, hash, v)
      requires leaseDurationMs >= MIN_LEASE_MS
      modifies this
      ensures Valid() && Extends(old(log), log, None)
      ensures Evaluated(old(S()), S(), hash, r)
      ensures r.ReadyLease? ==>
                r.lease == NextNodeLease(None, leaseDurationMs, now)
                && forall c :: c in v.metadata.refs ==> Ready(S(), c)
      ensures r.AwaitingChildren? ==>
                r.children != [] && forall c :: c in r.children <==> c in v.metadata.refs && !Ready(S(), c)
      ensures !r.AwaitingUpload? && !r.AwaitingReplacement?
      ensures r.AwaitingChildren? ==> uploads == old(uploads) && history == old(history)
      ensures Benign() ==>
                && (r.AwaitingChildren? ==> S() == old(S()))
                && (r.AwaitingChildren? <==> exists c :: c in v.metadata.refs && !Ready(old(S()), c))
                && (r.ReadyLease? <==> (forall c :: c in v.metadata.refs ==> Ready(old(S()), c))
                                       && Obtainable(old(S()), digest, hash, upload.temporaryKey, validated))
      ensures Benign() && r.ReadyLease? && IsCurrent(old(S()), hash, upload.generation) ==>
                DropsRecords(old(S()), S(), {hash}, {upload.temporaryKey})
    {
      hide Valid, Inv, Obtainable, Witnessed;
      var preparation := PreparePublication(hash, upload, v.metadata.refs, validated);
      match preparation {
        case Refused(error) => return Failed(error);
        case Unready(children) => return AwaitingChildren(children);
        case Prepared =>
      }
      WitnessedMonotone(digest, old(history).seen, history.seen, hash, v);
      var lease := NextNodeLease(None, leaseDurationMs, now);
      ghost var prepared := S();
      var proceeds := CommitPublication(hash, upload, v, lease, at);
      if !proceeds {
        return Failed(Interrupted);
      }
      EvaluatedFrom(old(S()), prepared, S(), hash, ReadyLease(lease));
      r := ReadyLease(lease);
    }

    /** Size, then digest, then the streaming parse of the whole upload. */
    method ValidateUpload(hash: Hash, content: bytes) returns (r: Result<Validation, Rejection>)
      ensures r.Ok? <==> Acceptable(digest, hash, content)
      ensures r.Ok? ==> Describes(digest, hash, r.value, content)
      ensures r.Err? ==> r.error == RejectionOf(digest, hash, content)
      ensures r == Err(OversizedUpload) <==> |content| > MAX_CANONICAL_NODE_BYTES
      ensures r == Err(DigestMismatch) <==> |content| <= MAX_CANONICAL_NODE_BYTES && digest(content) != hash
    {
      hide ParsePrefix;
      if |content| > MAX_CANONICAL_NODE_BYTES {
        return Err(OversizedUpload);
      }
      if digest(content) != hash {
        return Err(DigestMismatch);
      }
      var parsed := ParseCanonicalNodeStream([content], Some(|content|), DEFAULT_LIMITS);
      assert [content][1..] == [] && Flatten([content]) == content;
      r := match parsed
           case Ok(stream) => Ok(Validation(|content|, stream.metadata))
           case Err(_) => Err(InvalidUpload);
    }

    // Publishing from a record whose validation is current.
    method PublishStaged(hash: Hash, upload: Upload, leaseDurationMs: int, now: int, at: nat, validated: Option<bytes>)
      returns (r: LeaseResult)
      requires Valid() && hash !in tables.nodes && leaseDurationMs >= MIN_LEASE_MS
      requires hash in uploads && upload == uploads[hash] && upload.validation.Some?
      modifies this
      ensures Valid() && Extends(old(log), log, None)
      ensures Evaluated(old(S()), S(), hash, r) && Answers(S(), hash, now + leaseDurationMs, r)
      ensures r.ReadyLease? ==> r.lease == NextNodeLease(None, leaseDurationMs, now)
      ensures r.AwaitingChildren? ==> uploads == old(uploads) && history == old(history)
      ensures Benign() ==>
                PublishesOrWaits(old(S()), S(), hash, upload, upload.validation.value,
                          Obtainable(old(S()), digest, hash, upload.temporaryKey, validated), r)
    {
      hide Inv, Witnessed, Obtainable, Evaluated;
      UploadIsWitnessed(digest, W(), hash);
      assert S() == S().(uploads := uploads[hash := upload.(validation := Some(upload.validation.value))]);
      r := PublishValidatedUpload(hash, upload, upload.validation.value, leaseDurationMs, now, at, validated);
    }

    // Validates content, stages the result under the record's generation, and publishes.
    method StageAndPublish(
      hash: Hash, upload: Upload, content: bytes, v: Validation, leaseDurationMs: int, now: int, at: nat,
      validated: Option<bytes>)
      returns (r: LeaseResult)
      requires Valid() && hash !in tables.nodes && leaseDurationMs >= MIN_LEASE_MS
      requires hash in uploads && upload == uploads[hash] && Describes(digest, hash, v, content)
      modifies this
      ensures Valid() && Extends(old(log), log, None)
      ensures Evaluated(old(S()), S(), hash, r) && Answers(S(), hash, now + leaseDurationMs, r)
      ensures r.ReadyLease? ==> r.lease == NextNodeLease(None, leaseDurationMs, now)
      ensures r.AwaitingChildren? && upload.temporaryKey in old(temporary) && old(temporary)[upload.temporaryKey] == content ==>
                StagedFromUpload(W(), hash)
      ensures Benign() ==>
                PublishesOrWaits(old(S()), S(), hash, upload, v, Obtainable(old(S()), digest, hash, upload.temporaryKey, validated), r)
    {
      hide Inv, Describes, Witnessed, PublishesOrWaits, Evaluated;
      var proceeds := Tick();
      NothingEvaluated(old(S()), S(), hash);
      if !proceeds {
        return Failed(Interrupted);
      }
      var changed := StageLeaseDrivenUploadValidation(hash, upload.generation, v, content);
      NothingEvaluated(old(S()), S(), hash);
      if !changed {
        return Failed(Conflict);
      }
      ghost var staged := S();
      r := PublishStaged(hash, upload.(validation := Some(v)), leaseDurationMs, now, at, validated);
      if Benign() {
        StagedThenPublished(old(S()), staged, S(), hash, upload, v, staged.tables.reservations[hash],
                            Obtainable(staged, digest, hash, upload.temporaryKey, validated), r);
      }
      EvaluatedFrom(old(S()), staged, S(), hash, r);
    }

    // An orphan with an upload record: publish what was staged, else validate the object's own bytes.
    method RecoverRecorded(hash: Hash, upload: Upload, leaseDurationMs: int, now: int, at: nat) returns (r: LeaseResult)
      requires Valid() && hash !in tables.nodes && hash in objects && leaseDurationMs >= MIN_LEASE_MS
      requires hash in uploads && upload == uploads[hash]
      modifies this
      ensures Valid() && Extends(old(log), log, None)
      ensures Evaluated(old(S()), S(), hash, r) && Answers(S(), hash, now + leaseDurationMs, r)
      ensures r.ReadyLease? ==> r.lease == NextNodeLease(None, leaseDurationMs, now)
      ensures Benign() ==> forall key :: Recovers(digest, old(S()), hash, Some(upload), key, r)
    {
      hide PublishesOrWaits, Inv, Describes, Witnessed, Obtainable, Evaluated, Answers, Recovers, OrphanRefs, ParseNode;
      ghost var start := S();
      if upload.validation.Some? {
        StagedOrphan(digest, hash, objects[hash], Some(upload));
        r := PublishStaged(hash, upload, leaseDurationMs, now, at, None);
        if Benign() {
          RecoversWhenReady(digest, start, start, S(), hash, Some(upload), upload, upload.validation.value, r);
        }
        return;
      }
      var proceeds := Tick();
      NothingEvaluated(start, S(), hash);
      if !proceeds {
        return Failed(Interrupted);
      }
      ghost var read := S();
      var content := objects[hash];
      var validated := ValidateUpload(hash, content);
      FreshOrphan(digest, start, hash, Some(upload), validated);
      if validated.Err? {
        return Failed(Storage);
      }
      r := StageAndPublish(hash, upload, content, validated.value, leaseDurationMs, now, at, None);
      EvaluatedFrom(start, read, S(), hash, r);
      if Benign() {
        RecoversWhenReady(digest, start, read, S(), hash, Some(upload), upload, validated.value, r);
      }
    }

    // An orphan without an upload record: make one, then go on as with one.
    method RecoverUnrecorded(
      hash: Hash, leaseDurationMs: int, now: int, at: nat, identifiers: (Key, Key), sessionMs: int, cleanupMs: int)
      returns (r: LeaseResult)
      requires Valid() && hash !in tables.nodes && hash in objects && hash !in uploads
      requires leaseDurationMs >= MIN_LEASE_MS
      modifies this
      ensures Valid() && Extends(old(log), log, None)
      ensures Evaluated(old(S()), S(), hash, r) && Answers(S(), hash, now + leaseDurationMs, r)
      ensures r.ReadyLease? ==> r.lease == NextNodeLease(None, leaseDurationMs, now)
      ensures Benign() ==> Recovers(digest, old(S()), hash, None, identifiers.1, r)
    {
      hide Valid, Inv, Evaluated, Answers, Recovers, KeyTaken, OnlyPuts;
      var upload := NewUpload(identifiers, now, sessionMs, cleanupMs, None);
      var proceeds := Tick();
      NothingEvaluated(old(S()), S(), hash);
      if !proceeds {
        return Failed(Interrupted);
      }
      var changed := ReplaceLeaseDrivenUpload(hash, None, upload);
      NothingEvaluated(old(S()), S(), hash);
      if changed != Some(true) {
        DuplicateOrphan(digest, old(S()), hash, upload);
        return Failed(if changed.None? then DuplicateKey else Conflict);
      }
      ghost var recorded := S();
      r := RecoverRecorded(hash, upload, leaseDurationMs, now, at);
      EvaluatedFrom(old(S()), recorded, S(), hash, r);
      if Benign() {
        RecordChangesNothing(digest, old(S()), recorded, hash, upload, r);
      }
    }

    /** A canonical object without a row: finish the publication a crash interrupted. */
    method RecoverOrphan(
      hash: Hash, found: Option<Upload>, leaseDurationMs: int, now: int, at: nat,
      identifiers: (Key, Key), sessionMs: int, cleanupMs: int)
      returns (r: LeaseResult)
      requires Valid() && hash !in tables.nodes && hash in objects && found == ReadUpload(hash)
      requires leaseDurationMs >= MIN_LEASE_MS
      modifies this
      ensures Valid() && Extends(old(log), log, None)
      ensures Evaluated(old(S()), S(), hash, r) && Answers(S(), hash, now + leaseDurationMs, r)
      ensures r.ReadyLease? ==> r.lease == NextNodeLease(None, leaseDurationMs, now)
      ensures Benign() ==> Recovers(digest, old(S()), hash, found, identifiers.1, r)
    {
      hide Valid, Inv, Evaluated, Answers, Recovers, Extends;
      if found.Some? {
        r := RecoverRecorded(hash, found.value, leaseDurationMs, now, at);
      } else {
        r := RecoverUnrecorded(hash, leaseDurationMs, now, at, identifiers, sessionMs, cleanupMs);
      }
    }

    // Supersedes the record and deletes its temporary object; failures of the deletion are swallowed.
    method Supersede(hash: Hash, upload: Upload, replacement: Upload) returns (outcome: Option<LeaseError>)
      requires Valid() && hash in uploads && upload == uploads[hash] && replacement.validation.None?
      modifies this
      ensures Valid() && Extends(old(log), log, None) && Undisturbed(old(S()), S())
      ensures outcome.None? ==> hash in uploads && uploads[hash] == replacement
      ensures Benign() ==>
                Replaces(old(S()), S(), hash, upload, replacement,
                         if outcome.None? then Awaiting(replacement) else Failed(outcome.value))
    {
      hide Valid, Inv, KeyTaken;
      var proceeds := Tick();
      if !proceeds {
        return Some(Interrupted);
      }
      var changed := ReplaceLeaseDrivenUpload(hash, Some(upload.generation), replacement);
      if changed != Some(true) {
        return Some(if changed.None? then DuplicateKey else Conflict);
      }
      proceeds := Tick();
      if proceeds {
        proceeds := DeleteTemporaryUploadObject(upload.temporaryKey);
      }
      assert Benign() ==> cleanup == old(cleanup) - {upload.temporaryKey};
      outcome := None;
    }

    method ReplaceRejected(
      hash: Hash, upload: Upload, rejection: Rejection, now: int, identifiers: (Key, Key), sessionMs: int, cleanupMs: int)
      returns (r: LeaseResult)
      requires Valid() && hash in uploads && upload == uploads[hash]
      modifies this
      ensures Valid() && Extends(old(log), log, None)
      ensures forall notBefore :: Answers(S(), hash, notBefore, r)
      ensures Undisturbed(old(S()), S()) && !r.ReadyLease?
      ensures r.AwaitingReplacement? || r.Failed?
      ensures Benign() ==>
                Replaces(old(S()), S(), hash, upload, NewUpload(identifiers, now, sessionMs, cleanupMs, Some(rejection)), r)
    {
      var replacement := NewUpload(identifiers, now, sessionMs, cleanupMs, Some(rejection));
      var outcome := Supersede(hash, upload, replacement);
      r := match outcome
           case Some(error) => Failed(error)
           case None => AwaitingReplacement(replacement, rejection);
    }

    // No temporary object: wait, or hand out a new generation when the session is over.
    method AwaitTemporary(
      hash: Hash, upload: Upload, now: int, identifiers: (Key, Key), sessionMs: int, cleanupMs: int)
      returns (r: LeaseResult)
      requires Valid() && hash in uploads && upload == uploads[hash]
      modifies this
      ensures Valid() && Extends(old(log), log, None)
      ensures forall notBefore :: Answers(S(), hash, notBefore, r)
      ensures Undisturbed(old(S()), S()) && !r.ReadyLease? && !r.AwaitingChildren?
      ensures upload.validation.Some? || upload.expiresAt > now ==>
                Waits(old(S()), S(), hash, upload, NewUpload(identifiers, now, sessionMs, cleanupMs, None), now, r)
      ensures Benign() ==>
                Waits(old(S()), S(), hash, upload, NewUpload(identifiers, now, sessionMs, cleanupMs, None), now, r)
    {
      hide Valid, Inv, Replaces, KeyTaken, Extends;
      LogExtendsItself(log);
      if upload.validation.Some? {
        return Failed(Storage);
      }
      if upload.expiresAt > now {
        return Awaiting(upload);
      }
      var replacement := NewUpload(identifiers, now, sessionMs, cleanupMs, upload.rejection);
      var outcome := Supersede(hash, upload, replacement);
      r := match outcome
           case Some(error) => Failed(error)
           case None => Awaiting(replacement);
    }

    // A temporary object that has not been validated: validate it, then publish or reject.
    method EvaluateTemporary(
      hash: Hash, upload: Upload, storedBytes: nat, leaseDurationMs: int, now: int, at: nat,
      identifiers: (Key, Key), sessionMs: int, cleanupMs: int)
      returns (r: LeaseResult)
      requires Valid() && hash !in tables.nodes && leaseDurationMs >= MIN_LEASE_MS
      requires hash in uploads && upload == uploads[hash] && upload.validation.None?
      modifies this
      ensures Valid() && Extends(old(log), log, None)
      ensures Evaluated(old(S()), S(), hash, r) && Answers(S(), hash, now + leaseDurationMs, r)
      ensures r.ReadyLease? ==> r.lease == NextNodeLease(None, leaseDurationMs, now)
      ensures r.AwaitingChildren? ==> StagedFromUpload(W(), hash)
      ensures Benign() && upload.temporaryKey in old(temporary) && storedBytes == |old(temporary)[upload.temporaryKey]| ==>
                Progresses(digest, old(S()), S(), hash, upload,
                           NewUpload(identifiers, now, sessionMs, cleanupMs, None), now, r)
    {
      hide Valid, Inv, ParseNode, Progresses, PublishesOrWaits, Replaces, Obtainable, Evaluated, Acceptable;
      ghost var successor := NewUpload(identifiers, now, sessionMs, cleanupMs, None);
      if storedBytes > MAX_CANONICAL_NODE_BYTES {
        r := ReplaceRejected(hash, upload, OversizedUpload, now, identifiers, sessionMs, cleanupMs);
        EvaluatedWithoutLease(old(S()), S(), hash, r);
        if Benign() && upload.temporaryKey in old(temporary) && storedBytes == |old(temporary)[upload.temporaryKey]| {
          OversizedIsUnacceptable(digest, hash, old(temporary)[upload.temporaryKey]);
          RejectedProgress(digest, old(S()), S(), hash, upload, successor, now, OversizedUpload, r);
        }
        return;
      }
      var proceeds := Tick();
      NothingEvaluated(old(S()), S(), hash);
      if !proceeds {
        return Failed(Interrupted);
      }
      if upload.temporaryKey !in temporary {
        NothingEvaluated(old(S()), S(), hash);
        EvaluatedWithoutLease(old(S()), S(), hash, Awaiting(upload));
        return Awaiting(upload);
      }
      ghost var read := S();
      r := EvaluateContent(hash, upload, temporary[upload.temporaryKey], leaseDurationMs, now, at, identifiers, sessionMs, cleanupMs);
      EvaluatedFrom(old(S()), read, S(), hash, r);
    }

    // The bytes read: rejected, or staged and published.
    method EvaluateContent(
      hash: Hash, upload: Upload, content: bytes, leaseDurationMs: int, now: int, at: nat,
      identifiers: (Key, Key), sessionMs: int, cleanupMs: int)
      returns (r: LeaseResult)
      requires Valid() && hash !in tables.nodes && leaseDurationMs >= MIN_LEASE_MS
      requires hash in uploads && upload == uploads[hash] && upload.validation.None?
      modifies this
      ensures Valid() && Extends(old(log), log, None)
      ensures Evaluated(old(S()), S(), hash, r) && Answers(S(), hash, now + leaseDurationMs, r)
      ensures r.ReadyLease? ==> r.lease == NextNodeLease(None, leaseDurationMs, now)
      ensures r.AwaitingChildren? && upload.temporaryKey in old(temporary) && old(temporary)[upload.temporaryKey] == content ==>
                StagedFromUpload(W(), hash)
      ensures Benign() && upload.temporaryKey in old(temporary) && content == old(temporary)[upload.temporaryKey] ==>
                Progresses(digest, old(S()), S(), hash, upload,
                           NewUpload(identifiers, now, sessionMs, cleanupMs, None), now, r)
    {
      hide Valid, Inv, ParseNode, Progresses, PublishesOrWaits, Replaces, Obtainable, Evaluated, Acceptable;
      ghost var read := S();
      ghost var successor := NewUpload(identifiers, now, sessionMs, cleanupMs, None);
      var validated := ValidateUpload(hash, content);
      match validated {
        case Err(rejection) =>
          r := ReplaceRejected(hash, upload, rejection, now, identifiers, sessionMs, cleanupMs);
          EvaluatedWithoutLease(read, S(), hash, r);
          if Benign() && upload.temporaryKey in read.temporary && content == read.temporary[upload.temporaryKey] {
            RejectedProgress(digest, read, S(), hash, upload, successor, now, rejection, r);
          }
        case Ok(v) =>
          r := StageAndPublish(hash, upload, content, v, leaseDurationMs, now, at, Some(content));
          if Benign() && upload.temporaryKey in read.temporary && content == read.temporary[upload.temporaryKey] {
            AcceptedProgress(digest, read, S(), hash, upload, successor, now, v, r);
          }
      }
    }

    // An upload record exists: look at its temporary object.
    method EvaluateRecord(
      hash: Hash, upload: Upload, leaseDurationMs: int, now: int, at: nat,
      identifiers: (Key, Key), sessionMs: int, cleanupMs: int)
      returns (r: LeaseResult)
      requires Valid() && hash !in tables.nodes && hash !in objects && leaseDurationMs >= MIN_LEASE_MS
      requires hash in uploads && upload == uploads[hash]
      modifies this
      ensures Valid() && Extends(old(log), log, None)
      ensures Evaluated(old(S()), S(), hash, r) && Answers(S(), hash, now + leaseDurationMs, r)
      ensures r.ReadyLease? ==> r.lease == NextNodeLease(None, leaseDurationMs, now)
      ensures r.AwaitingChildren? && Stageable(old(W()), hash) ==> StagedFromUpload(W(), hash)
      ensures Benign() ==>
                Progresses(digest, old(S()), S(), hash, upload,
                           NewUpload(identifiers, now, sessionMs, cleanupMs, None), now, r)
    {
      hide Valid, Inv, ParseNode, Obtainable, Acceptable, PublishesOrWaits, Evaluated;
      var proceeds := Tick();
      NothingEvaluated(old(S()), S(), hash);
      if !proceeds {
        return Failed(Interrupted);
      }
      ghost var headed := S();
      if upload.temporaryKey !in temporary {
        r := AwaitTemporary(hash, upload, now, identifiers, sessionMs, cleanupMs);
        EvaluatedWithoutLease(headed, S(), hash, r);
      } else if upload.validation.Some? {
        r := PublishStaged(hash, upload, leaseDurationMs, now, at, None);
        if Benign() {
          StagedProgress(digest, headed, S(), hash, upload, NewUpload(identifiers, now, sessionMs, cleanupMs, None), now, r);
        }
      } else {
        var storedBytes := |temporary[upload.temporaryKey]|;
        r := EvaluateTemporary(hash, upload, storedBytes, leaseDurationMs, now, at, identifiers, sessionMs, cleanupMs);
      }
      EvaluatedFrom(old(S()), headed, S(), hash, r);
    }

    // No record yet: admit a new one within the limit, then evaluate it.
    method EvaluateNewUpload(
      hash: Hash, leaseDurationMs: int, now: int, at: nat,
      identifiers: nat -> (Key, Key), sessionMs: int, cleanupMs: int, maxActiveUploads: nat)
      returns (r: LeaseResult)
      requires Valid() && hash !in tables.nodes && hash !in objects && leaseDurationMs >= MIN_LEASE_MS && hash !in uploads
      modifies this
      ensures Valid() && Extends(old(log), log, None)
      ensures Evaluated(old(S()), S(), hash, r) && Answers(S(), hash, now + leaseDurationMs, r)
      ensures r.ReadyLease? ==> r.lease == NextNodeLease(None, leaseDurationMs, now)
      ensures r.AwaitingChildren? ==> StagedFromUpload(W(), hash)
      ensures |old(uploads)| >= maxActiveUploads ==> r.Failed? && uploads == old(uploads)
      ensures Benign() ==>
                Admits(digest, old(S()), S(), hash, NewUpload(identifiers(0), now, sessionMs, cleanupMs, None),
                       NewUpload(identifiers(1), now, sessionMs, cleanupMs, None), maxActiveUploads, now, r)
    {
      hide Valid, Inv, Progresses, Admits, Acceptable, Evaluated, Answers, KeyTaken, OnlyPuts;
      var proceeds := Tick();
      NothingEvaluated(old(S()), S(), hash);
      if !proceeds {
        return Failed(Interrupted);
      }
      if |uploads| >= maxActiveUploads {
        RefusedAtLimit(digest, S(), hash, maxActiveUploads);
        return Failed(UploadLimit);
      }
      var upload := NewUpload(identifiers(0), now, sessionMs, cleanupMs, None);
      proceeds := Tick();
      NothingEvaluated(old(S()), S(), hash);
      if !proceeds {
        return Failed(Interrupted);
      }
      var changed := ReplaceLeaseDrivenUpload(hash, None, upload);
      NothingEvaluated(old(S()), S(), hash);
      if changed.None? {
        RefusedDuplicate(digest, S(), hash, upload, maxActiveUploads);
      }
      if changed != Some(true) {
        return Failed(if changed.None? then DuplicateKey else Conflict);
      }
      ghost var recorded := S();
      r := EvaluateRecord(hash, upload, leaseDurationMs, now, at, identifiers(1), sessionMs, cleanupMs);
      if Benign() {
        AdmitsRecord(digest, old(S()), S(), hash, upload, NewUpload(identifiers(1), now, sessionMs, cleanupMs, None),
                     maxActiveUploads, now, r);
      }
      EvaluatedFrom(old(S()), recorded, S(), hash, r);
    }

    // Neither row nor canonical object: find or create the upload record, then evaluate it.
    method EvaluateUpload(
      hash: Hash, found: Option<Upload>, leaseDurationMs: int, now: int, at: nat,
      identifiers: nat -> (Key, Key), sessionMs: int, cleanupMs: int, maxActiveUploads: nat)
      returns (r: LeaseResult)
      requires Valid() && hash !in tables.nodes && hash !in objects && leaseDurationMs >= MIN_LEASE_MS && found == ReadUpload(hash)
      modifies this
      ensures Valid() && Extends(old(log), log, None)
      ensures Evaluated(old(S()), S(), hash, r) && Answers(S(), hash, now + leaseDurationMs, r)
      ensures r.ReadyLease? ==> r.lease == NextNodeLease(None, leaseDurationMs, now)
      ensures r.AwaitingChildren? && Stageable(old(W()), hash) ==> StagedFromUpload(W(), hash)
      ensures found.None? && |old(uploads)| >= maxActiveUploads ==> r.Failed? && uploads == old(uploads)
      ensures Benign() && found.Some? ==>
                Progresses(digest, old(S()), S(), hash, found.value,
                           NewUpload(identifiers(0), now, sessionMs, cleanupMs, None), now, r)
      ensures Benign() && found.None? ==>
                Admits(digest, old(S()), S(), hash, NewUpload(identifiers(0), now, sessionMs, cleanupMs, None),
                       NewUpload(identifiers(1), now, sessionMs, cleanupMs, None), maxActiveUploads, now, r)
    {
      hide Valid, Inv, Progresses, Admits, Answers, Evaluated;
      if found.Some? {
        r := EvaluateRecord(hash, found.value, leaseDurationMs, now, at, identifiers(0), sessionMs, cleanupMs);
      } else {
        r := EvaluateNewUpload(hash, leaseDurationMs, now, at, identifiers, sessionMs, cleanupMs, maxActiveUploads);
      }
    }

    // No row: recover an orphaned object, or work the upload record.
    method EvaluateAbsent(
      hash: Hash, canonical: bool, leaseDurationMs: int, now: int, at: nat,
      identifiers: nat -> (Key, Key), sessionMs: int, cleanupMs: int, maxActiveUploads: nat)
      returns (r: LeaseResult)
      requires Valid() && hash !in tables.nodes && leaseDurationMs >= MIN_LEASE_MS && canonical == (hash in objects)
      modifies this
      ensures Valid() && Extends(old(log), log, None)
      ensures Evaluated(old(S()), S(), hash, r) && Answers(S(), hash, now + leaseDurationMs, r)
      ensures r.ReadyLease? ==> r.lease == NextNodeLease(None, leaseDurationMs, now)
      ensures r.AwaitingChildren? && !canonical && Stageable(old(W()), hash) ==> StagedFromUpload(W(), hash)
      ensures Benign() && !canonical && hash in old(uploads) ==>
                Progresses(digest, old(S()), S(), hash, old(uploads)[hash],
                           NewUpload(identifiers(0), now, sessionMs, cleanupMs, None), now, r)
      ensures Benign() && !canonical && hash !in old(uploads) ==>
                Admits(digest, old(S()), S(), hash, NewUpload(identifiers(0), now, sessionMs, cleanupMs, None),
                       NewUpload(identifiers(1), now, sessionMs, cleanupMs, None), maxActiveUploads, now, r)
      ensures Benign() && hash in old(objects) ==> Recovers(digest, old(S()), hash, old(ReadUpload(hash)), identifiers(0).1, r)
    {
      hide Valid, Inv, Progresses, Admits, Recovers;
      var proceeds := Tick();
      if !proceeds {
        return Failed(Interrupted);
      }
      ghost var begun := S();
      var found := ReadUpload(hash);
      if canonical {
        r := RecoverOrphan(hash, found, leaseDurationMs, now, at, identifiers(0), sessionMs, cleanupMs);
      } else {
        r := EvaluateUpload(hash, found, leaseDurationMs, now, at, identifiers, sessionMs, cleanupMs, maxActiveUploads);
      }
      EvaluatedFrom(old(S()), begun, S(), hash, r);
    }

    // A live node: extend its lease.
    method RenewLive(hash: Hash, existing: Lease, requestedDurationMs: int, now: int) returns (r: LeaseResult)
      requires Valid() && Ready(S(), hash) && ReadNodeLease(hash) == Some(existing)
      modifies this
      ensures Valid() && Extends(old(log), log, None)
      ensures Evaluated(old(S()), S(), hash, r)
      ensures Answers(S(), hash, now + ClampLeaseDuration(requestedDurationMs), r)
      ensures r.ReadyLease? ==>
                var duration := if requestedDurationMs < 60000 then 60000
                                else if requestedDurationMs > 86400000 then 86400000 else requestedDurationMs;
                && r.lease.expiresAt
                   == (if existing.expiresAt > now + duration then existing.expiresAt else now + duration)
                && r.lease.startedAt == (if existing.expiresAt > now then existing.startedAt else now)
      ensures r.ReadyLease? || r.Failed?
      ensures Benign() ==> r.ReadyLease? && S() == old(S()).(tables := tables)
    {
      hide Inv;
      var lease := NextNodeLease(Some(existing), ClampLeaseDuration(requestedDurationMs), now);
      var proceeds := Tick();
      if !proceeds {
        return Failed(Interrupted);
      }
      LeaseIsOrdered(digest, W(), hash);
      NextLeaseIsMonotone(Some(existing), requestedDurationMs, now);
      NextLeaseInNumbers(Some(existing), requestedDurationMs, now);
      RenewNodeLease(hash, lease);
      r := ReadyLease(lease);
    }

    /**
     * One lease evaluation. It renews a live node, finishes an interrupted publication, or works
     * the upload record towards publication; it never deletes, and whatever throws, what it leaves
     * behind is a state of some run.
     */
    method LeaseDrivenNodeUpload(
      hash: Hash, requestedDurationMs: int, now: int, at: nat,
      identifiers: nat -> (Key, Key), sessionMs: int, cleanupMs: int, maxActiveUploads: nat)
      returns (r: LeaseResult)
      requires Valid()
      modifies this
      ensures Valid() && Extends(old(log), log, None)
      ensures Evaluated(old(S()), S(), hash, r)
      ensures Answers(S(), hash, now + ClampLeaseDuration(requestedDurationMs), r)
      ensures r.ReadyLease? ==>
                var nodes := old(tables.nodes);
                var duration := if requestedDurationMs < 60000 then 60000
                                else if requestedDurationMs > 86400000 then 86400000 else requestedDurationMs;
                var expiry := if hash in nodes then nodes[hash].leaseExpiresAt else 0;
                && r.lease.expiresAt == (if expiry > now + duration then expiry else now + duration)
                && r.lease.startedAt == (if hash in nodes && expiry > now then nodes[hash].leaseStartedAt else now)
      ensures r.AwaitingChildren? && hash !in old(objects) && Stageable(old(W()), hash) ==> StagedFromUpload(W(), hash)
      ensures hash in old(tables.nodes) && hash !in old(objects) ==> r.Failed?
      ensures Benign() && Ready(old(S()), hash) ==> r.ReadyLease? && S() == old(S()).(tables := tables)
      ensures Benign() && hash !in old(tables.nodes) && hash !in old(objects) && hash in old(uploads) ==>
                Progresses(digest, old(S()), S(), hash, old(uploads)[hash],
                           NewUpload(identifiers(0), now, sessionMs, cleanupMs, None), now, r)
      ensures Benign() && hash !in old(tables.nodes) && hash !in old(objects) && hash !in old(uploads) ==>
                Admits(digest, old(S()), S(), hash, NewUpload(identifiers(0), now, sessionMs, cleanupMs, None),
                       NewUpload(identifiers(1), now, sessionMs, cleanupMs, None), maxActiveUploads, now, r)
      ensures Benign() && hash !in old(tables.nodes) && hash in old(objects) ==>
                Recovers(digest, old(S()), hash, old(ReadUpload(hash)), identifiers(0).1, r)
    {
      hide Valid, Inv, Progresses, Admits, Recovers, Evaluated, Answers;
      var leaseDurationMs := ClampLeaseDuration(requestedDurationMs);
      var proceeds := Tick();
      NothingEvaluated(old(S()), S(), hash);
      if !proceeds {
        return Failed(Interrupted);
      }
      var existing := ReadNodeLease(hash);
      NextLeaseInNumbers(None, requestedDurationMs, now);
      proceeds := Tick();
      NothingEvaluated(old(S()), S(), hash);
      if !proceeds {
        return Failed(Interrupted);
      }
      var canonical := hash in objects;
      if existing.Some? {
        if !canonical {
          return Failed(Storage);
        }
        ghost var live := S();
        r := RenewLive(hash, existing.value, requestedDurationMs, now);
        EvaluatedFrom(old(S()), live, S(), hash, r);
        return;
      }
      ghost var begun := S();
      r := EvaluateAbsent(hash, canonical, leaseDurationMs, now, at, identifiers, sessionMs, cleanupMs, maxActiveUploads);
      EvaluatedFrom(old(S()), begun, S(), hash, r);
    }

    // ----- upload clean-up -----

    /**
     * Expires due uploads, oldest first, and drains the queue of superseded keys with what is left of
     * the limit; it never touches nodes, edges or objects, nor a record before its own clean-up time.
     */
    method CleanupExpiredUploads(now: int, limit: nat) returns (deleted: Option<nat>)
      requires Valid()
      modifies this
      ensures Valid() && OnlyFrees(old(history), history) && Extends(old(log), log, None)
      ensures OnlyExpires(old(S()), S(), Overdue(old(S()), now))
      ensures Benign() ==> deleted.Some? && CleansUp(old(S()), S(), now, limit, deleted.value)
    {
      hide Valid, Inv, OnlyExpires, DropsOnly, IsFirst, Earliest, DueUploads, Overdue, CleanupTimes, CleansUp, Interferes;
      var proceeds := Tick();
      ghost var start := S();
      ghost var all := Overdue(start, now);
      SameOverdue(old(S()), start, now);
      InterferenceExpiresNothing(old(S()), start, all);
      if !proceeds {
        return None;
      }
      var rows := FirstInOrder(DueUploads(S(), now), limit);
      SelectsOverdue(start, now, limit, rows);
      deleted := CleanUpSelected(now, limit, rows);
      ExpiresTransitive(old(S()), start, S(), all, all, all);
    }

    method CleanUpSelected(now: int, limit: nat, rows: seq<Hash>) returns (deleted: Option<nat>)
      requires Valid() && Earliest(CleanupTimes(S()), now, limit, rows)
      modifies this
      ensures Valid() && OnlyFrees(old(history), history) && Extends(old(log), log, None)
      ensures OnlyExpires(old(S()), S(), Overdue(old(S()), now))
      ensures Benign() ==> deleted.Some? && CleansUp(old(S()), S(), now, limit, deleted.value)
    {
      hide Valid, Inv, OnlyExpires, DropsOnly, Earliest, CleanupTimes, Overdue, CleansUp, Drains, Interferes, HashesOf;
      ghost var start := S();
      ghost var all := Overdue(start, now);
      RowsAreOverdue(start, now, limit, rows);
      var count := ExpireRows(rows);
      ghost var before := S();
      OnlyExpiresMore(start, before, HashesOf(rows), all);
      if count.None? {
        return None;
      }
      var drained := DrainCleanupQueue(now, limit - count.value);
      DrainExpiresNothing(before, S());
      ExpiresTransitive(start, before, S(), all, {}, all);
      if drained.None? {
        return None;
      }
      deleted := Some(count.value + drained.value);
      if Benign() {
        CleanedUpInTwo(start, before, S(), now, limit, rows, drained.value);
      }
    }

    // The selected records in turn; each is still current when its turn comes.
    method ExpireRows(rows: seq<Hash>) returns (count: Option<nat>)
      requires Valid() && DistinctHashes(rows) && forall h :: h in rows ==> h in uploads
      modifies this
      ensures Valid() && OnlyFrees(old(history), history) && Extends(old(log), log, None)
      ensures OnlyExpires(old(S()), S(), HashesOf(rows))
      ensures count.Some? ==> count.value == |rows|
      ensures Benign() ==> count.Some? && DropsOnly(old(S()), S(), HashesOf(rows), KeysOf(old(S()), rows))
    {
      hide Valid, Inv, OnlyExpires, DropsOnly;
      InterferenceExpiresNothing(S(), S(), {});
      NothingDropped(S(), rows[..0]);
      for i := 0 to |rows|
        invariant Valid() && OnlyFrees(old(history), history) && Extends(old(log), log, None)
        invariant OnlyExpires(old(S()), S(), HashesOf(rows[..i]))
        invariant Benign() ==> DropsOnly(old(S()), S(), HashesOf(rows[..i]), KeysOf(old(S()), rows[..i]))
      {
        assert rows[i] !in HashesOf(rows[..i]);
        StillRecorded(old(S()), S(), HashesOf(rows[..i]), rows[i]);
        ghost var before := S();
        var proceeds := ExpireOne(rows[i], uploads[rows[i]]);
        OneMoreRow(old(S()), rows, i);
        ExpiresTransitive(old(S()), before, S(), HashesOf(rows[..i]), {rows[i]}, HashesOf(rows[..i + 1]));
        if Benign() {
          DropsMore(old(S()), before, S(), HashesOf(rows[..i]), KeysOf(old(S()), rows[..i]),
                    {rows[i]}, {old(uploads)[rows[i]].temporaryKey});
        }
        if !proceeds {
          OnlyExpiresMore(old(S()), S(), HashesOf(rows[..i + 1]), HashesOf(rows));
          return None;
        }
      }
      assert rows[..|rows|] == rows;
      count := Some(|rows|);
    }

    // Deletes the temporary object, then the record and its reservation.
    method ExpireOne(hash: Hash, upload: Upload) returns (proceeds: bool)
      requires Valid() && hash in uploads && uploads[hash] == upload
      modifies this
      ensures Valid() && OnlyFrees(old(history), history) && Extends(old(log), log, None)
      ensures OnlyExpires(old(S()), S(), {hash})
      ensures Benign() ==> proceeds && DropsOnly(old(S()), S(), {hash}, {upload.temporaryKey})
    {
      hide Inv, ExpireUploadBatch, OnlyExpires, DropsOnly;
      proceeds := Tick();
      ghost var ticked := S();
      InterferenceExpiresNothing(old(S()), ticked, {hash});
      if proceeds {
        proceeds := DeleteTemporaryUploadObject(upload.temporaryKey);
        DrainExpiresNothing(ticked, S());
        ExpiresTransitive(old(S()), ticked, S(), {hash}, {}, {hash});
      }
      if proceeds {
        ghost var emptied := S();
        proceeds := ExpireRecord(hash, upload);
        ExpiresTransitive(old(S()), emptied, S(), {hash}, {hash}, {hash});
        if Benign() {
          RecordThenObject(old(S()), emptied, S(), hash, upload.temporaryKey);
        }
      }
    }

    // One batch: the reservation and the record of the current generation.
    method ExpireRecord(hash: Hash, upload: Upload) returns (proceeds: bool)
      requires Valid() && hash in uploads && uploads[hash] == upload
      modifies this
      ensures Valid() && history == old(history) && Extends(old(log), log, None)
      ensures OnlyExpires(old(S()), S(), {hash})
      ensures Benign() ==> proceeds && DropsOnly(old(S()), S(), {hash}, {})
    {
      hide Inv, ExpireUploadBatch;
      proceeds := Tick();
      if proceeds {
        assert temporary - {} == temporary && cleanup - {} == cleanup;
        ExpireUploadKeepsInv(digest, W(), hash, upload.generation);
        ExpiredUploads(digest, W(), hash, upload.generation);
        Perform(ExpireUpload(hash, upload.generation), ExpireUploadBatch(S(), hash, upload.generation).value);
      }
    }

    // Superseded keys whose time has come, oldest first.
    method DrainCleanupQueue(now: int, limit: nat) returns (deleted: Option<nat>)
      requires Valid()
      modifies this
      ensures Valid() && OnlyFrees(old(history), history) && Extends(old(log), log, None)
      ensures Interferes(old(S()).(cleanup := cleanup), S())
      ensures Benign() ==> deleted.Some? && Drains(old(S()), S(), now, limit, deleted.value)
    {
      hide Valid, Inv, IsFirst, Earliest;
      if limit == 0 {
        NothingDrained(S(), now);
        return Some(0);
      }
      var proceeds := Tick();
      if !proceeds {
        return None;
      }
      var keys := FirstInOrder(DueKeys(cleanup, now), limit);
      FirstIsEarliest(cleanup, now, DueKeys(cleanup, now), limit, keys);
      proceeds := DeleteKeys(keys);
      if !proceeds {
        return None;
      }
      deleted := Some(|keys|);
      assert Benign() ==> Drained(old(S()), S(), now, limit, keys);
    }

    method DeleteKeys(keys: seq<Key>) returns (proceeds: bool)
      requires Valid()
      modifies this
      ensures Valid() && OnlyFrees(old(history), history) && Extends(old(log), log, None)
      ensures Interferes(old(S()).(cleanup := cleanup), S())
      ensures Benign() ==>
                && proceeds
                && S() == old(S()).(temporary := old(temporary) - KeySet(keys), cleanup := old(cleanup) - KeySet(keys))
    {
      hide Valid, Inv;
      proceeds := true;
      assert old(temporary) - KeySet(keys[..0]) == old(temporary) && old(cleanup) - KeySet(keys[..0]) == old(cleanup);
      for i := 0 to |keys|
        invariant Valid() && OnlyFrees(old(history), history) && Extends(old(log), log, None)
        invariant Interferes(old(S()).(cleanup := cleanup), S())
        invariant Benign() ==>
                    S() == old(S()).(temporary := old(temporary) - KeySet(keys[..i]),
                                     cleanup := old(cleanup) - KeySet(keys[..i]))
      {
        proceeds := Tick();
        if proceeds {
          proceeds := DeleteTemporaryUploadObject(keys[i]);
        }
        if !proceeds {
          return;
        }
        assert KeySet(keys[..i + 1]) == KeySet(keys[..i]) + {keys[i]};
        MapMinus(old(temporary), KeySet(keys[..i]), {keys[i]});
        MapMinus(old(cleanup), KeySet(keys[..i]), {keys[i]});
      }
      assert keys[..|keys|] == keys;
      proceeds := true;
    }

    // ----- collection -----

    // Up to `maxNodes` eligible rows; fewer only when there are no more.
    method FindExpiredUnreferenced(cutoff: int, maxNodes: nat) returns (candidates: seq<Hash>)
      ensures Distinct(candidates)
      ensures forall h :: h in candidates ==> Eligible(S(), cutoff, h)
      ensures |candidates| <= maxNodes
      ensures |candidates| < maxNodes ==> forall h :: Eligible(S(), cutoff, h) ==> h in candidates
    {
      candidates := [];
      var remaining := tables.nodes.Keys;
      while remaining != {} && |candidates| < maxNodes
        invariant remaining <= tables.nodes.Keys
        invariant Distinct(candidates)
        invariant forall h :: h in candidates ==> Eligible(S(), cutoff, h) && h !in remaining
        invariant |candidates| <= maxNodes
        invariant forall h :: Eligible(S(), cutoff, h) ==> h in candidates || h in remaining
        decreases remaining
      {
        var h :| h in remaining;
        remaining := remaining - {h};
        if Eligible(S(), cutoff, h) {
          candidates := candidates + [h];
        }
      }
    }

    // GROUP BY child_hash over the node's edges.
    method GroupChildren(hash: Hash) returns (children: seq<(Hash, nat)>)
      ensures IsGrouping(edges, hash, children)
    {
      children := [];
      var remaining := set e | e in edges && e.parent == hash;
      while remaining != {}
        invariant forall e :: e in remaining ==> e in edges && e.parent == hash
        invariant forall i, j :: 0 <= i < j < |children| ==> children[i].0 != children[j].0
        invariant forall i :: 0 <= i < |children| ==> children[i].1 == |Between(edges, hash, children[i].0)|
        invariant forall e :: e in edges && e.parent == hash && e !in remaining ==>
                    exists i :: 0 <= i < |children| && children[i].0 == e.child
        invariant forall i, e :: 0 <= i < |children| && e in remaining ==> children[i].0 != e.child
        decreases remaining
      {
        var e :| e in remaining;
        var same := set x | x in remaining && x.child == e.child;
        assert same == Between(edges, hash, e.child);
        ghost var grouped := children;
        children := children + [(e.child, |same|)];
        remaining := remaining - same;
        forall x | x in edges && x.parent == hash && x !in remaining
          ensures exists i :: 0 <= i < |children| && children[i].0 == x.child
        {
          if x in same {
            assert children[|grouped|].0 == x.child;
          } else {
            var i :| 0 <= i < |grouped| && grouped[i].0 == x.child;
            assert children[i].0 == x.child;
          }
        }
      }
    }

    // Re-reads eligibility, and what deleting the node would release.
    method ReadStillExpiredUnreferenced(hash: Hash, cutoff: int) returns (deletion: Option<Deletion>)
      ensures deletion.Some? <==> Eligible(S(), cutoff, hash)
      ensures deletion.Some? ==>
                && deletion.value.hash == hash
                && deletion.value.contentSize == tables.nodes[hash].contentSize
                && IsGrouping(edges, hash, deletion.value.children)
    {
      if !Eligible(S(), cutoff, hash) {
        return None;
      }
      var children := GroupChildren(hash);
      deletion := Some(Deletion(hash, tables.nodes[hash].contentSize, children));
    }

    // UPDATE cas_nodes SET canonical_stored_bytes = NULL
    method ForgetCanonicalObject(hash: Hash, at: nat)
      requires Valid()
      modifies this
      ensures Valid() && Extends(old(log), log, None) && Interferes(old(S()), S())
      ensures hash in tables.nodes ==> tables.nodes[hash].storedBytes.None? && tables.nodes[hash].observedAt == Some(at)
    {
      hide Inv, ObserveStatement;
      ObserveKeepsInv(digest, W(), ForgetObject(hash, at));
      ObserveShape(S(), hash, None, at);
      Perform(ForgetObject(hash, at), ObserveStatement(S(), hash, None, at).value);
    }

    // The object goes first, then the row's record of it; the second call may throw.
    method DeleteCanonicalContent(hash: Hash, cutoff: int, at: nat) returns (proceeds: bool)
      requires Valid() && Eligible(S(), cutoff, hash)
      modifies this
      ensures Valid() && Extends(old(log), log, Some(cutoff))
      ensures Interferes(old(S()).(objects := old(objects) - {hash}), S())
      ensures proceeds ==>
                hash in tables.nodes && tables.nodes[hash].storedBytes.None? && tables.nodes[hash].observedAt == Some(at)
      ensures Benign() ==> proceeds
    {
      hide Inv;
      Perform(DeleteObject(hash, cutoff), S().(objects := objects - {hash}));
      proceeds := Tick();
      if proceeds {
        ForgetCanonicalObject(hash, at);
      }
    }

    method CommitCollected(deletion: Deletion)
      requires Valid() && Enabled(digest, W(), CommitDeletion(deletion.hash, deletion.children))
      modifies this
      ensures Valid() && Extends(old(log), log, None) && Collected(old(S()), S(), deletion.hash)
    {
      hide Inv, Enabled, Batch, Collected;
      CountsOnlyDrop(digest, W(), deletion.hash, deletion.children);
      CommitNodeDeletion(deletion);
    }

    // Content first, then metadata. False is a throw, which can leave a row without its object.
    method DeleteExamined(deletion: Deletion, cutoff: int, at: nat) returns (proceeds: bool)
      requires Valid() && Eligible(S(), cutoff, deletion.hash) && IsGrouping(edges, deletion.hash, deletion.children)
      modifies this
      ensures Valid() && Extends(old(log), log, Some(cutoff))
      ensures Shrinks(old(S()), S())
      ensures proceeds ==> Collected(old(S()), S(), deletion.hash)
      ensures Benign() ==> proceeds
    {
      hide Inv, Enabled, IsGrouping, Collected, Eligible, Interferes, Shrinks;
      var hash := deletion.hash;
      proceeds := Tick();
      EligibleThrough(old(S()), S(), cutoff, hash);
      ghost var held := S();
      InterferenceShrinks(old(S()), held);
      if !proceeds {
        return;
      }
      proceeds := DeleteCanonicalContent(hash, cutoff, at);
      ghost var emptied := S();
      ContentShrinks(held, emptied, hash);
      ShrinksOn(old(S()), held, emptied);
      if !proceeds {
        return;
      }
      proceeds := Tick();
      ghost var before := S();
      InterferenceShrinks(emptied, before);
      ShrinksOn(old(S()), emptied, before);
      if !proceeds {
        return;
      }
      DeletionMayCommit(digest, old(S()), held, emptied, W(), cutoff, hash, deletion.children);
      CommitCollected(deletion);
      CollectedShrinks(before, S(), hash);
      ShrinksOn(old(S()), before, S());
      CollectedFrom(old(S()), before, S(), hash);
    }

    // One candidate: recheck, delete content, commit. None is a throw.
    method CollectOne(hash: Hash, cutoff: int, at: nat) returns (collected: Option<Option<nat>>)
      requires Valid()
      modifies this
      ensures Valid() && Extends(old(log), log, Some(cutoff))
      ensures Shrinks(old(S()), S())
      ensures collected == Some(None) ==> !Eligible(old(S()), cutoff, hash)
      ensures collected.Some? && collected.value.Some? ==> CollectedBytes(old(S()), S(), hash, collected.value.value)
      ensures Benign() ==> collected.Some?
    {
      hide Valid, Inv, IsGrouping, Collected, Eligible, Interferes, Shrinks;
      var proceeds := Tick();
      InterferenceShrinks(old(S()), S());
      if !proceeds {
        return None;
      }
      ghost var before := S();
      EligibleThrough(old(S()), before, cutoff, hash);
      var deletion := ReadStillExpiredUnreferenced(hash, cutoff);
      if deletion.None? {
        return Some(None);
      }
      EligibleHasRow(before, cutoff, hash);
      proceeds := DeleteExamined(deletion.value, cutoff, at);
      ShrinksOn(old(S()), before, S());
      if !proceeds {
        return None;
      }
      CollectedThrough(old(S()), before, S(), hash);
      collected := Some(Some(deletion.value.contentSize));
    }

    // The candidates in turn. Each is still eligible at its turn, so each is deleted.
    method CollectCandidates(candidates: seq<Hash>, cutoff: int, at: nat) returns (r: Option<(nat, nat)>)
      requires Valid() && Distinct(candidates)
      requires forall h :: h in candidates ==> Eligible(S(), cutoff, h)
      modifies this
      ensures Valid() && Extends(old(log), log, Some(cutoff))
      ensures r.Some? ==> r.value.0 == |candidates| && CollectedSoFar(old(S()), S(), candidates, r.value.1)
      ensures Shrinks(old(S()), S())
      ensures candidates == [] ==> S() == old(S())
      ensures Benign() ==> r.Some?
    {
      hide Valid, Inv, Collected, Eligible, CollectedSoFar, CollectedBytes, Shrinks;
      var deleted, reclaimed := 0, 0;
      NothingCollected(S());
      ShrinksToItself(S());
      assert candidates[..0] == [];
      for i := 0 to |candidates|
        invariant Valid() && Extends(old(log), log, Some(cutoff))
        invariant Shrinks(old(S()), S())
        invariant deleted == i && (i == 0 ==> S() == old(S()))
        invariant CollectedSoFar(old(S()), S(), candidates[..i], reclaimed)
        invariant forall j :: i <= j < |candidates| ==> Eligible(S(), cutoff, candidates[j])
      {
        ghost var before := S();
        var collected := CollectOne(candidates[i], cutoff, at);
        ShrinksOn(old(S()), before, S());
        if collected.None? {
          return None;
        }
        match collected.value {
          case None =>
          case Some(contentSize) =>
            deleted := deleted + 1;
            reclaimed := reclaimed + contentSize;
            CollectsOneMore(old(S()), before, S(), candidates[..i], candidates[i], reclaimed - contentSize, contentSize);
            assert candidates[..i + 1] == candidates[..i] + [candidates[i]];
            OthersStayEligible(before, S(), cutoff, candidates, i, contentSize);
        }
      }
      assert candidates[..|candidates|] == candidates;
      r := Some((deleted, reclaimed));
    }

    /**
     * One collection pass. Every examined candidate is still eligible when its turn comes, so a pass
     * that does not throw deletes exactly what it examined; it examines nothing only when nothing is
     * eligible; and all its deletions use the one cutoff.
     */
    method CollectExpiredUnreferencedNodes(maxNodes: nat, cutoff: int, at: nat) returns (r: Option<GcResult>)
      requires Valid() && maxNodes > 0
      modifies this
      ensures Valid() && Extends(old(log), log, Some(cutoff))
      ensures Shrinks(old(S()), S())
      ensures r.Some? ==> PassResult(old(S()), S(), cutoff, maxNodes, r.value)
      ensures r.Some? && r.value.examined == 0 ==> Interferes(old(S()), S())
      ensures Benign() ==> r.Some?
    {
      hide Valid, Inv, Collected, Eligible, Interferes, CollectedSoFar, PassResult, Shrinks;
      var proceeds := Tick();
      InterferenceShrinks(old(S()), S());
      if !proceeds {
        return None;
      }
      ghost var start := S();
      var candidates := FindExpiredUnreferenced(cutoff, maxNodes);
      var collected := CollectCandidates(candidates, cutoff, at);
      ShrinksOn(old(S()), start, S());
      if collected.None? {
        return None;
      }
      r := Some(GcResult(|candidates|, collected.value.0, collected.value.1));
      PassFromStart(start, S(), candidates, cutoff, maxNodes, r.value);
      PassThrough(old(S()), start, S(), cutoff, maxNodes, r.value);
    }
  }

  ghost predicate Distinct(hashes: seq<Hash>) {
    forall i, j :: 0 <= i < j < |hashes| ==> hashes[i] != hashes[j]
  }

  // Rows and reservations only go; the rows left keep their leases, root counts and edges.
  ghost predicate Shrinks(s: Store, s': Store) {
    var nodes, nodes' := s.tables.nodes, s'.tables.nodes;
    && nodes'.Keys <= nodes.Keys
    && (forall h :: h in nodes' ==>
          nodes'[h].leaseExpiresAt == nodes[h].leaseExpiresAt && nodes'[h].rootRefCount == nodes[h].rootRefCount)
    && s'.edges <= s.edges && (forall e :: e in s.edges && e.parent in nodes' ==> e in s'.edges)
    && forall h :: h in s'.tables.reservations ==>
         h in s.tables.reservations && s'.tables.reservations[h] == s.tables.reservations[h]
  }

  lemma ShrinksOn(a: Store, b: Store, c: Store)
    requires Shrinks(a, b) && Shrinks(b, c)
    ensures Shrinks(a, c)
  {
  }

  lemma InterferenceShrinks(s: Store, s': Store)
    requires Interferes(s, s')
    ensures Shrinks(s, s')
  {
  }

  lemma ShrinksToItself(s: Store)
    ensures Shrinks(s, s)
  {
  }

  lemma ContentShrinks(s: Store, s': Store, hash: Hash)
    requires Interferes(s.(objects := s.objects - {hash}), s')
    ensures Shrinks(s, s')
  {
  }

  lemma CollectedShrinks(s: Store, s': Store, hash: Hash)
    requires Collected(s, s', hash)
    ensures Shrinks(s, s')
  {
    forall e | e in s.edges && e.parent in s'.tables.nodes
      ensures e in s'.edges
    {
      assert e !in Out(s.edges, hash);
    }
  }

  // What a collection pass from `s` to `s'` reports.
  ghost predicate PassResult(s: Store, s': Store, cutoff: int, maxNodes: nat, r: GcResult) {
    var nodes, nodes' := s.tables.nodes, s'.tables.nodes;
    && r.deleted == r.examined <= maxNodes
    && |nodes'| == |nodes| - r.deleted
    && r.reclaimedContentBytes == ContentOf(nodes) - ContentOf(nodes')
    && (r.examined == 0 <==> forall h :: !Eligible(s, cutoff, h))
    && (r.examined < maxNodes ==> forall h :: Eligible(s, cutoff, h) ==> h !in nodes')
    && Shrinks(s, s')
    && (forall h :: h in nodes && !Eligible(s, cutoff, h) ==> h in nodes')
  }

  lemma EligibleThrough(s: Store, s': Store, cutoff: int, hash: Hash)
    requires Interferes(s, s')
    ensures Eligible(s, cutoff, hash) <==> Eligible(s', cutoff, hash)
  {
  }

  lemma EligibleHasRow(s: Store, cutoff: int, hash: Hash)
    requires Eligible(s, cutoff, hash)
    ensures hash in s.tables.nodes
  {
  }

  // Between deleting the object and the row nothing has come to need the node.
  lemma DeletionMayCommit(
    digest: Digest, start: Store, held: Store, emptied: Store, w: World, cutoff: int,
    hash: Hash, children: seq<(Hash, nat)>)
    requires Eligible(start, cutoff, hash) && IsGrouping(start.edges, hash, children)
    requires Interferes(start, held) && Interferes(held.(objects := held.objects - {hash}), emptied)
    requires Interferes(emptied, w.store)
    ensures Enabled(digest, w, CommitDeletion(hash, children))
    ensures SameButObservations(start.tables.nodes, w.store.tables.nodes)
    ensures w.store.tables.reservations == start.tables.reservations && w.store.edges == start.edges
  {
    hide IsGrouping;
  }

  lemma CollectedThrough(s: Store, before: Store, s': Store, hash: Hash)
    requires Interferes(s, before) && hash in before.tables.nodes && Collected(before, s', hash)
    ensures CollectedBytes(s, s', hash, before.tables.nodes[hash].contentSize)
  {
    CollectedFrom(s, before, s', hash);
  }

  ghost predicate CollectedBytes(s: Store, s': Store, hash: Hash, contentSize: nat) {
    && Collected(s, s', hash)
    && contentSize == s.tables.nodes[hash].contentSize
  }

  lemma NothingCollected(s: Store)
    ensures CollectedSoFar(s, s, [], 0)
  {
  }

  lemma PassFromStart(start: Store, s: Store, candidates: seq<Hash>, cutoff: int, maxNodes: nat, r: GcResult)
    requires CollectedSoFar(start, s, candidates, r.reclaimedContentBytes)
    requires r.deleted == r.examined == |candidates| <= maxNodes && maxNodes > 0
    requires forall h :: h in candidates ==> Eligible(start, cutoff, h)
    requires |candidates| < maxNodes ==> forall h :: Eligible(start, cutoff, h) ==> h in candidates
    ensures PassResult(start, s, cutoff, maxNodes, r)
  {
    hide ContentOf, Eligible;
    assert candidates != [] ==> candidates[0] in candidates;
    forall h | Eligible(start, cutoff, h)
      ensures h in start.tables.nodes
    {
      EligibleHasRow(start, cutoff, h);
    }
  }

  lemma PassThrough(s: Store, start: Store, s': Store, cutoff: int, maxNodes: nat, r: GcResult)
    requires Interferes(s, start) && PassResult(start, s', cutoff, maxNodes, r)
    ensures PassResult(s, s', cutoff, maxNodes, r)
  {
    hide ContentOf, Eligible;
    forall h
      ensures Eligible(s, cutoff, h) <==> Eligible(start, cutoff, h)
    {
      EligibleThrough(s, start, cutoff, h);
    }
    SameContent(s.tables.nodes, start.tables.nodes);
    InterferenceShrinks(s, start);
    ShrinksOn(s, start, s');
  }

  lemma ApplyCommitted(w: World, a: Action, s: Store)
    requires Batch(w.store, a) == Ok(s)
    ensures Apply(w, a) == World(s, Recorded(w, a))
  {
  }

  lemma SeenGrows(w: World, a: Action)
    ensures w.history.seen <= Recorded(w, a).seen
  {
  }

  lemma HeadStaysTrue(digest: Digest, seen: set<bytes>, seen': set<bytes>, head: Option<(Hash, Option<nat>)>)
    requires seen <= seen'
    requires head.Some? && head.value.1.Some? ==> LengthSeen(digest, seen, head.value.0, head.value.1.value)
    ensures head.Some? && head.value.1.Some? ==> LengthSeen(digest, seen', head.value.0, head.value.1.value)
  {
    if head.Some? && head.value.1.Some? {
      var content :| content in seen && digest(content) == head.value.0 && |content| == head.value.1.value;
      assert content in seen';
    }
  }

  lemma ObjectLengthSeen(digest: Digest, w: World, hash: Hash)
    requires Inv(digest, w)
    ensures hash in w.store.objects ==> LengthSeen(digest, w.history.seen, hash, |w.store.objects[hash]|)
  {
  }

  lemma ObjectIsAddressed(digest: Digest, w: World, hash: Hash)
    requires Inv(digest, w) && hash in w.store.objects
    ensures digest(w.store.objects[hash]) == hash
  {
  }

  lemma StagedUploads(s: Store, hash: Hash, generation: Key, v: Validation)
    requires StageValidationBatch(s, hash, generation, v).Ok?
    ensures var s' := StageValidationBatch(s, hash, generation, v).value;
            if !IsCurrent(s, hash, generation) then s' == s
            else
              var upload := s.uploads[hash];
              && s'.uploads == s.uploads[hash := upload.(validation := Some(v))]
              && s'.tables.reservations
                 == s.tables.reservations[hash := Reservation(v.storedBytes, upload.createdAt, upload.cleanupAt)]
  {
  }

  lemma ExpiredUploads(digest: Digest, w: World, hash: Hash, generation: Key)
    requires Inv(digest, w) && ExpireUploadBatch(w.store, hash, generation).Ok?
    ensures var s, s' := w.store, ExpireUploadBatch(w.store, hash, generation).value;
            && s' == s.(tables := s'.tables, uploads := s'.uploads) && s'.tables.nodes == s.tables.nodes
            && (if IsCurrent(s, hash, generation)
                then s'.uploads == s.uploads - {hash} && s'.tables.reservations == s.tables.reservations - {hash}
                else s' == s)
  {
    hide Consistent, ParseNode, DeleteReservation;
    if IsCurrent(w.store, hash, generation) {
      DeleteReservationKeeps(w.store.tables, hash);
    }
  }

  // ----- what one collected node leaves -----

  // The node is gone; every other row keeps all but observations and a possibly lower child count.
  ghost predicate Collected(s: Store, s': Store, hash: Hash) {
    var nodes, nodes' := s.tables.nodes, s'.tables.nodes;
    && hash in nodes && nodes'.Keys == nodes.Keys - {hash}
    && s'.tables.reservations == s.tables.reservations
    && s'.edges == s.edges - Out(s.edges, hash)
    && RowsKept(nodes', nodes)
    && forall h :: h in nodes' ==> 0 <= nodes'[h].childRefCount <= nodes[h].childRefCount
  }

  lemma CollectedFrom(s0: Store, s: Store, s1: Store, hash: Hash)
    requires SameButObservations(s0.tables.nodes, s.tables.nodes)
    requires s.tables.reservations == s0.tables.reservations && s.edges == s0.edges
    requires Collected(s, s1, hash)
    ensures Collected(s0, s1, hash)
  {
  }

  lemma CountsOnlyDrop(digest: Digest, w: World, hash: Hash, children: seq<(Hash, nat)>)
    requires Inv(digest, w) && Enabled(digest, w, CommitDeletion(hash, children))
    ensures Collected(w.store, Apply(w, CommitDeletion(hash, children)).store, hash)
  {
    hide Consistent, ParseNode, RowsDescribed, ObjectsAddressed, UploadsWitnessed, MissingOnlyExpired, CommitDeletionBatch;
    CommitDeletionCommits(digest, w, hash, children);
    var s' := Apply(w, CommitDeletion(hash, children)).store;
    forall h | h in s'.tables.nodes
      ensures 0 <= s'.tables.nodes[h].childRefCount <= w.store.tables.nodes[h].childRefCount
    {
      InRemoveParent(w.store.edges, hash, h);
    }
  }

  // The logical bytes of all rows.
  ghost function ContentOf(nodes: map<Hash, NodeRow>): int {
    NodeSum(nodes, ContentBytes)
  }

  lemma {:induction false} SameContent(a: map<Hash, NodeRow>, b: map<Hash, NodeRow>)
    requires a.Keys == b.Keys && forall h :: h in a ==> b[h].contentSize == a[h].contentSize
    ensures ContentOf(a) == ContentOf(b) && |a| == |b|
    decreases |a|
  {
    assert |a| == |a.Keys| == |b.Keys| == |b|;
    if a != map[] {
      var h :| h in a;
      NodeSumRemove(a, ContentBytes, h);
      NodeSumRemove(b, ContentBytes, h);
      SameContent(a - {h}, b - {h});
    } else {
      assert b == map[];
    }
  }

  lemma ContentAfterCollection(s: Store, s': Store, hash: Hash)
    requires Collected(s, s', hash)
    ensures ContentOf(s'.tables.nodes) == ContentOf(s.tables.nodes) - s.tables.nodes[hash].contentSize
    ensures |s'.tables.nodes| == |s.tables.nodes| - 1
  {
    NodeSumRemove(s.tables.nodes, ContentBytes, hash);
    SameContent(s'.tables.nodes, s.tables.nodes - {hash});
  }

  // A pass that has worked off these candidates.
  ghost predicate CollectedSoFar(start: Store, s: Store, done: seq<Hash>, reclaimed: int) {
    && s.tables.nodes.Keys == start.tables.nodes.Keys - (set h | h in done)
    && |s.tables.nodes| == |start.tables.nodes| - |done|
    && reclaimed == ContentOf(start.tables.nodes) - ContentOf(s.tables.nodes)
    && (forall h :: h in s.tables.nodes ==> s.tables.nodes[h].contentSize == start.tables.nodes[h].contentSize)
    && Shrinks(start, s)
  }

  lemma CollectsOneMore(
    start: Store, s: Store, s': Store, done: seq<Hash>, hash: Hash, reclaimed: nat, contentSize: nat)
    requires CollectedSoFar(start, s, done, reclaimed) && CollectedBytes(s, s', hash, contentSize)
    ensures CollectedSoFar(start, s', done + [hash], reclaimed + contentSize)
  {
    hide ContentOf;
    ContentAfterCollection(s, s', hash);
    CollectedShrinks(s, s', hash);
    ShrinksOn(start, s, s');
  }

  lemma OthersStayEligible(
    s: Store, s': Store, cutoff: int, candidates: seq<Hash>, i: nat, contentSize: nat)
    requires i < |candidates| && CollectedBytes(s, s', candidates[i], contentSize) && Distinct(candidates)
    requires forall j :: i <= j < |candidates| ==> Eligible(s, cutoff, candidates[j])
    ensures forall j :: i < j < |candidates| ==> Eligible(s', cutoff, candidates[j])
  {
  }

  // ----- from upload to publication -----

  // A node that clients have uploaded and no evaluation has looked at yet.
  predicate IsUploaded(s: Store, hash: Hash, content: bytes) {
    && hash !in s.tables.nodes && hash !in s.objects
    && hash in s.uploads && s.uploads[hash].validation.None?
    && s.uploads[hash].temporaryKey in s.temporary && s.temporary[s.uploads[hash].temporaryKey] == content
  }

  // An empty Space in which one upload record's temporary object holds these bytes.
  function Uploaded(hash: Hash, upload: Upload, content: bytes): Store {
    Store(Metered(map[], map[], None), {}, map[hash := upload], map[], map[], map[upload.temporaryKey := content])
  }

  lemma UploadedInv(digest: Digest, hash: Hash, upload: Upload, content: bytes)
    requires upload.validation.None?
    ensures Inv(digest, World(Uploaded(hash, upload, content), History({}, map[], 0, 0, map[])))
    ensures IsUploaded(Uploaded(hash, upload, content), hash, content)
  {
  }

  lemma LegalNodeIsAcceptable(digest: Digest, node: Node)
    requires LegalNode(node, DEFAULT_LIMITS)
    ensures Acceptable(digest, digest(Encode(node)), Encode(node))
    ensures ParseNode(Encode(node), DEFAULT_LIMITS).Ok? && ParseNode(Encode(node), DEFAULT_LIMITS).value.refs == node.refs
  {
    EncodeThenParse(node, DEFAULT_LIMITS);
    EncodedParts(node);
  }

  // Undisturbed, an uploaded legal node whose children are ready is published.
  lemma LegalUploadIsPublished(
    digest: Digest, s: Store, s': Store, node: Node, successor: Upload, now: int, r: LeaseResult)
    requires LegalNode(node, DEFAULT_LIMITS) && IsUploaded(s, digest(Encode(node)), Encode(node))
    requires forall c :: c in node.refs ==> Ready(s, c)
    requires var hash := digest(Encode(node)); Progresses(digest, s, s', hash, s.uploads[hash], successor, now, r)
    ensures r.ReadyLease?
    ensures var hash := digest(Encode(node)); DropsRecords(s, s', {hash}, {s.uploads[hash].temporaryKey})
  {
    hide ParseNode, Encode, LegalNode, Acceptable, DropsRecords;
    LegalNodeIsAcceptable(digest, node);
  }

  /**
   * End to end: in an undisturbed Space one evaluation publishes any uploaded legal node whose
   * children are ready, and a collection before its lease expires keeps it.
   */
  method PublishesUploadedNode(space: Space, node: Node, now: int, durationMs: int, at: nat) returns (lease: Lease)
    requires space.Valid() && space.Benign() && LegalNode(node, DEFAULT_LIMITS)
    requires IsUploaded(space.S(), space.digest(Encode(node)), Encode(node))
    requires forall c :: c in node.refs ==> Ready(space.S(), c)
    modifies space
    ensures space.Valid()
    ensures space.digest(Encode(node)) in space.tables.nodes
    ensures lease.startedAt <= lease.expiresAt && lease.expiresAt >= now + MIN_LEASE_MS
  {
    hide Inv, ParseNode, Encode, LegalNode, Evaluated, PassResult, Interferes, Progresses, Admits, Recovers, IsUploaded;
    var hash := space.digest(Encode(node));
    ghost var start := space.S();
    UploadedHasRecord(start, hash, Encode(node));
    var r := space.LeaseDrivenNodeUpload(hash, durationMs, now, at, n => ([0], [1]), 0, 0, 1);
    LegalUploadIsPublished(space.digest, start, space.S(), node, NewUpload(([0], [1]), now, 0, 0, None), now, r);
    lease := r.lease;
    ghost var published := space.S();
    LeasedByAnswer(start, published, hash, lease);
    var pass := space.CollectExpiredUnreferencedNodes(1, now, at);
    KeptByPass(published, space.S(), now, hash, pass.value);
  }

  lemma UploadedHasRecord(s: Store, hash: Hash, content: bytes)
    requires IsUploaded(s, hash, content)
    ensures hash !in s.tables.nodes && hash !in s.objects && hash in s.uploads
  {
  }

  lemma LeasedByAnswer(s: Store, s': Store, hash: Hash, lease: Lease)
    requires Evaluated(s, s', hash, ReadyLease(lease))
    ensures hash in s'.tables.nodes && s'.tables.nodes[hash].leaseExpiresAt == lease.expiresAt
  {
  }

  lemma KeptByPass(s: Store, s': Store, cutoff: int, hash: Hash, r: GcResult)
    requires PassResult(s, s', cutoff, 1, r) && hash in s.tables.nodes && s.tables.nodes[hash].leaseExpiresAt > cutoff
    ensures hash in s'.tables.nodes
  {
  }

  /** Such Spaces exist: an empty one with a leaf uploaded. */
  method PublishesFirstNode(digest: Digest, node: Node, upload: Upload, now: int, durationMs: int, at: nat)
    returns (space: Space, lease: Lease)
    requires LegalNode(node, DEFAULT_LIMITS) && node.refs == [] && upload.validation.None?
    ensures fresh(space) && space.Valid() && digest(Encode(node)) in space.tables.nodes
    ensures lease.expiresAt >= now + MIN_LEASE_MS
  {
    hide Inv, ParseNode, Encode, LegalNode, IsUploaded;
    var hash := digest(Encode(node));
    UploadedInv(digest, hash, upload, Encode(node));
    space := new Space(digest, n => Turn([], true), Uploaded(hash, upload, Encode(node)), History({}, map[], 0, 0, map[]));
    lease := PublishesUploadedNode(space, node, now, durationMs, at);
  }

  // ----- a validated upload that waits for its children -----

  /** A validated upload whose children are ready is published exactly when its temporary object has the digest, else it fails. */
  lemma PublishesIffHeld(digest: Digest, s: Store, s': Store, hash: Hash, successor: Upload, now: int, r: LeaseResult)
    requires hash in s.uploads && s.uploads[hash].validation.Some?
    requires forall c :: c in s.uploads[hash].validation.value.metadata.refs ==> Ready(s, c)
    requires Progresses(digest, s, s', hash, s.uploads[hash], successor, now, r)
    ensures r.ReadyLease? <==>
            var key := s.uploads[hash].temporaryKey; key in s.temporary && digest(s.temporary[key]) == hash
    ensures r.ReadyLease? || r.Failed?
    ensures r.ReadyLease? ==> DropsRecords(s, s', {hash}, {s.uploads[hash].temporaryKey})
  {
    hide ParseNode, Acceptable, DropsRecords, Replaces;
  }

  /**
   * A validation staged from its upload is published once its children are ready: until its key is
   * deleted the temporary object is there with the digest, so undisturbed the evaluation grants the lease.
   */
  lemma StagedUploadIsPublished(
    digest: Digest, w: World, s': Store, hash: Hash, successor: Upload, now: int, r: LeaseResult)
    requires Inv(digest, w) && StagedFromUpload(w, hash)
    requires forall c :: c in w.store.uploads[hash].validation.value.metadata.refs ==> Ready(w.store, c)
    requires Progresses(digest, w.store, s', hash, w.store.uploads[hash], successor, now, r)
    ensures r.ReadyLease? && DropsRecords(w.store, s', {hash}, {w.store.uploads[hash].temporaryKey})
  {
    hide Consistent, ParseNode, GraphInv, RowsDescribed, ObjectsAddressed, UploadsWitnessed, MissingOnlyExpired;
    hide DropsRecords, Progresses;
    assert ValidatedHeld(digest, w, hash, w.store.uploads[hash].temporaryKey);
    PublishesIffHeld(digest, w.store, s', hash, successor, now, r);
  }

  // A parent and the one child it still lacks, both uploaded and not looked at yet.
  ghost predicate LacksOnly(s: Store, digest: Digest, parent: Node, child: Node) {
    && LegalNode(parent, DEFAULT_LIMITS) && LegalNode(child, DEFAULT_LIMITS)
    && IsUploaded(s, digest(Encode(parent)), Encode(parent)) && IsUploaded(s, digest(Encode(child)), Encode(child))
    && digest(Encode(child)) in parent.refs
    && (forall c :: c in parent.refs ==> c == digest(Encode(child)) || Ready(s, c))
    && forall c :: c in child.refs ==> Ready(s, c)
  }

  lemma LacksAnother(s: Store, digest: Digest, parent: Node, child: Node)
    requires LacksOnly(s, digest, parent, child)
    ensures digest(Encode(parent)) != digest(Encode(child))
  {
    hide Encode, LegalNode;
    if digest(Encode(parent)) == digest(Encode(child)) {
      EncodeIsInjective(parent, DEFAULT_LIMITS, child, DEFAULT_LIMITS);
      assert false;
    }
  }

  // The first evaluation of the parent records its validation and names the child.
  lemma ParentWaits(
    digest: Digest, s: Store, s': Store, parent: Node, child: Node, successor: Upload, now: int, r: LeaseResult)
    requires LacksOnly(s, digest, parent, child)
    requires var hash := digest(Encode(parent)); Progresses(digest, s, s', hash, s.uploads[hash], successor, now, r)
    ensures r.AwaitingChildren? && IsUploaded(s', digest(Encode(child)), Encode(child))
    ensures var hash := digest(Encode(parent));
            var upload := s.uploads[hash];
            && hash !in s'.tables.nodes && hash !in s'.objects && hash in s'.uploads
            && upload.temporaryKey in s'.temporary && s'.temporary[upload.temporaryKey] == Encode(parent)
            && s'.uploads[hash].temporaryKey == upload.temporaryKey
            && s'.uploads[hash].validation.Some? && s'.uploads[hash].validation.value.metadata.refs == parent.refs
    ensures forall c :: Ready(s, c) <==> Ready(s', c)
  {
    hide ParseNode, Encode, LegalNode, Acceptable;
    LacksAnother(s, digest, parent, child);
    LegalNodeIsAcceptable(digest, parent);
    assert !Ready(s, digest(Encode(child)));
  }

  // Publishing the child leaves the parent's record and temporary object, which are not the child's.
  lemma ChildIsPublished(
    digest: Digest, w: World, s': Store, parent: Hash, child: Node, successor: Upload, now: int, r: LeaseResult)
    requires Inv(digest, w) && LegalNode(child, DEFAULT_LIMITS)
    requires IsUploaded(w.store, digest(Encode(child)), Encode(child)) && forall c :: c in child.refs ==> Ready(w.store, c)
    requires parent != digest(Encode(child)) && parent in w.store.uploads
    requires var hash := digest(Encode(child));
             Progresses(digest, w.store, s', hash, w.store.uploads[hash], successor, now, r)
             && Evaluated(w.store, s', hash, r)
    ensures r.ReadyLease? && parent in s'.uploads && s'.uploads[parent] == w.store.uploads[parent]
    ensures var key := w.store.uploads[parent].temporaryKey;
            key in w.store.temporary ==> key in s'.temporary && s'.temporary[key] == w.store.temporary[key]
    ensures parent in s'.tables.nodes ==> parent in w.store.tables.nodes
    ensures parent in s'.objects ==> parent in w.store.objects
    ensures Ready(s', digest(Encode(child))) && forall c :: Ready(w.store, c) ==> Ready(s', c)
  {
    hide ParseNode, Encode, LegalNode, Acceptable, Progresses;
    hide Consistent, GraphInv, RowsDescribed, ObjectsAddressed, UploadsWitnessed, MissingOnlyExpired;
    LegalUploadIsPublished(digest, w.store, s', child, successor, now, r);
  }

  // The parent's evaluation once the child is published.
  lemma ParentIsPublished(
    digest: Digest, s: Store, s': Store, parent: Node, successor: Upload, now: int, r: LeaseResult)
    requires var hash := digest(Encode(parent));
             && hash in s.uploads && s.uploads[hash].validation.Some?
             && s.uploads[hash].validation.value.metadata.refs == parent.refs
             && s.uploads[hash].temporaryKey in s.temporary && s.temporary[s.uploads[hash].temporaryKey] == Encode(parent)
             && Progresses(digest, s, s', hash, s.uploads[hash], successor, now, r)
    requires forall c :: c in parent.refs ==> Ready(s, c)
    ensures r.ReadyLease?
  {
    hide ParseNode, Encode, LegalNode, Acceptable;
  }

  /**
   * End to end: undisturbed, a parent uploaded before its child waits for it by name, and is published
   * by the first evaluation after the child is, with no second upload.
   */
  method PublishesParentAfterChild(
    space: Space, parent: Node, child: Node, now: int, durationMs: int, at: nat, identifiers: nat -> (Key, Key))
    requires space.Valid() && space.Benign() && LacksOnly(space.S(), space.digest, parent, child)
    modifies space
    ensures space.Valid()
    ensures Ready(space.S(), space.digest(Encode(child))) && Ready(space.S(), space.digest(Encode(parent)))
    ensures forall h :: old(Ready(space.S(), h)) ==> Ready(space.S(), h)
  {
    hide Inv, ParseNode, Encode, LegalNode, Progresses, Admits, Recovers, Evaluated, Answers, IsUploaded, Extends;
    var hash, below := space.digest(Encode(parent)), space.digest(Encode(child));
    ghost var successor := NewUpload(identifiers(0), now, 0, 0, None);
    ghost var start := space.S();
    UploadedHasRecord(start, hash, Encode(parent));
    LacksAnother(start, space.digest, parent, child);
    var r := space.LeaseDrivenNodeUpload(hash, durationMs, now, at, identifiers, 0, 0, 1);
    ParentWaits(space.digest, start, space.S(), parent, child, successor, now, r);
    ghost var waiting := space.W();
    UploadedHasRecord(waiting.store, below, Encode(child));
    r := space.LeaseDrivenNodeUpload(below, durationMs, now, at, identifiers, 0, 0, 1);
    ChildIsPublished(space.digest, waiting, space.S(), hash, child, successor, now, r);
    ghost var published := space.S();
    r := space.LeaseDrivenNodeUpload(hash, durationMs, now, at, identifiers, 0, 0, 1);
    ParentIsPublished(space.digest, published, space.S(), parent, successor, now, r);
    EvaluatedKeepsReady(published, space.S(), hash, r);
  }

  lemma EvaluatedKeepsReady(s: Store, s': Store, hash: Hash, r: LeaseResult)
    requires Evaluated(s, s', hash, r) && r.ReadyLease?
    ensures Ready(s', hash) && forall h :: Ready(s, h) ==> Ready(s', h)
  {
  }
}
