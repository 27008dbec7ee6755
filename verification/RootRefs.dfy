// Updating root references: the kernel of one Space's update, run behind that
// Space's gate while other Spaces of the App commit in between, calls fail before
// they happen, and replies of calls that did happen are lost.
module RootRefs {
  import opened Prelude
  import opened Order
  import opened RootLedger

  datatype Update = Update(requestId: RequestId, payloadHash: Hash, entries: seq<(Hash, int)>)

  datatype Code =
    | InvalidRequest
    | IdempotencyConflict
    | NodeNotFound
    | NegativeAggregate
    | NodeNotReady
    | Busy

  datatype Outcome = Applied(revision: nat) | AlreadyApplied(revision: nat) | Rejected(code: Code) | Retryable

  // ----- canonical form -----

  predicate LegalEntry(entry: (Hash, int)) {
    |entry.0| == 32 && entry.1 != 0 && -(MAX_ROOT_REF_DELTA as int) <= entry.1 <= MAX_ROOT_REF_DELTA
  }

  /**
   * Validates the listing of a changes object and sorts it. The digest of the canonical text is some
   * function of the sorted entries.
   */
  method CanonicalizeRootRefsUpdate(requestId: RequestId, changes: seq<(Hash, int)>, payloadOf: seq<(Hash, int)> -> Hash)
    returns (r: Result<Update, Code>)
    requires forall i, j :: 0 <= i < j < |changes| ==> changes[i].0 != changes[j].0
    ensures r.Ok? <==>
              && 1 <= |requestId| <= 256 && 1 <= |changes| <= 1000
              && forall i :: 0 <= i < |changes| ==>
                   |changes[i].0| == 32 && changes[i].1 != 0 && -1000000 <= changes[i].1 <= 1000000
    ensures r.Err? ==> r.error == InvalidRequest
    ensures r.Ok? ==>
              && r.value == Update(requestId, payloadOf(r.value.entries), r.value.entries)
              && Sorted(r.value.entries) && multiset(r.value.entries) == multiset(changes)
              && DistinctKeys(r.value.entries)
  {
    if requestId == "" || |requestId| > MAX_REQUEST_ID_LENGTH {
      return Err(InvalidRequest);
    }
    var entries: seq<(Hash, int)> := [];
    for i := 0 to |changes|
      invariant entries == changes[..i]
      invariant forall j :: 0 <= j < i ==> LegalEntry(changes[j])
    {
      if !LegalEntry(changes[i]) {
        return Err(InvalidRequest);
      }
      entries := entries + [changes[i]];
    }
    if entries == [] || |entries| > MAX_ROOT_REF_CHANGES {
      return Err(InvalidRequest);
    }
    assert entries == changes;
    SortSorts(changes);
    SortedIsDistinct(Sort(changes));
    r := Ok(Update(requestId, payloadOf(Sort(entries)), Sort(entries)));
  }

  lemma SortedIsDistinct<V>(s: seq<(Hash, V)>)
    requires Sorted(s)
    ensures DistinctKeys(s)
  {
    forall i, j | 0 <= i < j < |s|
      ensures s[i].0 != s[j].0
    {
      LessIrreflexive(s[i].0);
    }
  }

  /** Two listings of the same changes have the same canonical form, so a retry carries the same payload. */
  lemma CanonicalFormIgnoresOrder(a: seq<(Hash, int)>, b: seq<(Hash, int)>)
    requires DistinctKeys(a) && DistinctKeys(b) && multiset(a) == multiset(b)
    ensures Sort(a) == Sort(b)
  {
    SortSorts(a);
    SortSorts(b);
    forall x
      ensures x in Sort(a) <==> x in Sort(b)
    {
      InMultiset(Sort(a), a, x);
      InMultiset(Sort(b), b, x);
      InMultiset(a, b, x);
    }
    SortedIsUnique(Sort(a), Sort(b));
  }

  // ----- what the update's Space sees -----

  // Nothing of the Space has changed.
  ghost predicate SameSpace(l: Ledger, l': Ledger, me: Space) {
    && (forall h :: (me, h) in l.counts <==> (me, h) in l'.counts)
    && (forall h :: (me, h) in l.counts ==> l'.counts[(me, h)] == l.counts[(me, h)])
    && SameBesides(l, l', me)
  }

  ghost predicate SameBesides(l: Ledger, l': Ledger, me: Space) {
    && (forall h :: (me, h) in l.ready <==> (me, h) in l'.ready)
    && (forall q :: (me, q) in l.requests <==> (me, q) in l'.requests)
    && (forall q :: (me, q) in l.requests ==> l'.requests[(me, q)] == l.requests[(me, q)])
  }

  // The update happened: recorded once under its revision, and every count moved by its delta.
  ghost predicate TookEffect(l: Ledger, l': Ledger, me: Space, u: Update, revision: nat) {
    && (me, u.requestId) !in l.requests
    && (me, u.requestId) in l'.requests && l'.requests[(me, u.requestId)] == Request(u.payloadHash, revision)
    && revision in l'.events && revision !in l.events && l'.events[revision].entries == u.entries
    && (forall h :: (me, h) in l.counts <==> (me, h) in l'.counts)
    && (forall h :: (me, h) in l.counts ==> l'.counts[(me, h)] == l.counts[(me, h)] + DeltaOf(u.entries, h))
    && (forall h :: (me, h) in l.ready <==> (me, h) in l'.ready)
    && (forall q :: q != u.requestId ==> ((me, q) in l.requests <==> (me, q) in l'.requests))
    && (forall q :: (me, q) in l.requests ==> l'.requests[(me, q)] == l.requests[(me, q)])
  }

  datatype Verdict = Known(revision: nat) | Refuse(code: Code) | Proceed

  // The first entry that names no row, goes below zero or leaves the safe integers.
  function CheckNodes(l: Ledger, me: Space, entries: seq<(Hash, int)>): Option<Code> {
    if entries == [] then None
    else
      var (hash, delta) := entries[0];
      if (me, hash) !in l.counts then Some(NodeNotFound)
      else if l.counts[(me, hash)] + delta < 0 then Some(NegativeAggregate)
      else if l.counts[(me, hash)] + delta > MAX_SAFE_INTEGER then Some(InvalidRequest)
      else CheckNodes(l, me, entries[1..])
  }

  predicate AllReady(l: Ledger, me: Space, entries: seq<(Hash, int)>) {
    forall i :: 0 <= i < |entries| && entries[i].1 > 0 ==> (me, entries[i].0) in l.ready
  }

  /** What the Space's state says about the update, whatever the rest of the App does. */
  function Decide(l: Ledger, me: Space, u: Update): Verdict {
    if (me, u.requestId) in l.requests then
      var known := l.requests[(me, u.requestId)];
      if known.payloadHash == u.payloadHash then Known(known.revision) else Refuse(IdempotencyConflict)
    else
      match CheckNodes(l, me, u.entries)
      case Some(code) => Refuse(code)
      case None => if AllReady(l, me, u.entries) then Proceed else Refuse(NodeNotReady)
  }

  lemma {:induction false} CheckIsLocal(l: Ledger, l': Ledger, me: Space, entries: seq<(Hash, int)>)
    requires SameSpace(l, l', me)
    ensures CheckNodes(l, me, entries) == CheckNodes(l', me, entries)
  {
    if entries != [] {
      CheckIsLocal(l, l', me, entries[1..]);
    }
  }

  lemma DecideIsLocal(l: Ledger, l': Ledger, me: Space, u: Update)
    requires SameSpace(l, l', me)
    ensures Decide(l, me, u) == Decide(l', me, u)
  {
    CheckIsLocal(l, l', me, u.entries);
  }

  // Of a request not seen before, the rows and the objects decide.
  lemma DecideFresh(l: Ledger, l': Ledger, me: Space, u: Update)
    requires SameSpace(l, l', me) && (me, u.requestId) !in l.requests
    ensures (me, u.requestId) !in l'.requests && Decide(l', me, u) == Decide(l, me, u)
    ensures CheckNodes(l', me, u.entries) == CheckNodes(l, me, u.entries)
    ensures AllReady(l', me, u.entries) <==> AllReady(l, me, u.entries)
    ensures Decide(l, me, u) == match CheckNodes(l, me, u.entries)
                                case Some(code) => Refuse(code)
                                case None => if AllReady(l, me, u.entries) then Proceed else Refuse(NodeNotReady)
  {
    CheckIsLocal(l, l', me, u.entries);
  }

  lemma {:induction false} CheckedEntries(l: Ledger, me: Space, entries: seq<(Hash, int)>, i: nat)
    requires CheckNodes(l, me, entries).None? && i < |entries|
    ensures (me, entries[i].0) in l.counts && l.counts[(me, entries[i].0)] + entries[i].1 >= 0
  {
    if i > 0 {
      CheckedEntries(l, me, entries[1..], i - 1);
    }
  }

  // ----- the same in plain terms -----

  // The row exists, and its count stays a number the service can hold.
  ghost predicate Fits(l: Ledger, me: Space, entry: (Hash, int)) {
    (me, entry.0) in l.counts && 0 <= l.counts[(me, entry.0)] + entry.1 <= 9007199254740991
  }

  ghost function CodeOf(l: Ledger, me: Space, entry: (Hash, int)): Code {
    if (me, entry.0) !in l.counts then NodeNotFound
    else if l.counts[(me, entry.0)] + entry.1 < 0 then NegativeAggregate
    else InvalidRequest
  }

  ghost predicate FailsFirst(l: Ledger, me: Space, entries: seq<(Hash, int)>, i: nat) {
    i < |entries| && !Fits(l, me, entries[i]) && forall j :: 0 <= j < i ==> Fits(l, me, entries[j])
  }

  // The request is new, every entry fits, and what gains a reference is stored.
  ghost predicate Appliable(l: Ledger, me: Space, u: Update) {
    && (me, u.requestId) !in l.requests
    && (forall i :: 0 <= i < |u.entries| ==> Fits(l, me, u.entries[i]))
    && (forall i :: 0 <= i < |u.entries| && u.entries[i].1 > 0 ==> (me, u.entries[i].0) in l.ready)
  }

  // Why the update is refused: another payload under its id, else its first entry that does not fit,
  // else an object that is not there.
  ghost predicate RefusedFor(l: Ledger, me: Space, u: Update, code: Code) {
    if (me, u.requestId) in l.requests
    then code == IdempotencyConflict && l.requests[(me, u.requestId)].payloadHash != u.payloadHash
    else if exists i :: 0 <= i < |u.entries| && !Fits(l, me, u.entries[i])
    then exists i: nat :: FailsFirst(l, me, u.entries, i) && code == CodeOf(l, me, u.entries[i])
    else code == NodeNotReady && exists i :: 0 <= i < |u.entries| && u.entries[i].1 > 0 && (me, u.entries[i].0) !in l.ready
  }

  // What an undisturbed update is answered.
  ghost predicate Determined(l: Ledger, me: Space, u: Update, r: Outcome) {
    match r
    case AlreadyApplied(revision) =>
      (me, u.requestId) in l.requests && l.requests[(me, u.requestId)] == Request(u.payloadHash, revision)
    case Applied(revision) =>
      Appliable(l, me, u) && revision == CurrentRevision(l) + 1 && CurrentRevision(l) < 9007199254740991
    case Rejected(code) =>
      RefusedFor(l, me, u, code) || (code == Busy && Appliable(l, me, u) && CurrentRevision(l) >= 9007199254740991)
    case Retryable => false
  }

  lemma {:induction false} CheckedInOrder(l: Ledger, me: Space, entries: seq<(Hash, int)>)
    ensures CheckNodes(l, me, entries).None? <==> forall i :: 0 <= i < |entries| ==> Fits(l, me, entries[i])
    ensures forall code :: CheckNodes(l, me, entries) == Some(code) ==>
              exists i: nat :: FailsFirst(l, me, entries, i) && code == CodeOf(l, me, entries[i])
  {
    if entries != [] {
      CheckedInOrder(l, me, entries[1..]);
      if Fits(l, me, entries[0]) && CheckNodes(l, me, entries).Some? {
        var i: nat :| FailsFirst(l, me, entries[1..], i)
                      && CheckNodes(l, me, entries[1..]).value == CodeOf(l, me, entries[1..][i]);
        assert FailsFirst(l, me, entries, i + 1);
      }
      if !Fits(l, me, entries[0]) {
        assert FailsFirst(l, me, entries, 0);
      }
    }
  }

  /** An update goes ahead exactly when it is appliable, and each refusal has its code. */
  lemma DecisionInPlainTerms(l: Ledger, me: Space, u: Update)
    ensures Decide(l, me, u) == Proceed <==> Appliable(l, me, u)
    ensures forall code :: Decide(l, me, u) == Refuse(code) ==> code != Busy && RefusedFor(l, me, u, code)
    ensures forall revision :: Decide(l, me, u) == Known(revision) ==>
              (me, u.requestId) in l.requests && l.requests[(me, u.requestId)] == Request(u.payloadHash, revision)
  {
    CheckedInOrder(l, me, u.entries);
  }

  // ----- steps of others -----

  // The steps of other Spaces that could happen, in turn.
  function Interleaved(l: Ledger, others: seq<Step>, me: Space): Ledger {
    if others == [] then l
    else
      var before := Interleaved(l, others[..|others| - 1], me);
      var step := others[|others| - 1];
      if Foreign(step, me) && Enabled(before, step) then Apply(before, step) else before
  }

  lemma ForeignKeepsSpace(l: Ledger, step: Step, me: Space)
    requires Inv(l) && Enabled(l, step) && Foreign(step, me)
    ensures SameSpace(l, Apply(l, step), me)
  {
    if step.Commit? {
      CommitCommits(l, step.plan);
    }
  }

  lemma SameSpaceTransitive(a: Ledger, b: Ledger, c: Ledger, me: Space)
    requires SameSpace(a, b, me) && SameSpace(b, c, me)
    ensures SameSpace(a, c, me)
  {
  }

  lemma AppendTransitive(a: Ledger, b: Ledger, c: Ledger)
    requires Append(a, b) && Append(b, c)
    ensures Append(a, c)
  {
  }

  lemma {:induction false} ExecAppend(l: Ledger, steps: seq<Step>, last: Step)
    requires IsRun(l, steps) && Enabled(Exec(l, steps), last)
    ensures IsRun(l, steps + [last]) && Exec(l, steps + [last]) == Apply(Exec(l, steps), last)
    decreases |steps|
  {
    hide Enabled, Apply;
    if steps == [] {
      assert steps + [last] == [last] && [last][1..] == [];
      assert Exec(l, [last]) == Exec(Apply(l, last), []);
      assert IsRun(Apply(l, last), []);
    } else {
      assert (steps + [last])[1..] == steps[1..] + [last];
      ExecAppend(Apply(l, steps[0]), steps[1..], last);
    }
  }

  // What a commit may answer, by its interface.
  datatype CommitAnswer = TookPlace | RevisionConflict

  datatype Fate = Proceeds | FailsBefore | LosesReply

  datatype Turn = Turn(others: seq<Step>, fate: Fate)

  // ----- the kernel -----

  class AppStore {
    const schedule: nat -> Turn
    var clock: nat

    var revision: Option<nat>
    var counts: map<Key, int>
    var ready: set<Key>
    var refs: map<Key, int>
    var events: map<nat, Event>
    var requests: map<(Space, RequestId), Request>

    ghost const origin: Ledger
    ghost var log: seq<Step>

    function L(): Ledger
      reads this
    {
      Ledger(revision, counts, ready, refs, events, requests)
    }

    /** The tables satisfy the invariant and were reached by a run of enabled steps. */
    ghost predicate Valid()
      reads this
    {
      Inv(L()) && IsRun(origin, log) && Exec(origin, log) == L()
    }

    constructor (schedule: nat -> Turn, l: Ledger)
      requires Inv(l)
      ensures Valid() && L() == l && this.schedule == schedule
    {
      this.schedule, clock, origin, log := schedule, 0, l, [];
      revision, counts, ready, refs, events, requests := l.revision, l.counts, l.ready, l.refs, l.events, l.requests;
    }

    // Nobody else acts and no call fails.
    ghost predicate Benign() {
      forall n :: schedule(n) == Turn([], Proceeds)
    }

    // A step happens: the tables take their new values.
    method Perform(step: Step, l: Ledger)
      requires Valid() && Enabled(L(), step) && Apply(L(), step) == l
      modifies this
      ensures Valid() && L() == l && Append(old(L()), l) && clock == old(clock)
    {
      hide Inv, Enabled, Apply, IsRun, Exec, Append;
      StepKeepsInv(L(), step);
      StepAppends(L(), step);
      ExecAppend(origin, log, step);
      revision, counts, ready, refs, events, requests := l.revision, l.counts, l.ready, l.refs, l.events, l.requests;
      log := log + [step];
      assert L() == l;
    }

    // Other Spaces act, then the call about to be made meets its fate.
    method Tick(me: Space) returns (fate: Fate)
      requires Valid()
      modifies this
      ensures Valid() && SameSpace(old(L()), L(), me) && Append(old(L()), L())
      ensures Benign() ==> fate == Proceeds && L() == old(L())
      ensures clock == old(clock) + 1 && fate == schedule(old(clock)).fate
      ensures L() == Interleaved(old(L()), schedule(old(clock)).others, me)
    {
      hide Inv, Enabled, Apply, SameSpace, Append;
      var turn := schedule(clock);
      clock := clock + 1;
      SameSpaceReflexive(L(), me);
      for i := 0 to |turn.others|
        invariant Valid() && SameSpace(old(L()), L(), me) && Append(old(L()), L())
        invariant turn.others == [] ==> L() == old(L())
        invariant clock == old(clock) + 1 && L() == Interleaved(old(L()), turn.others[..i], me)
      {
        assert turn.others[..i + 1][..i] == turn.others[..i];
        var step := turn.others[i];
        if Foreign(step, me) && Enabled(L(), step) {
          ghost var before := L();
          ForeignKeepsSpace(before, step, me);
          Perform(step, Apply(L(), step));
          SameSpaceTransitive(old(L()), before, L(), me);
          AppendTransitive(old(L()), before, L());
        }
      }
      assert turn.others[..|turn.others|] == turn.others;
      fate := turn.fate;
    }

    /**
     * One commit: the batch takes effect whole or not at all, and its reply may be lost. A revision
     * that has moved aborts the batch, so the call throws; it never answers that there is a conflict.
     */
    method Commit(plan: Plan) returns (answer: Option<CommitAnswer>)
      requires Valid() && Licensed(L(), plan)
      modifies this
      ensures Valid() && Append(old(L()), L())
      ensures SameSpace(old(L()), L(), plan.space) || CommittedBetween(old(L()), L(), plan)
      ensures answer.Some? ==> answer.value.TookPlace? && CommittedBetween(old(L()), L(), plan)
      ensures Benign() && CurrentRevision(old(L())) == plan.expectedRevision ==> answer.Some?
    {
      hide Inv, Interleaved, SameSpace, Append, Licensed, CommitBatch, CommittedBetween, Committed;
      var fate := Tick(plan.space);
      ghost var before := L();
      LicenseIsLocal(old(L()), before, plan);
      if fate.FailsBefore? {
        return None;
      }
      CommitCommits(before, plan);
      var l := L();
      if CurrentRevision(l) != plan.expectedRevision {
        return None;
      }
      l := l.(revision := Some(plan.revision));
      BatchUnfolds(before, plan);
      for i := 0 to |plan.entries|
        invariant CommitBatch(L(), plan) == Finish(ApplyEntries(l, plan, i), plan)
        invariant L() == before && ApplyEntries(l, plan, i).Ok?
      {
        var key := (plan.space, plan.entries[i].0);
        l := ShiftCount(l, key, plan.entries[i].1).value;
        l := Project(l, key, FindProjection(plan.projections, key.1)).value;
      }
      l := AppendEvent(l, plan).value;
      l := RecordRequest(l, plan).value;
      Perform(RootLedger.Commit(plan), l);
      CommittedAfter(old(L()), before, l, plan);
      AppendTransitive(old(L()), before, l);
      answer := if fate.Proceeds? then Some(TookPlace) else None;
    }

    // One read per hash; None is a failed read.
    method ReadNodes(me: Space, entries: seq<(Hash, int)>) returns (nodes: Option<map<Hash, int>>)
      requires Valid()
      modifies this
      ensures Valid() && SameSpace(old(L()), L(), me) && Append(old(L()), L())
      ensures nodes.Some? ==>
                forall e :: e in entries ==>
                  (e.0 in nodes.value <==> (me, e.0) in counts)
                  && (e.0 in nodes.value ==> nodes.value[e.0] == counts[(me, e.0)])
      ensures Benign() ==> nodes.Some? && L() == old(L())
    {
      hide Inv, Interleaved, Append;
      var found: map<Hash, int> := map[];
      SameSpaceReflexive(L(), me);
      for i := 0 to |entries|
        invariant Valid() && SameSpace(old(L()), L(), me) && Append(old(L()), L())
        invariant forall h :: h in found ==> (me, h) in counts && found[h] == counts[(me, h)]
        invariant forall e :: e in entries[..i] && (me, e.0) in counts ==> e.0 in found
        invariant Benign() ==> L() == old(L())
      {
        ghost var before := L();
        var fate := Tick(me);
        AppendTransitive(old(L()), before, L());
        if !fate.Proceeds? {
          return None;
        }
        var hash := entries[i].0;
        if (me, hash) in counts {
          found := found[hash := counts[(me, hash)]];
        }
      }
      nodes := Some(found);
    }

    // One head request per hash that gains references; None is a failed request.
    method AllObjectsReady(me: Space, entries: seq<(Hash, int)>) returns (allReady: Option<bool>)
      requires Valid()
      modifies this
      ensures Valid() && SameSpace(old(L()), L(), me) && Append(old(L()), L())
      ensures allReady.Some? ==> (allReady.value <==> AllReady(old(L()), me, entries))
      ensures Benign() ==> allReady.Some? && L() == old(L())
    {
      hide Inv, Interleaved, Append;
      SameSpaceReflexive(L(), me);
      for i := 0 to |entries|
        invariant Valid() && SameSpace(old(L()), L(), me) && Append(old(L()), L())
        invariant AllReady(old(L()), me, entries[..i])
        invariant Benign() ==> L() == old(L())
      {
        if entries[i].1 > 0 {
          ghost var before := L();
          var fate := Tick(me);
          AppendTransitive(old(L()), before, L());
          if !fate.Proceeds? {
            return None;
          }
          if (me, entries[i].0) !in ready {
            return Some(false);
          }
        }
      }
      assert entries[..|entries|] == entries;
      allReady := Some(true);
    }

    // The App's revision, then the Space's balances; the two reads need not agree with each other.
    method ReadAppState(me: Space) returns (state: Option<(nat, map<Hash, int>)>)
      requires Valid()
      modifies this
      ensures Valid() && SameSpace(old(L()), L(), me) && Append(old(L()), L())
      ensures state.Some? ==>
                && state.value.0 <= CurrentRevision(L())
                && (forall h :: h in state.value.1 <==> (me, h) in refs)
                && (forall h :: h in state.value.1 ==> state.value.1[h] == refs[(me, h)])
      ensures Benign() ==> state.Some? && L() == old(L()) && state.value.0 == CurrentRevision(L())
    {
      hide Inv, Interleaved, SameSpace;
      var fate := Tick(me);
      if !fate.Proceeds? {
        return None;
      }
      var read := revision.GetOr(0);
      ghost var before := L();
      fate := Tick(me);
      SameSpaceTransitive(old(L()), before, L(), me);
      if !fate.Proceeds? {
        return None;
      }
      state := Some((read, map k | k in refs && k.0 == me :: k.1 := refs[k]));
    }

    // The reads and checks of one attempt: a plan, or why there is none.
    method PlanUpdate(me: Space, u: Update, now: int) returns (r: Result<Plan, Outcome>)
      requires Valid() && DistinctKeys(u.entries) && (me, u.requestId) !in requests
      modifies this
      ensures Valid() && SameSpace(old(L()), L(), me) && Append(old(L()), L())
      ensures r.Ok? ==>
                && Decide(old(L()), me, u) == Proceed && Licensed(L(), r.value)
                && r.value.space == me && Update(r.value.requestId, r.value.payloadHash, r.value.entries) == u
      ensures r.Err? ==> Settles(old(L()), L(), me, u, r.error) && (r.error.Rejected? || r.error.Retryable?)
      ensures Benign() && Decide(old(L()), me, u) == Proceed && CurrentRevision(old(L())) < MAX_SAFE_INTEGER
              ==> r.Ok? && L() == old(L()) && r.value.expectedRevision == CurrentRevision(L())
      ensures Benign() && r.Ok? ==> r.value.revision == CurrentRevision(old(L())) + 1 <= MAX_SAFE_INTEGER
      ensures Benign() ==> L() == old(L()) && (r.Err? ==> !r.error.Retryable?)
    {
      hide Inv, SameSpace, Append, AllReady, Licensed, CheckNodes, Decide, Projections;
      var nodes := ReadNodes(me, u.entries);
      if nodes.None? {
        return Err(Retryable);
      }
      var code := CheckNodeStates(nodes.value, u.entries, L(), me);
      ghost var read := L();
      DecideFresh(old(L()), read, me, u);
      if code.Some? {
        return Err(Rejected(code.value));
      }
      var allReady := AllObjectsReady(me, u.entries);
      ghost var headed := L();
      StillTheSame(old(L()), read, headed, me);
      DecideFresh(old(L()), headed, me, u);
      if allReady.None? {
        return Err(Retryable);
      }
      if !allReady.value {
        return Err(Rejected(NodeNotReady));
      }
      var state := ReadAppState(me);
      StillTheSame(old(L()), headed, L(), me);
      if state.None? {
        return Err(Retryable);
      }
      var (expected, balances) := state.value;
      if expected + 1 > MAX_SAFE_INTEGER {
        return Err(Rejected(Busy));
      }
      DecideFresh(old(L()), L(), me, u);
      BalancesAgree(L(), me, u.entries, balances);
      NodesStay(read, headed, L(), me, u.entries, nodes.value);
      if exists e :: e in u.entries && (if e.0 in balances then balances[e.0] else 0) != nodes.value[e.0] {
        return Err(Rejected(Busy));
      }
      var projections := Projections(u.entries, balances);
      var plan := Plan(me, u.requestId, u.payloadHash, u.entries, expected, expected + 1, projections, now);
      PlanIsLicensed(L(), me, u, plan, balances);
      r := Ok(plan);
    }

    /** One attempt. Whatever fails or is lost, the update has happened once or not at all. */
    method ApplyRootRefsUpdate(me: Space, u: Update, now: int) returns (r: Outcome)
      requires Valid() && DistinctKeys(u.entries)
      modifies this
      ensures Valid() && Append(old(L()), L()) && Settles(old(L()), L(), me, u, r)
      ensures Benign() && Decide(old(L()), me, u) == Proceed && CurrentRevision(old(L())) < MAX_SAFE_INTEGER ==> r.Applied?
      ensures Benign() ==> !r.Retryable? && Determined(old(L()), me, u, r)
      ensures r.Applied? ==> Appliable(old(L()), me, u)
      ensures r.Rejected? && r.code != Busy ==> RefusedFor(old(L()), me, u, r.code)
      ensures r == Rejected(Busy) ==> Appliable(old(L()), me, u) && CurrentRevision(L()) >= 9007199254740991
    {
      hide Inv, Interleaved, SameSpace, Append, Licensed, TookEffect, Appliable, RefusedFor;
      DecisionInPlainTerms(L(), me, u);
      var fate := Tick(me);
      ghost var looked := L();
      DecideIsLocal(old(L()), looked, me, u);
      if !fate.Proceeds? {
        return Retryable;
      }
      if (me, u.requestId) in requests {
        var existing := requests[(me, u.requestId)];
        return if existing.payloadHash == u.payloadHash then AlreadyApplied(existing.revision)
               else Rejected(IdempotencyConflict);
      }
      var plan := PlanUpdate(me, u, now);
      ghost var planned := L();
      StillTheSame(old(L()), looked, planned, me);
      AppendTransitive(old(L()), looked, planned);
      if plan.Err? {
        return plan.error;
      }
      var answer := Commit(plan.value);
      AppendTransitive(old(L()), planned, L());
      AfterCommit(old(L()), planned, L(), plan.value);
      r := if answer == Some(TookPlace) then Applied(plan.value.revision) else Retryable;
    }

    /**
     * Bounded retries. The last answer is about the whole call: a success means the update is in the
     * ledger once, under the revision returned, however many attempts lost their reply; a refusal
     * means it never happened.
     */
    method WithRootRefsRetry(me: Space, u: Update, now: int, maxAttempts: int) returns (r: Outcome, attempts: nat)
      requires Valid() && DistinctKeys(u.entries)
      modifies this
      ensures Valid() && Append(old(L()), L()) && Concludes(old(L()), L(), me, u, r)
      ensures 1 <= attempts <= Max(1, maxAttempts) && (r.Retryable? ==> attempts >= maxAttempts)
      ensures Benign() && Decide(old(L()), me, u) == Proceed && CurrentRevision(old(L())) < MAX_SAFE_INTEGER
              ==> r.Applied? && attempts == 1
      ensures Benign() ==> attempts == 1 && Determined(old(L()), me, u, r)
      ensures r.Applied? ==> Appliable(old(L()), me, u) || (me, u.requestId) in old(requests)
      ensures r.Rejected? && r.code != Busy ==> RefusedFor(old(L()), me, u, r.code)
      ensures r == Rejected(Busy) ==> Appliable(old(L()), me, u) && CurrentRevision(L()) >= 9007199254740991
    {
      hide Inv, SameSpace, Append, TookEffect, Settles, Decide, Concludes, Determined, Appliable, RefusedFor;
      attempts := 0;
      SameSpaceReflexive(L(), me);
      NothingYet(L(), me, u);
      while true
        invariant Valid() && Append(old(L()), L()) && Concludes(old(L()), L(), me, u, Retryable)
        invariant attempts == 0 || attempts < maxAttempts
        invariant attempts == 0 ==> L() == old(L())
        invariant Benign() ==> attempts == 0
        decreases maxAttempts - attempts, if attempts == 0 then 1 else 0
      {
        attempts := attempts + 1;
        ghost var before := L();
        r := ApplyRootRefsUpdate(me, u, now);
        OneMoreAttempt(old(L()), before, L(), me, u, r);
        ConcludesInPlainTerms(old(L()), L(), me, u, r);
        if !r.Retryable? || attempts >= maxAttempts {
          return;
        }
      }
    }
  }

  // What a retried call may answer, and what it has done.
  ghost predicate Concludes(l: Ledger, l': Ledger, me: Space, u: Update, r: Outcome) {
    match r
    case Rejected(code) => Settles(l, l', me, u, r)
    case Retryable => Settles(l, l', me, u, r)
    case _ =>
      || (Decide(l, me, u) == Known(r.revision) && SameSpace(l, l', me))
      || (Decide(l, me, u) == Proceed && TookEffect(l, l', me, u, r.revision))
  }

  lemma ConcludesInPlainTerms(l: Ledger, l': Ledger, me: Space, u: Update, r: Outcome)
    requires Concludes(l, l', me, u, r)
    ensures r.Applied? ==> Appliable(l, me, u) || (me, u.requestId) in l.requests
    ensures r.Rejected? && r.code != Busy ==> RefusedFor(l, me, u, r.code)
    ensures r == Rejected(Busy) ==> Appliable(l, me, u) && CurrentRevision(l') >= 9007199254740991
  {
    hide SameSpace, TookEffect, Appliable, RefusedFor;
    DecisionInPlainTerms(l, me, u);
  }

  lemma NothingYet(l: Ledger, me: Space, u: Update)
    ensures Concludes(l, l, me, u, Retryable)
  {
  }

  // After a lost reply the request is on record, so another attempt finds it and changes nothing.
  lemma EffectStays(l: Ledger, m: Ledger, l': Ledger, me: Space, u: Update, revision: nat)
    requires TookEffect(l, m, me, u, revision) && SameSpace(m, l', me) && Append(m, l')
    ensures TookEffect(l, l', me, u, revision)
  {
  }

  lemma EffectIsKnown(l: Ledger, m: Ledger, me: Space, u: Update, revision: nat)
    requires TookEffect(l, m, me, u, revision)
    ensures Decide(m, me, u) == Known(revision)
  {
  }

  lemma EffectAfterSame(l: Ledger, m: Ledger, l': Ledger, me: Space, u: Update, revision: nat)
    requires SameSpace(l, m, me) && Append(l, m) && TookEffect(m, l', me, u, revision)
    ensures TookEffect(l, l', me, u, revision)
  {
  }

  lemma OneMoreAttempt(l: Ledger, m: Ledger, l': Ledger, me: Space, u: Update, r: Outcome)
    requires Append(l, m) && Append(m, l') && Concludes(l, m, me, u, Retryable) && Settles(m, l', me, u, r)
    ensures Append(l, l') && Concludes(l, l', me, u, r) && (r.Retryable? ==> Concludes(l, l', me, u, Retryable))
  {
    hide SameSpace, TookEffect, Append, Decide;
    AppendTransitive(l, m, l');
    if SameSpace(l, m, me) {
      DecideIsLocal(l, m, me, u);
      if SameSpace(m, l', me) {
        SameSpaceTransitive(l, m, l', me);
      }
      forall revision | TookEffect(m, l', me, u, revision)
        ensures TookEffect(l, l', me, u, revision)
      {
        EffectAfterSame(l, m, l', me, u, revision);
      }
    } else {
      var revision :| TookEffect(l, m, me, u, revision);
      EffectIsKnown(l, m, me, u, revision);
      EffectStays(l, m, l', me, u, revision);
    }
  }

  // What an attempt may answer, and what it may have done.
  ghost predicate Settles(l: Ledger, l': Ledger, me: Space, u: Update, r: Outcome) {
    match r
    case AlreadyApplied(revision) => Decide(l, me, u) == Known(revision) && SameSpace(l, l', me)
    case Applied(revision) => Decide(l, me, u) == Proceed && TookEffect(l, l', me, u, revision)
    case Rejected(code) =>
      && SameSpace(l, l', me)
      && (Decide(l, me, u) == Refuse(code)
          || (Decide(l, me, u) == Proceed && code == Busy && CurrentRevision(l') >= MAX_SAFE_INTEGER))
    case Retryable =>
      SameSpace(l, l', me)
      || (Decide(l, me, u) == Proceed && exists revision :: TookEffect(l, l', me, u, revision))
  }

  // Checks the rows read against the entries, in order.
  method CheckNodeStates(nodes: map<Hash, int>, entries: seq<(Hash, int)>, ghost l: Ledger, ghost me: Space)
    returns (code: Option<Code>)
    requires forall e :: e in entries ==>
               (e.0 in nodes <==> (me, e.0) in l.counts)
               && (e.0 in nodes ==> nodes[e.0] == l.counts[(me, e.0)])
    ensures code == CheckNodes(l, me, entries)
  {
    assert entries[0..] == entries;
    for i := 0 to |entries|
      invariant CheckNodes(l, me, entries) == CheckNodes(l, me, entries[i..])
    {
      var (hash, delta) := entries[i];
      assert entries[i] in entries && entries[i..][0] == entries[i] && entries[i..][1..] == entries[i + 1..];
      if hash !in nodes {
        return Some(NodeNotFound);
      }
      if nodes[hash] + delta < 0 {
        return Some(NegativeAggregate);
      }
      if nodes[hash] + delta > MAX_SAFE_INTEGER {
        return Some(InvalidRequest);
      }
    }
    code := None;
  }

  function Projections(entries: seq<(Hash, int)>, balances: map<Hash, int>): (r: seq<(Hash, Option<int>)>)
    ensures |r| == |entries|
  {
    seq(|entries|, i requires 0 <= i < |entries| =>
      var balance := if entries[i].0 in balances then balances[entries[i].0] else 0;
      (entries[i].0, if balance + entries[i].1 == 0 then None else Some(balance + entries[i].1)))
  }

  lemma StillTheSame(a: Ledger, b: Ledger, c: Ledger, me: Space)
    requires SameSpace(a, b, me) && Append(a, b) && SameSpace(b, c, me) && Append(b, c)
    ensures SameSpace(a, c, me) && Append(a, c)
  {
  }

  // The projection read back is the count on the row: "projection differs" is never answered.
  lemma BalancesAgree(l: Ledger, me: Space, entries: seq<(Hash, int)>, balances: map<Hash, int>)
    requires Inv(l) && CheckNodes(l, me, entries).None?
    requires (forall h :: h in balances <==> (me, h) in l.refs) && forall h :: h in balances ==> balances[h] == l.refs[(me, h)]
    ensures forall e :: e in entries ==>
              (me, e.0) in l.counts && (if e.0 in balances then balances[e.0] else 0) == l.counts[(me, e.0)]
  {
    forall i | 0 <= i < |entries|
      ensures (me, entries[i].0) in l.counts
    {
      CheckedEntries(l, me, entries, i);
    }
  }

  lemma NodesStay(
    read: Ledger, headed: Ledger, l: Ledger, me: Space, entries: seq<(Hash, int)>, nodes: map<Hash, int>)
    requires SameSpace(read, headed, me) && SameSpace(headed, l, me)
    requires forall e :: e in entries ==>
               (e.0 in nodes <==> (me, e.0) in read.counts) && (e.0 in nodes ==> nodes[e.0] == read.counts[(me, e.0)])
    requires forall e :: e in entries ==> (me, e.0) in l.counts
    ensures forall e :: e in entries ==> e.0 in nodes && nodes[e.0] == l.counts[(me, e.0)]
  {
  }

  lemma {:induction false} FindsProjection(projections: seq<(Hash, Option<int>)>, i: nat)
    requires i < |projections| && DistinctKeys(projections)
    ensures FindProjection(projections, projections[i].0) == projections[i].1
  {
    if i > 0 {
      FindsProjection(projections[1..], i - 1);
    }
  }

  lemma PlanIsLicensed(l: Ledger, me: Space, u: Update, plan: Plan, balances: map<Hash, int>)
    requires DistinctKeys(u.entries) && Decide(l, me, u) == Proceed && plan.revision == plan.expectedRevision + 1
    requires plan.space == me && Update(plan.requestId, plan.payloadHash, plan.entries) == u
    requires plan.projections == Projections(u.entries, balances)
    requires forall e :: e in u.entries ==>
               (me, e.0) in l.counts && (if e.0 in balances then balances[e.0] else 0) == l.counts[(me, e.0)]
    ensures Licensed(l, plan)
  {
    forall i | 0 <= i < |plan.entries|
      ensures EntryLicensed(l, plan, plan.entries[i])
    {
      assert u.entries[i] in u.entries;
      CheckedEntries(l, me, u.entries, i);
      FindsProjection(plan.projections, i);
    }
  }

  lemma AfterCommit(l0: Ledger, planned: Ledger, l: Ledger, plan: Plan)
    requires SameSpace(l0, planned, plan.space) && Append(l0, planned)
    requires SameSpace(planned, l, plan.space) || CommittedBetween(planned, l, plan)
    requires Append(planned, l)
    ensures SameSpace(l0, l, plan.space) || CommittedBetween(l0, l, plan)
    ensures CommittedBetween(planned, l, plan) ==> CommittedBetween(l0, l, plan)
  {
  }

  lemma SameSpaceReflexive(l: Ledger, me: Space)
    ensures SameSpace(l, l, me) && Append(l, l)
  {
  }

  function Finish(applied: Result<Ledger, Abort>, plan: Plan): Result<Ledger, Abort> {
    var l :- applied;
    var appended :- AppendEvent(l, plan);
    RecordRequest(appended, plan)
  }

  lemma BatchUnfolds(l: Ledger, plan: Plan)
    requires CurrentRevision(l) == plan.expectedRevision
    ensures CommitBatch(l, plan) == Finish(ApplyEntries(l.(revision := Some(plan.revision)), plan, 0), plan)
  {
  }

  lemma LicenseIsLocal(l: Ledger, l': Ledger, plan: Plan)
    requires Licensed(l, plan) && SameSpace(l, l', plan.space)
    ensures Licensed(l', plan)
  {
    forall i | 0 <= i < |plan.entries|
      ensures EntryLicensed(l', plan, plan.entries[i])
    {
      assert EntryLicensed(l, plan, plan.entries[i]);
    }
  }

  ghost predicate CommittedBetween(l: Ledger, l': Ledger, plan: Plan) {
    TookEffect(l, l', plan.space, Update(plan.requestId, plan.payloadHash, plan.entries), plan.revision)
  }

  lemma CommittedAfter(l0: Ledger, l: Ledger, l': Ledger, plan: Plan)
    requires SameSpace(l0, l, plan.space) && Append(l0, l) && Inv(l) && CurrentRevision(l) == plan.expectedRevision
    requires plan.revision == plan.expectedRevision + 1 && (plan.space, plan.requestId) !in l.requests
    requires Committed(l, l', plan)
    ensures CommittedBetween(l0, l', plan)
  {
  }
}
