// Paging through an App's current root references and through its events, while
// Spaces of the App keep committing.
module AuditReads {
  import opened Prelude
  import opened Order
  import opened RootLedger

  const DEFAULT_LIMIT: nat := 200
  const MAX_LIMIT: nat := 1000

  datatype Cursor = Cursor(revision: nat, appId: bytes, spaceFilter: Option<Space>, last: Key)

  type Row = (Key, int)

  datatype RefsPage = RefsPage(revision: nat, refs: seq<Row>, nextCursor: Option<Cursor>)

  datatype EventsPage = EventsPage(events: seq<(nat, Event)>, latestRevision: nat, nextAfter: nat)

  datatype AuditError = InvalidRequest | InvalidCursor | SnapshotChanged

  function ParseLimit(value: Option<int>): Option<nat> {
    match value
    case None => Some(DEFAULT_LIMIT)
    case Some(n) => if 1 <= n <= MAX_LIMIT then Some(n) else None
  }

  // ----- keys in order -----

  predicate KeyLess(a: Key, b: Key) {
    Less(a.0, b.0) || (a.0 == b.0 && Less(a.1, b.1))
  }

  lemma KeyLessTransitive(a: Key, b: Key, c: Key)
    requires KeyLess(a, b) && KeyLess(b, c)
    ensures KeyLess(a, c)
  {
    if Less(a.0, b.0) && Less(b.0, c.0) {
      LessTransitive(a.0, b.0, c.0);
    } else if a.0 == b.0 && b.0 == c.0 {
      LessTransitive(a.1, b.1, c.1);
    }
  }

  lemma KeyLessTotal(a: Key, b: Key)
    ensures a == b || KeyLess(a, b) || KeyLess(b, a)
    ensures !KeyLess(a, a)
  {
    LessTotal(a.0, b.0);
    LessTotal(a.1, b.1);
    LessIrreflexive(a.0);
    LessIrreflexive(a.1);
  }

  predicate Matches(filter: Option<Space>, key: Key) {
    filter.Some? ==> key.0 == filter.value
  }

  // The keys a page may still contain.
  function Remaining(refs: map<Key, int>, filter: Option<Space>, after: Key): set<Key> {
    set k | k in refs && Matches(filter, k) && KeyLess(after, k)
  }

  lemma KeyLessIsStrictOrder()
    ensures StrictOrder(KeyLess)
  {
    forall a, b, c | KeyLess(a, b) && KeyLess(b, c)
      ensures KeyLess(a, c)
    {
      KeyLessTransitive(a, b, c);
    }
    forall a, b
      ensures a == b || KeyLess(a, b) || KeyLess(b, a)
    {
      KeyLessTotal(a, b);
    }
    forall a
      ensures !KeyLess(a, a)
    {
      KeyLessTotal(a, a);
    }
  }

  // `rows` are the first rows past `after`, in order; they are all of them unless `limit` stopped them.
  ghost predicate IsPage(refs: map<Key, int>, filter: Option<Space>, after: Key, limit: nat, rows: seq<Row>) {
    && |rows| <= limit
    && (forall i :: 0 <= i < |rows| ==> rows[i].0 in refs && rows[i].1 == refs[rows[i].0])
    && Ascends(after, rows)
    && (forall i :: 0 <= i < |rows| ==> Matches(filter, rows[i].0))
    && (forall k :: k in Remaining(refs, filter, after) ==> Contains(rows, k) || (|rows| > 0 && KeyLess(rows[|rows| - 1].0, k)))
    && (|rows| < limit ==> forall k :: k in Remaining(refs, filter, after) ==> Contains(rows, k))
  }

  ghost predicate Contains(rows: seq<Row>, key: Key) {
    exists i :: 0 <= i < |rows| && rows[i].0 == key
  }

  ghost predicate Ascends(after: Key, rows: seq<Row>) {
    && (forall i :: 0 <= i < |rows| ==> KeyLess(after, rows[i].0))
    && (forall i, j :: 0 <= i < j < |rows| ==> KeyLess(rows[i].0, rows[j].0))
  }

  // SELECT ... WHERE (space_id, hash) > (?, ?) ORDER BY space_id, hash LIMIT ?
  method SelectRefs(refs: map<Key, int>, filter: Option<Space>, after: Key, limit: nat) returns (rows: seq<Row>)
    requires limit > 0
    ensures IsPage(refs, filter, after, limit, rows)
  {
    rows := [];
    var last := after;
    while |rows| < limit
      invariant |rows| <= limit
      invariant last == if rows == [] then after else rows[|rows| - 1].0
      invariant forall i :: 0 <= i < |rows| ==> rows[i].0 in refs && rows[i].1 == refs[rows[i].0] && Matches(filter, rows[i].0)
      invariant Ascends(after, rows)
      invariant forall k :: k in Remaining(refs, filter, after) ==> Contains(rows, k) || KeyLess(last, k)
      decreases limit - |rows|
    {
      var keys := Remaining(refs, filter, last);
      if keys == {} {
        forall k | k in Remaining(refs, filter, after)
          ensures Contains(rows, k)
        {
          assert KeyLess(last, k) ==> k in keys;
        }
        return;
      }
      KeyLessIsStrictOrder();
      var key := Least(KeyLess, keys);
      NextRow(refs, filter, after, last, rows, key);
      rows := rows + [(key, refs[key])];
      last := key;
    }
  }

  lemma NextRow(refs: map<Key, int>, filter: Option<Space>, after: Key, last: Key, rows: seq<Row>, key: Key)
    requires last == if rows == [] then after else rows[|rows| - 1].0
    requires Ascends(after, rows) && IsLeast(KeyLess, key, Remaining(refs, filter, last))
    requires forall k :: k in Remaining(refs, filter, after) ==> Contains(rows, k) || KeyLess(last, k)
    ensures Ascends(after, rows + [(key, refs[key])])
    ensures forall k :: k in Remaining(refs, filter, after) ==> Contains(rows + [(key, refs[key])], k) || KeyLess(key, k)
  {
    var more := rows + [(key, refs[key])];
    forall i | 0 <= i < |rows|
      ensures KeyLess(rows[i].0, key)
    {
      if i < |rows| - 1 {
        KeyLessTransitive(rows[i].0, last, key);
      }
    }
    if rows != [] {
      KeyLessTransitive(after, last, key);
    }
    forall k | k in Remaining(refs, filter, after)
      ensures Contains(more, k) || KeyLess(key, k)
    {
      if Contains(rows, k) {
        var i :| 0 <= i < |rows| && rows[i].0 == k;
        assert more[i].0 == k;
      } else if k == key {
        assert more[|rows|].0 == key;
      } else {
        assert k in Remaining(refs, filter, last);
      }
    }
  }

  // ----- what a listing must show -----

  // By Space, and within a Space by hash.
  ghost predicate Precedes(a: Key, b: Key) {
    if a.0 == b.0 then Less(a.1, b.1) else Less(a.0, b.0)
  }

  // The keys asked for: all of them, or those of exactly one Space.
  ghost predicate Wanted(filter: Option<Space>, key: Key) {
    filter == None || filter == Some(key.0)
  }

  // The rows are, in order, exactly the positive balances after `revision` commits that were asked for.
  ghost predicate ListsBalances(events: map<nat, Event>, revision: nat, filter: Option<Space>, rows: seq<Row>) {
    && (forall i, j :: 0 <= i < j < |rows| ==> Precedes(rows[i].0, rows[j].0))
    && (forall i :: 0 <= i < |rows| ==>
          Wanted(filter, rows[i].0) && rows[i].1 == Balance(events, revision, rows[i].0) > 0)
    && (forall k :: Wanted(filter, k) && Balance(events, revision, k) > 0 ==> Contains(rows, k))
  }

  // A page shows rows of the projection behind the cursor, in order, as many as the limit lets it;
  // its cursor stands behind the last of them exactly when more were asked for.
  ghost predicate ShowsPage(
    refs: map<Key, int>, appId: bytes, filter: Option<Space>, cursor: Option<Cursor>, limit: nat, page: RefsPage)
  {
    && |page.refs| <= limit
    && (forall i :: 0 <= i < |page.refs| ==>
          var key := page.refs[i].0;
          && key in refs && page.refs[i].1 == refs[key] && Wanted(filter, key)
          && (cursor.Some? ==> Precedes(cursor.value.last, key)))
    && (forall i, j :: 0 <= i < j < |page.refs| ==> Precedes(page.refs[i].0, page.refs[j].0))
    && (page.nextCursor.Some? ==>
          && |page.refs| == limit && limit > 0
          && page.nextCursor == Some(Cursor(page.revision, appId, filter, page.refs[limit - 1].0))
          && exists k :: k in refs && Wanted(filter, k) && Precedes(page.refs[limit - 1].0, k))
    && (forall k :: k in refs && Wanted(filter, k) && (cursor.Some? ==> Precedes(cursor.value.last, k)) ==>
          Contains(page.refs, k) || (page.nextCursor.Some? && Precedes(page.nextCursor.value.last, k)))
  }

  /** A window holds exactly the events of its revisions that were asked for, each once, in revision order. */
  lemma {:induction false} WindowHolds(events: map<nat, Event>, from: nat, until: nat, filter: Option<Space>)
    ensures var rows := EventsBetween(events, from, until, filter);
            && (forall i, j :: 0 <= i < j < |rows| ==> rows[i].0 < rows[j].0)
            && (forall row :: row in rows <==>
                  && from < row.0 <= until && row.0 in events && row.1 == events[row.0]
                  && (filter == None || filter == Some(row.1.space)))
    decreases until
  {
    if from < until {
      WindowHolds(events, from, until - 1, filter);
    }
  }

  // The events after `from` up to `to`, each once, in revision order.
  function EventsBetween(events: map<nat, Event>, from: nat, to: nat, filter: Option<Space>): seq<(nat, Event)> {
    if to <= from then []
    else
      EventsBetween(events, from, to - 1, filter)
      + if to in events && (filter.Some? ==> events[to].space == filter.value) then [(to, events[to])] else []
  }

  /** Consecutive windows put together are the whole window. */
  lemma {:induction false} WindowsJoin(events: map<nat, Event>, a: nat, b: nat, c: nat, filter: Option<Space>)
    requires a <= b <= c
    ensures EventsBetween(events, a, b, filter) + EventsBetween(events, b, c, filter) == EventsBetween(events, a, c, filter)
  {
    if b < c {
      WindowsJoin(events, a, b, c - 1, filter);
    }
  }

  lemma {:induction false} WindowIsStable(l: Ledger, l': Ledger, from: nat, to: nat, filter: Option<Space>)
    requires Inv(l) && Append(l, l') && to <= CurrentRevision(l)
    ensures EventsBetween(l'.events, from, to, filter) == EventsBetween(l.events, from, to, filter)
  {
    if from < to {
      WindowIsStable(l, l', from, to - 1, filter);
    }
  }

  /** Appending never changes what the balances were at an earlier revision. */
  lemma {:induction false} BalanceIsStable(l: Ledger, l': Ledger, revision: nat, key: Key)
    requires Inv(l) && Append(l, l') && revision <= CurrentRevision(l)
    ensures Balance(l'.events, revision, key) == Balance(l.events, revision, key)
  {
    if revision > 0 {
      BalanceIsStable(l, l', revision - 1, key);
      assert revision in l.events;
    }
  }

  // At the current revision the projection rows are the positive balances.
  lemma RefsAreBalances(l: Ledger, key: Key)
    requires Inv(l)
    ensures key in l.refs <==> Balance(l.events, CurrentRevision(l), key) > 0
    ensures key in l.refs ==> l.refs[key] == Balance(l.events, CurrentRevision(l), key) && |key.1| == 32
  {
    assert Balance(l.events, CurrentRevision(l), key) == CountOf(l, key);
  }

  // While the revision stands still, so does the projection.
  lemma SameRevisionSameRefs(l: Ledger, l': Ledger)
    requires Inv(l) && Inv(l') && Append(l, l') && CurrentRevision(l) == CurrentRevision(l')
    ensures l.refs == l'.refs
  {
    forall k
      ensures k in l.refs <==> k in l'.refs
      ensures k in l.refs ==> l.refs[k] == l'.refs[k]
    {
      RefsAreBalances(l, k);
      RefsAreBalances(l', k);
      BalanceIsStable(l, l', CurrentRevision(l), k);
    }
  }

  predicate Resumes(cursor: Cursor, appId: bytes, filter: Option<Space>) {
    cursor.appId == appId && cursor.spaceFilter == filter
  }

  // The first page starts before every key.
  const START: Key := ([], [])

  lemma StartIsBeforeAll(l: Ledger, filter: Option<Space>)
    requires Inv(l)
    ensures Remaining(l.refs, filter, START) == set k | k in l.refs && Matches(filter, k)
  {
    forall k | k in l.refs
      ensures KeyLess(START, k)
    {
      RefsAreBalances(l, k);
    }
  }

  // ----- the reader -----

  // The steps that could happen, in turn.
  function Advanced(l: Ledger, steps: seq<Step>): Ledger {
    if steps == [] then l
    else
      var before := Advanced(l, steps[..|steps| - 1]);
      if Enabled(before, steps[|steps| - 1]) then Apply(before, steps[|steps| - 1]) else before
  }

  class AuditReader {
    const appId: bytes
    const schedule: nat -> seq<Step>
    var clock: nat
    var ledger: Ledger

    ghost predicate Valid()
      reads this
    {
      Inv(ledger)
    }

    constructor (appId: bytes, schedule: nat -> seq<Step>, ledger: Ledger)
      requires Inv(ledger)
      ensures Valid() && this.ledger == ledger && this.schedule == schedule && this.appId == appId
    {
      this.appId, this.schedule, this.clock, this.ledger := appId, schedule, 0, ledger;
    }

    // Between any two reads any Space may commit.
    method Tick()
      requires Valid()
      modifies this
      ensures Valid() && Append(old(ledger), ledger)
      ensures clock == old(clock) + 1 && ledger == Advanced(old(ledger), schedule(old(clock)))
      ensures Quiet() ==> ledger == old(ledger)
    {
      hide Inv, Enabled, Apply;
      var steps := schedule(clock);
      clock := clock + 1;
      for i := 0 to |steps|
        invariant Valid() && Append(old(ledger), ledger)
        invariant clock == old(clock) + 1 && ledger == Advanced(old(ledger), steps[..i])
      {
        assert steps[..i + 1][..i] == steps[..i];
        if Enabled(ledger, steps[i]) {
          StepKeepsInv(ledger, steps[i]);
          StepAppends(ledger, steps[i]);
          ledger := Apply(ledger, steps[i]);
        }
      }
      assert steps[..|steps|] == steps;
    }

    // Nobody commits while the reader reads.
    ghost predicate Quiet() {
      forall n :: schedule(n) == []
    }

    // One attempt at a page; None is to try again.
    method ReadPage(filter: Option<Space>, limit: nat, cursor: Option<Cursor>) returns (r: Option<Result<RefsPage, AuditError>>)
      requires Valid() && limit > 0
      modifies this
      ensures Valid() && Append(old(ledger), ledger)
      ensures r.None? ==> cursor.None?
      ensures r.Some? && r.value.Err? ==> cursor.Some? && r.value.error == SnapshotChanged
      ensures r.Some? && r.value.Ok? ==> PageAt(old(ledger), ledger, appId, filter, cursor, limit, r.value.value)
      ensures Quiet() && (cursor.Some? ==> cursor.value.revision == CurrentRevision(old(ledger))) ==>
                r.Some? && r.value.Ok?
      ensures Quiet() ==> ledger == old(ledger)
    {
      hide Inv, IsPage, Advanced;
      var after := if cursor.Some? then cursor.value.last else START;
      Tick();
      var revision := CurrentRevision(ledger);
      if cursor.Some? && cursor.value.revision != revision {
        return Some(Err(SnapshotChanged));
      }
      Tick();
      var rows := SelectRefs(ledger.refs, filter, after, limit + 1);
      ghost var queried := ledger;
      Tick();
      if CurrentRevision(ledger) != revision {
        return if cursor.Some? then Some(Err(SnapshotChanged)) else None;
      }
      var refs := if |rows| > limit then rows[..limit] else rows;
      var next := if |rows| > limit && refs != [] then Some(Cursor(revision, appId, filter, refs[|refs| - 1].0)) else None;
      SameRevisionSameRefs(queried, ledger);
      r := Some(Ok(RefsPage(revision, refs, next)));
    }

    /**
     * One page of the current references. It is the next page of the balances at its revision, and it
     * continues a cursor only at the cursor's revision.
     */
    method ListAppRootRefs(filter: Option<Space>, limitArgument: Option<int>, cursor: Option<Cursor>)
      returns (r: Result<RefsPage, AuditError>)
      requires Valid()
      modifies this
      ensures Valid() && Append(old(ledger), ledger)
      ensures r == Err(InvalidRequest) <==> limitArgument.Some? && !(1 <= limitArgument.value <= 1000)
      ensures r == Err(InvalidCursor) <==>
                && (limitArgument.Some? ==> 1 <= limitArgument.value <= 1000)
                && cursor.Some? && (cursor.value.appId != appId || cursor.value.spaceFilter != filter)
      ensures r.Ok? ==>
                && ShowsPage(ledger.refs, appId, filter, cursor, if limitArgument.Some? then limitArgument.value else 200, r.value)
                && CurrentRevision(old(ledger)) <= r.value.revision == CurrentRevision(ledger)
                && (cursor.Some? ==> cursor.value.revision == r.value.revision)
      ensures r.Ok? ==> PageAt(old(ledger), ledger, appId, filter, cursor, ParseLimit(limitArgument).GetOr(0), r.value)
      ensures Quiet() && ParseLimit(limitArgument).Some?
              && (cursor.Some? ==>
                    Resumes(cursor.value, appId, filter) && cursor.value.revision == CurrentRevision(old(ledger)))
              ==> r.Ok?
      ensures Quiet() ==> ledger == old(ledger)
    {
      hide Inv, PageAt, Append, Advanced, ShowsPage;
      AppendReflexive(ledger);
      var limit := ParseLimit(limitArgument);
      if limit.None? {
        return Err(InvalidRequest);
      }
      if cursor.Some? && !Resumes(cursor.value, appId, filter) {
        return Err(InvalidCursor);
      }
      for attempt := 0 to 4
        invariant Valid() && Append(old(ledger), ledger)
        invariant attempt > 0 ==> cursor.None?
        invariant Quiet() ==> attempt == 0 && ledger == old(ledger)
      {
        ghost var before := ledger;
        var page := ReadPage(filter, limit.value, cursor);
        AppendMany(old(ledger), before, before, ledger);
        if page.Some? {
          if page.value.Ok? {
            PageStays(old(ledger), before, ledger, appId, filter, cursor, limit.value, page.value.value);
            PageShows(before, ledger, appId, filter, cursor, limit.value, page.value.value);
          }
          return page.value;
        }
      }
      r := Err(SnapshotChanged);
    }

    /** Following the cursors to the end yields the ordered balances at one revision, or fails. */
    method FollowRefs(filter: Option<Space>, limit: Option<int>) returns (r: Result<(nat, seq<Row>), AuditError>)
      requires Valid()
      modifies this
      ensures Valid() && Append(old(ledger), ledger)
      ensures r.Ok? ==>
                && CurrentRevision(old(ledger)) <= r.value.0 <= CurrentRevision(ledger)
                && ListsBalances(ledger.events, r.value.0, filter, r.value.1)
      ensures Quiet() && ParseLimit(limit).Some? ==> r.Ok? && ledger == old(ledger)
    {
      hide Inv, Append, PageAt, Collected, ListsBalances, Remaining, Advanced;
      var page := ListAppRootRefs(filter, limit, None);
      if page.Err? {
        return Err(page.error);
      }
      ghost var at := ledger;
      var revision, rows, cursor := page.value.revision, page.value.refs, page.value.nextCursor;
      FirstPage(old(ledger), at, appId, filter, ParseLimit(limit).GetOr(0), page.value);
      AppendReflexive(ledger);
      while cursor.Some?
        invariant Valid() && Append(old(ledger), ledger) && Append(at, ledger)
        invariant Inv(at) && CurrentRevision(old(ledger)) <= CurrentRevision(at) == revision <= CurrentRevision(ledger)
        invariant Collected(at.refs, appId, filter, revision, rows, cursor)
        invariant Quiet() ==> ledger == at == old(ledger)
        decreases cursor.Some?, |Remaining(at.refs, filter, LastKey(rows))|
      {
        ghost var before, done := ledger, rows;
        CursorResumes(at.refs, appId, filter, revision, rows, cursor);
        page := ListAppRootRefs(filter, limit, cursor);
        AppendMany(old(ledger), at, before, ledger);
        if page.Err? {
          return Err(page.error);
        }
        NextPage(at, before, ledger, appId, filter, revision, rows, cursor.value, ParseLimit(limit).GetOr(0), page.value);
        rows, cursor := rows + page.value.refs, page.value.nextCursor;
      }
      CollectedAll(at, ledger, appId, filter, rows);
      r := Ok((revision, rows));
    }

    // SELECT ... WHERE revision > ? AND revision <= ? ORDER BY revision LIMIT ?
    method SelectEvents(from: nat, until: nat, filter: Option<Space>, limit: nat) returns (rows: seq<(nat, Event)>, end: nat)
      requires Valid() && until <= CurrentRevision(ledger) && limit > 0
      ensures from <= end && (end <= until || rows == []) && |rows| <= limit
      ensures rows == EventsBetween(ledger.events, from, end, filter)
      ensures |rows| == limit ==> rows[limit - 1].0 == end && end > from
      ensures |rows| < limit ==> end == Max(from, until)
    {
      hide Inv;
      rows, end := [], from;
      while end < until && |rows| < limit
        invariant from <= end && (end <= until || (end == from && rows == [])) && |rows| <= limit
        invariant rows == EventsBetween(ledger.events, from, end, filter)
        invariant |rows| == limit ==> rows[limit - 1].0 == end && end > from
        decreases until - end
      {
        end := end + 1;
        if end in ledger.events && (filter.Some? ==> ledger.events[end].space == filter.value) {
          rows := rows + [(end, ledger.events[end])];
        }
      }
    }

    /** One page of events: everything between `after` and the returned position, once and in order. */
    method ListAppRootEvents(filter: Option<Space>, after: Option<int>, limitArgument: Option<int>)
      returns (r: Result<EventsPage, AuditError>)
      requires Valid()
      modifies this
      ensures Valid() && Append(old(ledger), ledger)
      ensures r.Ok? <==>
                (limitArgument.Some? ==> 1 <= limitArgument.value <= 1000) && 0 <= after.GetOr(0) <= MAX_SAFE_INTEGER
      ensures r.Ok? ==>
                && after.GetOr(0) <= r.value.nextAfter <= Max(after.GetOr(0), CurrentRevision(ledger))
                && r.value.events == EventsBetween(ledger.events, after.GetOr(0), r.value.nextAfter, filter)
                && |r.value.events| <= (if limitArgument.Some? then limitArgument.value else 200)
                && (after.GetOr(0) < r.value.latestRevision ==> r.value.nextAfter > after.GetOr(0))
                && CurrentRevision(old(ledger)) <= r.value.latestRevision
    {
      hide Inv, Append, Advanced;
      var limit := ParseLimit(limitArgument);
      if limit.None? || after.GetOr(0) < 0 || after.GetOr(0) > MAX_SAFE_INTEGER {
        AppendReflexive(ledger);
        return Err(InvalidRequest);
      }
      var from: nat := after.GetOr(0);
      Tick();
      ghost var first := ledger;
      var latestRevision := CurrentRevision(ledger);
      Tick();
      AppendMany(old(ledger), first, first, ledger);
      var rows, end := SelectEvents(from, latestRevision, filter, limit.value + 1);
      if |rows| > limit.value {
        var events := rows[..limit.value];
        CutWindow(ledger.events, from, end, filter, limit.value);
        r := Ok(EventsPage(events, latestRevision, events[|events| - 1].0));
      } else {
        r := Ok(EventsPage(rows, latestRevision, Max(from, latestRevision)));
      }
    }

    /**
     * A consumer that follows `nextAfter` for any number of pages sees every event once, in order, and
     * comes at least one revision further with every page until it has caught up.
     */
    method FollowEvents(filter: Option<Space>, limit: Option<int>, pages: nat)
      returns (seen: seq<(nat, Event)>, after: nat)
      requires Valid() && ParseLimit(limit).Some?
      modifies this
      ensures Valid() && Append(old(ledger), ledger)
      ensures after <= CurrentRevision(ledger) && seen == EventsBetween(ledger.events, 0, after, filter)
      ensures after >= Min(pages, Min(CurrentRevision(old(ledger)), MAX_SAFE_INTEGER))
    {
      hide Inv, Append, Advanced;
      seen, after := [], 0;
      AppendReflexive(ledger);
      for i := 0 to pages
        invariant Valid() && Append(old(ledger), ledger)
        invariant after <= CurrentRevision(ledger) && seen == EventsBetween(ledger.events, 0, after, filter)
        invariant after >= Min(i, Min(CurrentRevision(old(ledger)), MAX_SAFE_INTEGER))
      {
        ghost var before := ledger;
        var page := ListAppRootEvents(filter, Some(after), limit);
        AppendMany(old(ledger), before, before, ledger);
        WindowIsStable(before, ledger, 0, after, filter);
        if page.Err? {
          return;
        }
        WindowsJoin(ledger.events, 0, after, page.value.nextAfter, filter);
        seen, after := seen + page.value.events, page.value.nextAfter;
      }
    }
  }

  lemma AppendReflexive(l: Ledger)
    ensures Append(l, l)
  {
  }

  lemma AppendMany(a: Ledger, b: Ledger, c: Ledger, d: Ledger)
    requires Append(a, c) && Append(b, c) && Append(c, d)
    ensures Append(a, d) && Append(b, d)
    ensures CurrentRevision(a) <= CurrentRevision(c) <= CurrentRevision(d)
  {
  }

  // The first rows of a window are the window up to the last of them.
  lemma {:induction false} CutWindow(events: map<nat, Event>, from: nat, until: nat, filter: Option<Space>, n: nat)
    requires 0 < n < |EventsBetween(events, from, until, filter)|
    ensures var rows := EventsBetween(events, from, until, filter);
            var end := rows[n - 1].0;
            from < end < until && rows[..n] == EventsBetween(events, from, end, filter)
    decreases until
  {
    var front := EventsBetween(events, from, until - 1, filter);
    var rows := EventsBetween(events, from, until, filter);
    assert |rows| <= |front| + 1;
    if n < |front| {
      CutWindow(events, from, until - 1, filter, n);
      assert rows[..n] == front[..n];
    } else {
      assert rows[..n] == front;
      LastOfWindow(events, from, until - 1, filter);
    }
  }

  lemma {:induction false} LastOfWindow(events: map<nat, Event>, from: nat, until: nat, filter: Option<Space>)
    requires EventsBetween(events, from, until, filter) != []
    ensures var rows := EventsBetween(events, from, until, filter);
            var end := rows[|rows| - 1].0;
            from < end <= until && rows == EventsBetween(events, from, end, filter)
    decreases until
  {
    var front := EventsBetween(events, from, until - 1, filter);
    if EventsBetween(events, from, until, filter) == front {
      LastOfWindow(events, from, until - 1, filter);
    }
  }

  function LastKey(rows: seq<Row>): Key {
    if rows == [] then START else rows[|rows| - 1].0
  }

  // The rows collected from the pages so far, and where the next page starts.
  ghost predicate Collected(
    refs: map<Key, int>, appId: bytes, filter: Option<Space>, revision: nat, rows: seq<Row>, cursor: Option<Cursor>)
  {
    && Ascends(START, rows)
    && (forall i :: 0 <= i < |rows| ==> rows[i].0 in refs && rows[i].1 == refs[rows[i].0] && Matches(filter, rows[i].0))
    && (cursor.Some? ==> rows != [] && cursor.value == Cursor(revision, appId, filter, rows[|rows| - 1].0))
    && (forall k :: k in Remaining(refs, filter, START) ==>
          Contains(rows, k) || (cursor.Some? && KeyLess(rows[|rows| - 1].0, k)))
  }

  lemma FirstPage(before: Ledger, l: Ledger, appId: bytes, filter: Option<Space>, limit: nat, page: RefsPage)
    requires PageAt(before, l, appId, filter, None, limit, page) && limit > 0
    ensures Collected(l.refs, appId, filter, page.revision, page.refs, page.nextCursor)
    ensures CurrentRevision(before) <= page.revision == CurrentRevision(l)
  {
    var rows :| IsPage(l.refs, filter, START, limit + 1, rows)
                && page.refs == (if |rows| > limit then rows[..limit] else rows)
                && page.nextCursor == if |rows| > limit && page.refs != []
                                      then Some(Cursor(page.revision, appId, filter, page.refs[|page.refs| - 1].0)) else None;
    PageParts(l.refs, filter, START, limit, rows, page.refs);
  }

  // The next page continues the same projection right behind the rows so far.
  lemma NextPage(
    at: Ledger, before: Ledger, l: Ledger, appId: bytes, filter: Option<Space>, revision: nat, done: seq<Row>,
    cursor: Cursor, limit: nat, page: RefsPage)
    requires Inv(at) && Inv(l) && Append(at, l) && CurrentRevision(at) == revision && limit > 0
    requires Collected(at.refs, appId, filter, revision, done, Some(cursor))
    requires PageAt(before, l, appId, filter, Some(cursor), limit, page)
    ensures Collected(at.refs, appId, filter, revision, done + page.refs, page.nextCursor)
    ensures page.nextCursor.Some? ==>
              |Remaining(at.refs, filter, LastKey(done + page.refs))| < |Remaining(at.refs, filter, LastKey(done))|
  {
    hide Inv, Append, IsPage, Remaining, Contains, KeyLess, Ascends;
    SameRevisionSameRefs(at, l);
    var rows :| IsPage(l.refs, filter, cursor.last, limit + 1, rows)
                && page.refs == (if |rows| > limit then rows[..limit] else rows)
                && page.nextCursor == if |rows| > limit && page.refs != []
                                      then Some(Cursor(page.revision, appId, filter, page.refs[|page.refs| - 1].0)) else None;
    PageParts(l.refs, filter, cursor.last, limit, rows, page.refs);
    JoinPages(at.refs, filter, done, page.refs, |rows| > limit);
    if page.nextCursor.Some? {
      RemainingShrinks(at.refs, filter, cursor.last, page.refs);
    }
  }

  lemma JoinPages(refs: map<Key, int>, filter: Option<Space>, done: seq<Row>, next: seq<Row>, more: bool)
    requires done != [] && Ascends(START, done) && Ascends(done[|done| - 1].0, next) && (more ==> next != [])
    requires forall k :: k in Remaining(refs, filter, START) ==> Contains(done, k) || KeyLess(done[|done| - 1].0, k)
    requires forall k :: k in Remaining(refs, filter, done[|done| - 1].0) ==>
               Contains(next, k) || (more && KeyLess(next[|next| - 1].0, k))
    ensures Ascends(START, done + next)
    ensures forall k :: k in Remaining(refs, filter, START) ==>
              Contains(done + next, k) || (more && KeyLess((done + next)[|done + next| - 1].0, k))
  {
    var last, all := done[|done| - 1].0, done + next;
    forall i, j | 0 <= i < j < |all|
      ensures KeyLess(all[i].0, all[j].0)
    {
      if i < |done| <= j && i < |done| - 1 {
        KeyLessTransitive(all[i].0, last, all[j].0);
      }
    }
    forall j | 0 <= j < |all|
      ensures KeyLess(START, all[j].0)
    {
      if j >= |done| {
        KeyLessTransitive(START, last, all[j].0);
      }
    }
    forall k | k in Remaining(refs, filter, START)
      ensures Contains(all, k) || (more && KeyLess(all[|all| - 1].0, k))
    {
      if Contains(done, k) {
        var i :| 0 <= i < |done| && done[i].0 == k;
        assert all[i].0 == k;
      } else {
        assert k in Remaining(refs, filter, last);
        if Contains(next, k) {
          var i :| 0 <= i < |next| && next[i].0 == k;
          assert all[|done| + i].0 == k;
        }
      }
    }
  }

  lemma RemainingShrinks(refs: map<Key, int>, filter: Option<Space>, after: Key, next: seq<Row>)
    requires next != [] && Ascends(after, next) && next[0].0 in refs && Matches(filter, next[0].0)
    ensures |Remaining(refs, filter, next[|next| - 1].0)| < |Remaining(refs, filter, after)|
  {
    var last := next[|next| - 1].0;
    var small, large := Remaining(refs, filter, last), Remaining(refs, filter, after);
    forall k | k in small
      ensures k in large
    {
      KeyLessTransitive(after, last, k);
    }
    assert next[0].0 in large;
    KeyLessTotal(next[0].0, last);
    KeyLessTotal(last, last);
    if next[0].0 in small {
      KeyLessTransitive(last, next[0].0, last);
      assert false;
    }
    SmallerSet(small, large);
  }

  /** When no cursor is left, the rows are the whole listing at their revision. */
  lemma CollectedAll(at: Ledger, l: Ledger, appId: bytes, filter: Option<Space>, rows: seq<Row>)
    requires Inv(at) && Append(at, l)
    requires Collected(at.refs, appId, filter, CurrentRevision(at), rows, None)
    ensures ListsBalances(l.events, CurrentRevision(at), filter, rows)
  {
    hide Inv, Append;
    StartIsBeforeAll(at, filter);
    forall a, b
      ensures Precedes(a, b) <==> KeyLess(a, b)
    {
      PrecedesIsKeyLess(a, b);
    }
    forall k
      ensures k in at.refs <==> Balance(l.events, CurrentRevision(at), k) > 0
      ensures k in at.refs ==> at.refs[k] == Balance(l.events, CurrentRevision(at), k)
    {
      RefsAreBalances(at, k);
      BalanceIsStable(at, l, CurrentRevision(at), k);
    }
  }

  lemma CursorResumes(
    refs: map<Key, int>, appId: bytes, filter: Option<Space>, revision: nat, rows: seq<Row>, cursor: Option<Cursor>)
    requires Collected(refs, appId, filter, revision, rows, cursor)
    ensures cursor.Some? ==> Resumes(cursor.value, appId, filter) && cursor.value.revision == revision
  {
  }

  lemma PageStays(
    first: Ledger, before: Ledger, l: Ledger, appId: bytes, filter: Option<Space>, cursor: Option<Cursor>, limit: nat,
    page: RefsPage)
    requires Append(first, before) && PageAt(before, l, appId, filter, cursor, limit, page)
    ensures PageAt(first, l, appId, filter, cursor, limit, page)
  {
    hide IsPage;
  }

  lemma PageShows(
    before: Ledger, l: Ledger, appId: bytes, filter: Option<Space>, cursor: Option<Cursor>, limit: nat, page: RefsPage)
    requires Inv(l) && PageAt(before, l, appId, filter, cursor, limit, page) && limit > 0
    ensures ShowsPage(l.refs, appId, filter, cursor, limit, page)
    ensures CurrentRevision(before) <= page.revision == CurrentRevision(l)
    ensures cursor.Some? ==> cursor.value.revision == page.revision
  {
    hide Inv, IsPage, ShowsPage, Remaining;
    var after := if cursor.Some? then cursor.value.last else START;
    var rows: seq<Row> :| IsPage(l.refs, filter, after, limit + 1, rows)
                && page.refs == (if |rows| > limit then rows[..limit] else rows)
                && page.nextCursor == if |rows| > limit && page.refs != []
                                      then Some(Cursor(page.revision, appId, filter, page.refs[|page.refs| - 1].0)) else None;
    StartIsBeforeAll(l, filter);
    forall k | k in l.refs && Wanted(filter, k) && (cursor.Some? ==> Precedes(cursor.value.last, k))
      ensures k in Remaining(l.refs, filter, after)
    {
      WantedRemains(l.refs, filter, after, k);
    }
    PageParts(l.refs, filter, after, limit, rows, page.refs);
    CutShows(l.refs, appId, filter, cursor, after, limit, rows, page);
  }

  lemma WantedRemains(refs: map<Key, int>, filter: Option<Space>, after: Key, k: Key)
    requires k in refs && Wanted(filter, k)
    ensures Precedes(after, k) ==> k in Remaining(refs, filter, after)
    ensures k in set x | x in refs && Matches(filter, x)
  {
    PrecedesIsKeyLess(after, k);
  }

  lemma CutShows(
    refs: map<Key, int>, appId: bytes, filter: Option<Space>, cursor: Option<Cursor>, after: Key, limit: nat,
    rows: seq<Row>, page: RefsPage)
    requires limit > 0 && after == if cursor.Some? then cursor.value.last else START
    requires IsPage(refs, filter, after, limit + 1, rows)
    requires page.refs == (if |rows| > limit then rows[..limit] else rows)
    requires page.nextCursor == if |rows| > limit && page.refs != []
                                then Some(Cursor(page.revision, appId, filter, page.refs[|page.refs| - 1].0)) else None
    requires forall k :: k in refs && Wanted(filter, k) && (cursor.Some? ==> Precedes(cursor.value.last, k)) ==>
               k in Remaining(refs, filter, after)
    requires forall k :: k in Remaining(refs, filter, after) ==>
               Contains(page.refs, k) || (|rows| > limit && KeyLess(page.refs[|page.refs| - 1].0, k))
    ensures ShowsPage(refs, appId, filter, cursor, limit, page)
  {
    hide KeyLess, Precedes, Contains, Remaining;
    forall a, b
      ensures Precedes(a, b) <==> KeyLess(a, b)
    {
      PrecedesIsKeyLess(a, b);
    }
    if page.nextCursor.Some? {
      assert KeyLess(rows[limit - 1].0, rows[limit].0) && rows[limit].0 in refs;
    }
  }

  lemma PrecedesIsKeyLess(a: Key, b: Key)
    ensures Precedes(a, b) <==> KeyLess(a, b)
  {
    LessIrreflexive(a.0);
  }

  // What a cut page keeps and what it leaves to the next.
  lemma PageParts(refs: map<Key, int>, filter: Option<Space>, after: Key, limit: nat, rows: seq<Row>, cut: seq<Row>)
    requires IsPage(refs, filter, after, limit + 1, rows) && cut == (if |rows| > limit then rows[..limit] else rows)
    requires limit > 0
    ensures Ascends(after, cut)
    ensures forall i :: 0 <= i < |cut| ==> cut[i].0 in refs && cut[i].1 == refs[cut[i].0] && Matches(filter, cut[i].0)
    ensures |rows| > limit ==> cut != []
    ensures forall k :: k in Remaining(refs, filter, after) ==>
              Contains(cut, k) || (|rows| > limit && KeyLess(cut[|cut| - 1].0, k))
  {
    forall k | k in Remaining(refs, filter, after)
      ensures Contains(cut, k) || (|rows| > limit && KeyLess(cut[|cut| - 1].0, k))
    {
      if Contains(rows, k) {
        var i :| 0 <= i < |rows| && rows[i].0 == k;
        if i < |cut| {
          assert cut[i].0 == k;
        } else {
          assert KeyLess(rows[limit - 1].0, rows[i].0);
        }
      } else if |rows| > limit {
        KeyLessTransitive(rows[limit - 1].0, rows[|rows| - 1].0, k);
      }
    }
  }

  // The page is cut out of the projection as it stood at the page's revision.
  ghost predicate PageAt(
    before: Ledger, l: Ledger, appId: bytes, filter: Option<Space>, cursor: Option<Cursor>, limit: nat, page: RefsPage)
  {
    && CurrentRevision(before) <= page.revision == CurrentRevision(l)
    && (cursor.Some? ==> cursor.value.revision == page.revision)
    && |page.refs| <= limit
    && (exists rows ::
          && IsPage(l.refs, filter, if cursor.Some? then cursor.value.last else START, limit + 1, rows)
          && page.refs == (if |rows| > limit then rows[..limit] else rows)
          && page.nextCursor == if |rows| > limit && page.refs != []
                                then Some(Cursor(page.revision, appId, filter, page.refs[|page.refs| - 1].0)) else None)
  }
}
