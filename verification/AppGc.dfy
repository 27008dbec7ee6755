// The administrative sweep over an App's Spaces: pages of usage-bearing Spaces in
// key order, each Space collected within a node budget through replies that are
// checked before they are counted.
module AppGc {
  import opened Prelude
  import opened Order
  import SpaceStore
  import SpaceActor
  import SpaceInvariant
  import SpaceTheorems

  type Space = bytes

  // What a Space actor answered: anything at all, or nothing because the request threw.
  datatype Reply = NoReply | HttpError | NotJson | Counts(examined: int, deleted: int, reclaimed: int)

  // `lists` says whether a listing at this time succeeds.
  datatype Turn = Turn(bearing: set<Space>, lists: bool, reply: Reply)

  datatype Cursor = Cursor(appId: bytes, lastSpaceId: Space)

  datatype Totals = Totals(examined: nat, deleted: nat, reclaimed: nat)

  datatype SweepPage = SweepPage(spaces: seq<Space>, withDeletions: nat, totals: Totals, nextCursor: Option<Cursor>)

  datatype SweepError = InvalidArgument | InvalidCursor | Unavailable | Threw

  // ----- Space pages -----

  ghost predicate AscendsFrom(after: Space, spaces: seq<Space>) {
    && (forall i :: 0 <= i < |spaces| ==> Less(after, spaces[i]))
    && (forall i, j :: 0 <= i < j < |spaces| ==> Less(spaces[i], spaces[j]))
  }

  /** Accepts exactly pages within the limit whose Spaces strictly ascend from the cursor; "" ascends from nothing. */
  method ValidateSpacePage(rows: seq<Space>, after: Space, maximumRows: nat) returns (valid: bool)
    ensures valid <==> |rows| <= maximumRows && AscendsFrom(after, rows)
  {
    if |rows| > maximumRows {
      return false;
    }
    var previous := after;
    for i := 0 to |rows|
      invariant previous == if i == 0 then after else rows[i - 1]
      invariant AscendsFrom(after, rows[..i])
    {
      if rows[i] == [] || !Less(previous, rows[i]) {
        return false;
      }
      AscendsOneMore(after, rows[..i], rows[i]);
      assert rows[..i + 1] == rows[..i] + [rows[i]];
      previous := rows[i];
    }
    assert rows[..|rows|] == rows;
    valid := true;
  }

  lemma AscendsOneMore(after: Space, spaces: seq<Space>, next: Space)
    requires AscendsFrom(after, spaces) && Less(if spaces == [] then after else spaces[|spaces| - 1], next)
    ensures AscendsFrom(after, spaces + [next])
  {
    forall i | 0 <= i < |spaces|
      ensures Less(spaces[i], next)
    {
      if i < |spaces| - 1 {
        LessTransitive(spaces[i], spaces[|spaces| - 1], next);
      }
    }
    if spaces != [] {
      LessTransitive(after, spaces[|spaces| - 1], next);
    }
  }

  function Beyond(spaces: set<Space>, after: Space): set<Space> {
    set s | s in spaces && Less(after, s)
  }

  ghost predicate Ahead(bearing: set<Space>, after: Space, s: Space) {
    s in bearing && Less(after, s)
  }

  // The first Spaces past `after`, all of them unless `limit` stopped the listing.
  ghost predicate IsSpacePage(bearing: set<Space>, after: Space, limit: nat, rows: seq<Space>) {
    && |rows| <= limit && AscendsFrom(after, rows) && (forall s :: s in rows ==> s in bearing)
    && forall s :: Ahead(bearing, after, s) ==>
         s in rows || (|rows| == limit && Less(if rows == [] then after else rows[|rows| - 1], s))
  }

  // SELECT space_id FROM cas_space_usage WHERE space_id > ? ORDER BY space_id LIMIT ?
  method ListUsageBearing(bearing: set<Space>, after: Space, limit: nat) returns (rows: seq<Space>)
    ensures IsSpacePage(bearing, after, limit, rows)
  {
    rows := [];
    var last := after;
    while |rows| < limit
      invariant |rows| <= limit && last == if rows == [] then after else rows[|rows| - 1]
      invariant AscendsFrom(after, rows) && forall s :: s in rows ==> s in bearing
      invariant forall s :: s in Beyond(bearing, after) ==> s in rows || Less(last, s)
      decreases limit - |rows|
    {
      var rest := Beyond(bearing, last);
      if rest == {} {
        forall s | s in Beyond(bearing, after)
          ensures s in rows
        {
          assert Less(last, s) ==> s in rest;
        }
        return;
      }
      LessIsStrictOrder();
      var next := Least(Less, rest);
      AscendsOneMore(after, rows, next);
      forall s | s in Beyond(bearing, after)
        ensures s in rows + [next] || Less(next, s)
      {
        assert Less(last, s) ==> s in rest;
      }
      rows := rows + [next];
      last := next;
    }
  }

  // ----- the sweep -----

  class Sweep {
    const schedule: nat -> Turn
    var clock: nat

    constructor (schedule: nat -> Turn)
      ensures this.schedule == schedule && clock == 0
    {
      this.schedule, this.clock := schedule, 0;
    }

    /**
     * Collects one Space until the budget is used up or a reply reports nothing to do. Whatever the
     * actor answers, what is counted stays within the budget, in at most one call per node of it.
     */
    method CollectSpaceGarbage(maxNodes: nat) returns (r: Result<Totals, SweepError>)
      modifies this
      ensures clock >= old(clock) && clock - old(clock) <= maxNodes
      ensures r.Ok? ==> r.value == Reported(schedule, old(clock), clock) && r.value.deleted <= r.value.examined <= maxNodes
      ensures r.Ok? && r.value.examined < maxNodes ==> clock > old(clock) && Idle(schedule(clock - 1).reply)
      ensures r.Err? ==>
                && clock > old(clock) && (r.error == if schedule(clock - 1).reply.NoReply? then Threw else Unavailable)
                && var before := Reported(schedule, old(clock), clock - 1).examined;
                   before < maxNodes && !Counted(schedule(clock - 1).reply, maxNodes - before)
    {
      var remaining := maxNodes;
      var totals := Totals(0, 0, 0);
      while remaining > 0
        invariant clock >= old(clock) && clock - old(clock) <= totals.examined
        invariant totals == Reported(schedule, old(clock), clock)
        invariant totals.deleted <= totals.examined && totals.examined + remaining == maxNodes && remaining >= 0
        decreases remaining
      {
        var reply := schedule(clock).reply;
        clock := clock + 1;
        if !Acceptable(reply, remaining) {
          return Err(CauseOf(reply));
        }
        totals := Added(totals, Totals(reply.examined, reply.deleted, reply.reclaimed));
        remaining := remaining - reply.examined;
        if reply.examined == 0 || reply.deleted == 0 {
          break;
        }
      }
      r := Ok(totals);
    }

    /** One page of the sweep: the next Spaces past the cursor, each collected once within its budget. */
    method RunAppGarbageCollection(appId: bytes, cursor: Option<Cursor>, maxSpaces: int, maxNodesPerSpace: int)
      returns (r: Result<SweepPage, SweepError>)
      modifies this
      ensures clock >= old(clock)
      ensures r == Err(InvalidArgument) <==> !LegalArguments(appId, maxSpaces, maxNodesPerSpace)
      ensures r == Err(InvalidCursor) <==>
                LegalArguments(appId, maxSpaces, maxNodesPerSpace) && cursor.Some? && cursor.value.appId != appId
      ensures r == Err(Unavailable) ==> old(clock) < clock - 1 && Refuses(schedule, old(clock) + 1, clock, maxNodesPerSpace)
      ensures r == Err(Threw) ==> old(clock) < clock && Throws(schedule(clock - 1))
      ensures !schedule(old(clock)).lists ==> r.Err? && r.error != Unavailable
      ensures r.Ok? ==>
                && old(clock) < clock && r.value.totals == Reported(schedule, old(clock) + 1, clock)
                && IsSafe(r.value.totals)
                && IsSweepPage(schedule(old(clock)).bearing, appId, cursor, maxSpaces, maxNodesPerSpace, r.value)
    {
      if maxSpaces <= 0 || maxSpaces > MAX_SAFE_INTEGER || maxNodesPerSpace <= 0 || maxNodesPerSpace > MAX_SAFE_INTEGER
         || appId == [] {
        return Err(InvalidArgument);
      }
      if cursor.Some? && cursor.value.appId != appId {
        return Err(InvalidCursor);
      }
      var after := AfterOf(cursor);
      var turn := schedule(clock);
      clock := clock + 1;
      if !turn.lists {
        return Err(Threw);
      }
      var bearing := turn.bearing;
      var rows := ListUsageBearing(bearing, after, maxSpaces + 1);
      var valid := ValidateSpacePage(rows, after, maxSpaces + 1);
      if !valid {
        return Err(Unavailable);
      }
      var spaces := if |rows| > maxSpaces then rows[..maxSpaces] else rows;
      var collected := CollectSpaces(spaces, maxNodesPerSpace);
      if collected.Err? {
        return Err(collected.error);
      }
      var next := if |rows| > maxSpaces then Some(Cursor(appId, spaces[|spaces| - 1])) else None;
      CutSpacePage(bearing, after, maxSpaces, rows, spaces);
      r := Ok(SweepPage(spaces, collected.value.0, collected.value.1, next));
    }

    // The Spaces of a page, one after the other.
    method CollectSpaces(spaces: seq<Space>, maxNodes: nat) returns (r: Result<(nat, Totals), SweepError>)
      modifies this
      ensures clock >= old(clock)
      ensures r.Ok? ==>
                && r.value.0 <= |spaces| && r.value.1.deleted <= r.value.1.examined <= |spaces| * maxNodes
                && r.value.0 <= r.value.1.deleted && (r.value.0 == 0 ==> r.value.1.deleted == 0)
                && r.value.1 == Reported(schedule, old(clock), clock) && IsSafe(r.value.1)
      ensures r.Err? ==>
                clock > old(clock)
                && if r.error == Threw then schedule(clock - 1).reply.NoReply?
                   else r.error == Unavailable && Refuses(schedule, old(clock), clock, maxNodes)
    {
      hide Acceptable, Counted, Reported, IsSafe, Overflows;
      var withDeletions, totals := 0, Totals(0, 0, 0);
      NothingReported(schedule, clock);
      SafeOrNot(totals);
      for i := 0 to |spaces|
        invariant clock >= old(clock) && withDeletions <= i && withDeletions <= totals.deleted
        invariant withDeletions == 0 ==> totals.deleted == 0
        invariant totals.deleted <= totals.examined <= i * maxNodes
        invariant totals == Reported(schedule, old(clock), clock) && IsSafe(totals)
      {
        ghost var before := clock;
        var result := CollectSpaceGarbage(maxNodes);
        if result.Err? {
          assert RefusedWithin(schedule(clock - 1).reply, maxNodes);
          return Err(result.error);
        }
        var one := result.value;
        ReportedJoins(schedule, old(clock), before, clock);
        OneMoreTurn(i, maxNodes, totals.examined, one.examined);
        totals := Added(totals, one);
        SafeOrNot(totals);
        if one.deleted > 0 {
          withDeletions := withDeletions + 1;
        }
        if Overflows(totals) {
          return Err(Unavailable);
        }
      }
      r := Ok((withDeletions, totals));
    }

    /**
     * Following the cursors to the end visits Spaces in strictly ascending order, so none twice, and
     * every Space that bears usage whenever a page is listed exactly once. Only a throw, a refused
     * reply or an overflow stops it.
     */
    method FollowSweep(appId: bytes, maxSpaces: int, maxNodesPerSpace: int, ghost universe: set<Space>)
      returns (r: Result<seq<Space>, SweepError>)
      requires forall n :: schedule(n).bearing <= universe
      modifies this
      ensures clock >= old(clock)
      ensures r.Ok? ==>
                && AscendsFrom([], r.value)
                && (forall s :: s in r.value ==> BearsOnce(schedule, old(clock), clock, s))
                && forall s :: s != [] && BearsAlways(schedule, old(clock), clock, s) ==> s in r.value
      ensures r.Err? ==>
                if LegalArguments(appId, maxSpaces, maxNodesPerSpace)
                then if r.error == Threw then clock > old(clock) && Throws(schedule(clock - 1))
                     else exists from: nat :: old(clock) < from < clock && Refuses(schedule, from, clock, maxNodesPerSpace)
                else r.error == InvalidArgument
    {
      var visited: seq<Space> := [];
      var cursor: Option<Cursor> := None;
      ghost var start := clock;
      while true
        invariant start <= clock
        invariant AscendsFrom([], visited) && (cursor.None? ==> visited == [])
        invariant cursor.Some? ==>
                    visited != [] && cursor.value == Cursor(appId, visited[|visited| - 1])
        invariant forall s :: s in visited ==> BearsOnce(schedule, start, clock, s)
        invariant forall s :: s != [] && BearsAlways(schedule, start, clock, s) ==>
                    s in visited || Less(AfterOf(cursor), s)
        decreases |Beyond(universe, AfterOf(cursor))|
      {
        ghost var before := clock;
        var page := RunAppGarbageCollection(appId, cursor, maxSpaces, maxNodesPerSpace);
        if page.Err? {
          assert page.error == Unavailable ==> Refuses(schedule, before + 1, clock, maxNodesPerSpace);
          return Err(page.error);
        }
        JoinSpaces(schedule, start, before, clock, visited, cursor, appId, maxSpaces, maxNodesPerSpace, page.value);
        if page.value.nextCursor.None? {
          return Ok(visited + page.value.spaces);
        }
        BeyondShrinks(universe, AfterOf(cursor), page.value.spaces);
        visited, cursor := visited + page.value.spaces, page.value.nextCursor;
      }
    }
  }

  function AfterOf(cursor: Option<Cursor>): Space {
    if cursor.Some? then cursor.value.lastSpaceId else []
  }

  // Some page listed between the two times could have contained the Space.
  ghost predicate BearsOnce(schedule: nat -> Turn, from: nat, until: nat, s: Space) {
    exists n: nat :: from <= n < until && s in schedule(n).bearing
  }

  ghost predicate BearsAlways(schedule: nat -> Turn, from: nat, until: nat, s: Space) {
    forall n: nat :: from <= n < until ==> s in schedule(n).bearing
  }

  ghost predicate IsSweepPage(
    bearing: set<Space>, appId: bytes, cursor: Option<Cursor>, maxSpaces: int, maxNodesPerSpace: int, page: SweepPage)
  {
    && |page.spaces| <= maxSpaces && AscendsFrom(AfterOf(cursor), page.spaces)
    && (forall s :: s in page.spaces ==> s in bearing)
    && page.withDeletions <= |page.spaces|
    && page.withDeletions <= page.totals.deleted && (page.withDeletions == 0 ==> page.totals.deleted == 0)
    && page.totals.deleted <= page.totals.examined <= |page.spaces| * maxNodesPerSpace
    && (page.nextCursor.Some? ==>
          page.spaces != [] && page.nextCursor.value == Cursor(appId, page.spaces[|page.spaces| - 1]))
    && forall s :: Ahead(bearing, AfterOf(cursor), s) ==>
         s in page.spaces || (page.nextCursor.Some? && Less(page.nextCursor.value.lastSpaceId, s))
  }

  lemma CutSpacePage(bearing: set<Space>, after: Space, limit: nat, rows: seq<Space>, cut: seq<Space>)
    requires IsSpacePage(bearing, after, limit + 1, rows) && limit > 0
    requires cut == (if |rows| > limit then rows[..limit] else rows)
    ensures |rows| > limit ==> cut != []
    ensures AscendsFrom(after, cut) && forall s :: s in cut ==> s in bearing
    ensures forall s :: Ahead(bearing, after, s) ==> s in cut || (|rows| > limit && Less(cut[|cut| - 1], s))
  {
    forall s | Ahead(bearing, after, s)
      ensures s in cut || (|rows| > limit && Less(cut[|cut| - 1], s))
    {
      if s in rows {
        var i :| 0 <= i < |rows| && rows[i] == s;
        if i < |cut| {
          assert cut[i] == s;
        } else {
          assert Less(rows[limit - 1], rows[i]);
        }
      } else {
        assert |rows| == limit + 1;
        LessTransitive(rows[limit - 1], rows[limit], s);
      }
    }
  }

  // A page continues the sweep right behind the Spaces visited so far.
  lemma JoinSpaces(
    schedule: nat -> Turn, start: nat, before: nat, after: nat, visited: seq<Space>, cursor: Option<Cursor>,
    appId: bytes, maxSpaces: int, maxNodes: int, page: SweepPage)
    requires start <= before < after
    requires AscendsFrom([], visited) && (cursor.None? ==> visited == [])
    requires cursor.Some? ==> visited != [] && cursor.value.lastSpaceId == visited[|visited| - 1]
    requires forall s :: s in visited ==> BearsOnce(schedule, start, before, s)
    requires forall s :: s != [] && BearsAlways(schedule, start, before, s) ==> s in visited || Less(AfterOf(cursor), s)
    requires IsSweepPage(schedule(before).bearing, appId, cursor, maxSpaces, maxNodes, page)
    ensures AscendsFrom([], visited + page.spaces)
    ensures forall s :: s in visited + page.spaces ==> BearsOnce(schedule, start, after, s)
    ensures forall s :: s != [] && BearsAlways(schedule, start, after, s) ==>
              s in visited + page.spaces
              || (page.nextCursor.Some? && Less(page.nextCursor.value.lastSpaceId, s))
  {
    AscendingJoin(visited, page.spaces, AfterOf(cursor));
    forall s | s in visited + page.spaces
      ensures BearsOnce(schedule, start, after, s)
    {
      if s in visited {
        var n: nat :| start <= n < before && s in schedule(n).bearing;
      } else {
        assert s in schedule(before).bearing;
      }
    }
    forall s | s != [] && BearsAlways(schedule, start, after, s)
      ensures s in visited + page.spaces || (page.nextCursor.Some? && Less(page.nextCursor.value.lastSpaceId, s))
    {
      assert BearsAlways(schedule, start, before, s);
      assert s in schedule(before).bearing;
      assert Less(AfterOf(cursor), s) ==> Ahead(schedule(before).bearing, AfterOf(cursor), s);
    }
  }

  lemma AscendingJoin(visited: seq<Space>, next: seq<Space>, after: Space)
    requires AscendsFrom([], visited) && AscendsFrom(after, next)
    requires if visited == [] then after == [] else after == visited[|visited| - 1]
    ensures AscendsFrom([], visited + next)
  {
    var all := visited + next;
    forall i, j | 0 <= i < j < |all|
      ensures Less(all[i], all[j])
    {
      if i < |visited| <= j && i < |visited| - 1 {
        LessTransitive(all[i], after, all[j]);
      }
    }
    forall j | 0 <= j < |all|
      ensures Less([], all[j])
    {
      if j >= |visited| > 0 {
        LessTransitive([], after, all[j]);
      }
    }
  }

  lemma BeyondShrinks(universe: set<Space>, after: Space, next: seq<Space>)
    requires next != [] && AscendsFrom(after, next) && next[|next| - 1] in universe
    ensures |Beyond(universe, next[|next| - 1])| < |Beyond(universe, after)|
  {
    var last := next[|next| - 1];
    LessIrreflexive(last);
    forall s | s in Beyond(universe, last)
      ensures s in Beyond(universe, after)
    {
      LessTransitive(after, last, s);
    }
    assert last in Beyond(universe, after) && last !in Beyond(universe, last);
    SmallerSet(Beyond(universe, last), Beyond(universe, after));
  }

  // The reply was refused for what was left of the budget.
  ghost predicate RefusedWithin(reply: Reply, budget: nat) {
    exists requested: nat :: requested <= budget && !Counted(reply, requested)
  }

  // The last reply was refused, or the totals since `from` are no longer safe integers.
  ghost predicate Refuses(schedule: nat -> Turn, from: nat, until: nat, budget: nat)
    requires until > 0
  {
    RefusedWithin(schedule(until - 1).reply, budget) || !IsSafe(Reported(schedule, from, until))
  }

  // A listing or a request to an actor threw.
  ghost predicate Throws(turn: Turn) {
    !turn.lists || turn.reply.NoReply?
  }

  function CauseOf(reply: Reply): SweepError {
    if reply.NoReply? then Threw else Unavailable
  }

  predicate Overflows(totals: Totals) {
    totals.examined > MAX_SAFE_INTEGER || totals.deleted > MAX_SAFE_INTEGER || totals.reclaimed > MAX_SAFE_INTEGER
  }

  // Every total is an integer a double holds exactly.
  ghost predicate IsSafe(totals: Totals) {
    totals.examined <= 9007199254740991 && totals.deleted <= 9007199254740991 && totals.reclaimed <= 9007199254740991
  }

  lemma SafeOrNot(totals: Totals)
    ensures IsSafe(totals) <==> !Overflows(totals)
    ensures IsSafe(Totals(0, 0, 0))
  {
  }

  lemma OneMoreTurn(turns: nat, budget: nat, examined: nat, more: nat)
    requires examined <= turns * budget && more <= budget
    ensures examined + more <= (turns + 1) * budget
  {
  }

  ghost predicate LegalArguments(appId: bytes, maxSpaces: int, maxNodesPerSpace: int) {
    appId != [] && 0 < maxSpaces <= 9007199254740991 && 0 < maxNodesPerSpace <= 9007199254740991
  }

  function Added(a: Totals, b: Totals): Totals {
    Totals(a.examined + b.examined, a.deleted + b.deleted, a.reclaimed + b.reclaimed)
  }

  // What the replies of an interval add up to.
  ghost function Reported(schedule: nat -> Turn, from: nat, until: nat): Totals
    decreases until
  {
    if until <= from then Totals(0, 0, 0)
    else
      var reply := schedule(until - 1).reply;
      var others := Reported(schedule, from, until - 1);
      if reply.Counts? && reply.examined >= 0 && reply.deleted >= 0 && reply.reclaimed >= 0
      then Totals(others.examined + reply.examined, others.deleted + reply.deleted, others.reclaimed + reply.reclaimed)
      else others
  }

  lemma NothingReported(schedule: nat -> Turn, at: nat)
    ensures Reported(schedule, at, at) == Totals(0, 0, 0)
  {
  }

  lemma {:induction false} ReportedJoins(schedule: nat -> Turn, from: nat, mid: nat, until: nat)
    requires from <= mid <= until
    ensures Reported(schedule, from, until) == Added(Reported(schedule, from, mid), Reported(schedule, mid, until))
  {
    if mid < until {
      ReportedJoins(schedule, from, mid, until - 1);
    }
  }

  ghost predicate Idle(reply: Reply) {
    reply.Counts? && (reply.examined == 0 || reply.deleted == 0)
  }

  // A reply that fits what is left of the budget.
  ghost predicate Counted(reply: Reply, budget: nat) {
    && reply.Counts?
    && 0 <= reply.deleted <= reply.examined && reply.examined <= budget
    && 0 <= reply.reclaimed <= 9007199254740991 && reply.examined <= 9007199254740991
  }

  // A reply the sweep counts.
  predicate Acceptable(reply: Reply, requested: nat) {
    && reply.Counts?
    && 0 <= reply.deleted <= reply.examined <= requested
    && 0 <= reply.reclaimed <= MAX_SAFE_INTEGER && reply.examined <= MAX_SAFE_INTEGER
  }

  // ----- what the sweep does to one Space -----

  ghost predicate NothingEligible(s: SpaceStore.Store, cutoff: int) {
    forall h :: !SpaceStore.Eligible(s, cutoff, h)
  }

  /** A collection pass never reports what the sweep would refuse. */
  lemma PassIsAcceptable(s: SpaceStore.Store, s': SpaceStore.Store, cutoff: int, maxNodes: nat, r: SpaceActor.GcResult)
    requires SpaceActor.PassResult(s, s', cutoff, maxNodes, r) && r.reclaimedContentBytes <= 9007199254740991
    requires maxNodes <= 9007199254740991
    ensures Counted(Counts(r.examined, r.deleted, r.reclaimedContentBytes), maxNodes)
  {
  }

  /**
   * The budget loop against a real Space actor whose requests nobody else interleaves. It deletes
   * exactly what it examines, and when it ends with budget left nothing eligible remains.
   */
  method CollectSpace(space: SpaceActor.Space, maxNodes: nat, now: nat -> int, at: nat)
    returns (r: Option<Totals>, ghost passes: nat)
    requires space.Valid()
    modifies space
    ensures space.Valid() && passes <= maxNodes
    ensures r.Some? ==>
              && r.value.deleted == r.value.examined <= maxNodes
              && |space.tables.nodes| == |old(space.tables.nodes)| - r.value.deleted
              && r.value.reclaimed
                 == SpaceActor.ContentOf(old(space.tables.nodes)) - SpaceActor.ContentOf(space.tables.nodes)
              && space.tables.nodes.Keys <= old(space.tables.nodes).Keys
    ensures space.Benign() ==> r.Some?
    ensures r.Some? && r.value.examined < maxNodes ==>
              passes > 0 && NothingEligible(space.S(), now(passes - 1))
    ensures r.Some? ==>
              && SpaceActor.Shrinks(old(space.S()), space.S())
              && forall cutoff :: NoLater(now, passes, cutoff) ==> Spares(old(space.S()), space.S(), cutoff)
  {
    hide SpaceStore.Inv, SpaceStore.Eligible, SpaceActor.Interferes, SpaceActor.PassResult, SpaceActor.OnlyExpires;
    hide SpaceActor.CleansUp, SpaceActor.ContentOf, SpaceActor.Shrinks, Spares;
    NothingSwept(space.S());
    var remaining := maxNodes;
    var totals, requests := Totals(0, 0, 0), 0;
    passes := 0;
    while remaining > 0
      invariant space.Valid() && totals.deleted == totals.examined && totals.examined + remaining == maxNodes
      invariant remaining >= 0 && passes == requests <= totals.examined
      invariant |space.tables.nodes| == |old(space.tables.nodes)| - totals.deleted
      invariant totals.reclaimed
                == SpaceActor.ContentOf(old(space.tables.nodes)) - SpaceActor.ContentOf(space.tables.nodes)
      invariant space.tables.nodes.Keys <= old(space.tables.nodes).Keys
      invariant SpaceActor.Shrinks(old(space.S()), space.S())
      invariant forall cutoff :: NoLater(now, requests, cutoff) ==> Spares(old(space.S()), space.S(), cutoff)
      decreases remaining
    {
      var time := now(requests);
      requests := requests + 1;
      passes := requests;
      ghost var before := space.S();
      var cleaned := space.CleanupExpiredUploads(time, remaining);
      ExpiryKeepsRows(before, space.S(), SpaceActor.Overdue(before, time));
      if cleaned.None? {
        return None, passes;
      }
      ghost var start := space.S();
      var pass := space.CollectExpiredUnreferencedNodes(remaining, time, at);
      if pass.None? {
        return None, passes;
      }
      PassShape(start, space.S(), time, remaining, pass.value);
      SpaceActor.ShrinksOn(before, start, space.S());
      SpaceActor.ShrinksOn(old(space.S()), before, space.S());
      forall cutoff | NoLater(now, requests, cutoff)
        ensures Spares(old(space.S()), space.S(), cutoff)
      {
        assert now(requests - 1) <= cutoff;
        PassSpares(start, space.S(), time, remaining, pass.value, cutoff);
        SparesOn(before, start, space.S(), cutoff);
        SparesOn(old(space.S()), before, space.S(), cutoff);
      }
      var result := pass.value;
      totals := Totals(totals.examined + result.examined, totals.deleted + result.deleted,
                       totals.reclaimed + result.reclaimedContentBytes);
      remaining := remaining - result.examined;
      if result.examined == 0 || result.deleted == 0 {
        forall h
          ensures !SpaceStore.Eligible(space.S(), time, h)
        {
          SpaceActor.EligibleThrough(start, space.S(), time, h);
        }
        break;
      }
    }
    r := Some(totals);
  }

  // None of the first requests was made later than this.
  ghost predicate NoLater(now: nat -> int, requests: nat, cutoff: int) {
    forall i :: 0 <= i < requests ==> now(i) <= cutoff
  }

  // Root-referenced, leased past the cutoff, or reserved past it to the end.
  ghost predicate Needed(s: SpaceStore.Store, s': SpaceStore.Store, cutoff: int, hash: Hash) {
    && hash in s.tables.nodes
    && (s.tables.nodes[hash].rootRefCount > 0 || s.tables.nodes[hash].leaseExpiresAt > cutoff
        || SpaceStore.Reserved(s', cutoff, hash))
  }

  ghost predicate Spares(s: SpaceStore.Store, s': SpaceStore.Store, cutoff: int) {
    forall h :: Needed(s, s', cutoff, h) ==> h in s'.tables.nodes
  }

  lemma NothingSwept(s: SpaceStore.Store)
    ensures SpaceActor.Shrinks(s, s) && forall cutoff :: Spares(s, s, cutoff)
  {
  }

  lemma SparesOn(a: SpaceStore.Store, b: SpaceStore.Store, c: SpaceStore.Store, cutoff: int)
    requires Spares(a, b, cutoff) && Spares(b, c, cutoff) && SpaceActor.Shrinks(a, b) && SpaceActor.Shrinks(b, c)
    ensures Spares(a, c, cutoff)
  {
    forall h | Needed(a, c, cutoff, h)
      ensures h in c.tables.nodes
    {
      assert Needed(a, b, cutoff, h);
      assert Needed(b, c, cutoff, h);
    }
  }

  // A pass spares what is needed past a cutoff no earlier than its own.
  lemma PassSpares(
    s: SpaceStore.Store, s': SpaceStore.Store, time: int, maxNodes: nat, r: SpaceActor.GcResult, cutoff: int)
    requires SpaceActor.PassResult(s, s', time, maxNodes, r) && time <= cutoff
    ensures Spares(s, s', cutoff)
  {
    hide SpaceActor.ContentOf;
    forall h | Needed(s, s', cutoff, h)
      ensures h in s'.tables.nodes
    {
      assert !SpaceStore.Eligible(s, time, h);
    }
  }

  lemma ExpiryKeepsRows(s: SpaceStore.Store, s': SpaceStore.Store, hashes: set<Hash>)
    requires SpaceActor.OnlyExpires(s, s', hashes)
    ensures s'.tables.nodes.Keys == s.tables.nodes.Keys && |s'.tables.nodes| == |s.tables.nodes|
    ensures SpaceActor.ContentOf(s'.tables.nodes) == SpaceActor.ContentOf(s.tables.nodes)
    ensures SpaceActor.Shrinks(s, s') && forall cutoff :: Spares(s, s', cutoff)
  {
    SpaceActor.SameContent(s.tables.nodes, s'.tables.nodes);
    assert |s.tables.nodes| == |s.tables.nodes.Keys| && |s'.tables.nodes| == |s'.tables.nodes.Keys|;
  }

  lemma PassShape(s: SpaceStore.Store, s': SpaceStore.Store, cutoff: int, maxNodes: nat, r: SpaceActor.GcResult)
    requires SpaceActor.PassResult(s, s', cutoff, maxNodes, r)
    ensures r.deleted == r.examined <= maxNodes && |s'.tables.nodes| == |s.tables.nodes| - r.deleted
    ensures r.reclaimedContentBytes == SpaceActor.ContentOf(s.tables.nodes) - SpaceActor.ContentOf(s'.tables.nodes)
    ensures s'.tables.nodes.Keys <= s.tables.nodes.Keys && SpaceActor.Shrinks(s, s')
    ensures r.examined == 0 ==> forall h :: !SpaceStore.Eligible(s, cutoff, h)
  {
  }

  /** So what a sweep with budget left leaves in a Space is exactly what an anchor still reaches. */
  lemma DrainedSpaceHoldsOnlyAnchoredNodes(space: SpaceActor.Space, cutoff: int, hash: Hash)
    requires space.Valid() && NothingEligible(space.S(), cutoff)
    ensures hash in space.tables.nodes <==>
            exists path :: SpaceTheorems.IsPath(space.edges, path) && path[|path| - 1] == hash
                           && SpaceTheorems.Anchored(space.W(), cutoff, path[0])
  {
    hide SpaceStore.Inv, SpaceStore.Eligible, SpaceTheorems.IsPath, SpaceTheorems.Anchored;
    SpaceTheorems.CollectionIsComplete(space.digest, space.W(), cutoff, hash);
  }

  // ----- sweeping until nothing is left to take -----

  // A path of the Space as it was leads to the node from one that was needed and stays so.
  ghost predicate Needs(s: SpaceStore.Store, s': SpaceStore.Store, cutoff: int, hash: Hash) {
    exists path :: SpaceTheorems.IsPath(s.edges, path) && path[|path| - 1] == hash && Needed(s, s', cutoff, path[0])
  }

  // Clocks of successive sweeps, by sweep and request, never run backwards.
  ghost predicate Forwards(now: nat -> nat -> int) {
    && (forall k, m, n :: 0 <= m <= n ==> now(k)(m) <= now(k)(n))
    && forall j, k, m, n :: 0 <= j < k ==> now(j)(m) <= now(k)(n)
  }

  ghost predicate Past(now: nat -> nat -> int, sweeps: nat, cutoff: int) {
    forall k, n :: 0 <= k < sweeps ==> now(k)(n) <= cutoff
  }

  /**
   * Repeated sweeps of an undisturbed Space come to an end whatever their budget: all but the last
   * take a whole budget of rows. What is left then is exactly what a path of the Space as it was
   * reaches from a node that was root-referenced or leased, or that is still reserved.
   */
  method SweepUntilDrained(space: SpaceActor.Space, maxNodes: nat, now: nat -> nat -> int, at: nat)
    returns (sweeps: nat, ghost cutoff: int)
    requires space.Valid() && space.Benign() && maxNodes > 0 && Forwards(now)
    modifies space
    ensures space.Valid() && sweeps > 0 && NothingEligible(space.S(), cutoff)
    ensures (sweeps - 1) * maxNodes + |space.tables.nodes| <= |old(space.tables.nodes)|
    ensures forall h :: h in space.tables.nodes <==> Needs(old(space.S()), space.S(), cutoff, h)
  {
    hide SpaceStore.Inv, SpaceStore.Eligible, SpaceActor.Shrinks, Spares, Needs, NothingEligible, SpaceActor.ContentOf;
    hide SpaceActor.Space.Valid;
    NothingSwept(space.S());
    sweeps, cutoff := 0, 0;
    var drained := false;
    while !drained
      invariant space.Valid() && SpaceActor.Shrinks(old(space.S()), space.S())
      invariant !drained ==> forall c :: Past(now, sweeps, c) ==> Spares(old(space.S()), space.S(), c)
      invariant !drained ==> sweeps * maxNodes + |space.tables.nodes| <= |old(space.tables.nodes)|
      invariant drained ==> sweeps > 0 && NothingEligible(space.S(), cutoff) && Spares(old(space.S()), space.S(), cutoff)
      invariant drained ==> (sweeps - 1) * maxNodes + |space.tables.nodes| <= |old(space.tables.nodes)|
      decreases if drained then 0 else 1, |space.tables.nodes|
    {
      ghost var before := space.S();
      ghost var passes;
      var totals;
      totals, passes := CollectSpace(space, maxNodes, now(sweeps), at);
      SpaceActor.ShrinksOn(old(space.S()), before, space.S());
      if totals.value.examined < maxNodes {
        drained, cutoff := true, now(sweeps)(passes - 1);
        assert Past(now, sweeps, cutoff) && NoLater(now(sweeps), passes, cutoff);
        SparesOn(old(space.S()), before, space.S(), cutoff);
      } else {
        forall c | Past(now, sweeps + 1, c)
          ensures Spares(old(space.S()), space.S(), c)
        {
          assert Past(now, sweeps, c) && NoLater(now(sweeps), passes, c);
          SparesOn(old(space.S()), before, space.S(), c);
        }
        assert (sweeps + 1) * maxNodes == sweeps * maxNodes + maxNodes;
      }
      sweeps := sweeps + 1;
    }
    forall h
      ensures h in space.tables.nodes <==> Needs(old(space.S()), space.S(), cutoff, h)
    {
      LeftIsNeeded(space, old(space.S()), cutoff, h);
    }
  }

  // Shrunk to where nothing is eligible, a Space that spared what is needed holds exactly what that reaches.
  lemma LeftIsNeeded(space: SpaceActor.Space, s: SpaceStore.Store, cutoff: int, hash: Hash)
    requires space.Valid() && NothingEligible(space.S(), cutoff)
    requires SpaceActor.Shrinks(s, space.S()) && Spares(s, space.S(), cutoff)
    ensures hash in space.tables.nodes <==> Needs(s, space.S(), cutoff, hash)
  {
    hide SpaceStore.Inv, SpaceStore.Eligible, SpaceActor.Extends;
    if hash in space.tables.nodes {
      var path := SpaceTheorems.LeftoverHasAnchor(space.digest, space.W(), cutoff, hash);
      PathWas(s, space.S(), path);
      assert Needed(s, space.S(), cutoff, path[0]);
    }
    if Needs(s, space.S(), cutoff, hash) {
      var path :| SpaceTheorems.IsPath(s.edges, path) && path[|path| - 1] == hash && Needed(s, space.S(), cutoff, path[0]);
      PathStays(space, s, path, |path| - 1);
    }
  }

  lemma PathWas(s: SpaceStore.Store, s': SpaceStore.Store, path: seq<Hash>)
    requires SpaceActor.Shrinks(s, s') && SpaceTheorems.IsPath(s'.edges, path)
    ensures SpaceTheorems.IsPath(s.edges, path)
  {
    forall i | 0 <= i < |path| - 1
      ensures SpaceTheorems.Linked(s.edges, path[i], path[i + 1])
    {
      assert SpaceTheorems.Linked(s'.edges, path[i], path[i + 1]);
    }
  }

  // A row that is left keeps its edges, and they lead to rows that are left.
  lemma {:induction false} PathStays(space: SpaceActor.Space, s: SpaceStore.Store, path: seq<Hash>, i: nat)
    requires space.Valid() && SpaceActor.Shrinks(s, space.S())
    requires SpaceTheorems.IsPath(s.edges, path) && path[0] in space.tables.nodes && i < |path|
    ensures path[i] in space.tables.nodes
  {
    if i > 0 {
      PathStays(space, s, path, i - 1);
      assert SpaceTheorems.Linked(s.edges, path[i - 1], path[i]);
      var e :| e in s.edges && e.parent == path[i - 1] && e.child == path[i];
      EdgesAreClosed(space.digest, space.W(), e);
    }
  }

  lemma EdgesAreClosed(digest: Digest, w: SpaceStore.World, e: SpaceStore.Edge)
    requires SpaceStore.Inv(digest, w) && e in w.store.edges
    ensures e.child in w.store.tables.nodes
  {
  }
}
