// The metered tables of one Space as the database updates them in place: every
// statement with its triggers, the repair batch as aggregates over the tables, and
// the reconciliation loop that writes observed object sizes.
module UsageTables {
  import opened Prelude
  import opened Order
  import opened UsageProjection

  // What became of one head request: it failed, the object is missing, or its size.
  datatype Head = Failed | Missing | Stored(size: nat)

  datatype Reconciliation = Reconciliation(examined: nat, observed: nat, missing: nat, failed: nat, backfill: bool)

  class SpaceTables {
    var nodes: map<Hash, NodeRow>
    var reservations: map<Hash, Reservation>
    var usage: Option<UsageRow>

    function M(): Metered
      reads this
    {
      Metered(nodes, reservations, usage)
    }

    /** The projection row is the recount of the tables. */
    ghost predicate Valid()
      reads this
    {
      Consistent(M())
    }

    constructor ()
      ensures Valid() && nodes == map[] && reservations == map[] && usage == None
    {
      nodes, reservations, usage := map[], map[], None;
      EmptyIsConsistent();
    }

    // The row triggers: add to the projection row, or create it.
    method AddToUsage(added: Counters) returns (abort: Option<Abort>)
      modifies this`usage
      ensures AddUsage(old(M()), added) == Outcome(M(), abort)
      ensures abort.Some? ==> usage == old(usage)
    {
      var counters := if usage.None? then added else Shifted(usage.value.counters, added, Zero());
      if !LegalCounters(counters) {
        return Some(CheckViolation);
      }
      usage := Some(UsageRow(counters, if usage.None? then 0 else usage.value.repairedAt));
      abort := None;
    }

    // The row triggers: shift the projection row, if there is one.
    method ShiftInUsage(added: Counters, removed: Counters) returns (abort: Option<Abort>)
      modifies this`usage
      ensures ShiftUsage(old(M()), added, removed) == Outcome(M(), abort)
      ensures abort.Some? ==> usage == old(usage)
    {
      if usage.None? {
        return None;
      }
      var counters := Shifted(usage.value.counters, added, removed);
      if !LegalCounters(counters) {
        return Some(CheckViolation);
      }
      usage := Some(UsageRow(counters, usage.value.repairedAt));
      abort := None;
    }

    method DropUsageWhenEmpty()
      modifies this`usage
      ensures M() == DropEmptyUsage(old(M()))
    {
      if usage.Some? && usage.value.counters[Nodes] == 0 && usage.value.counters[ReservedBytes] == 0 {
        usage := None;
      }
    }

    /** A legal new row is always inserted, and the triggers keep the projection exact. */
    method Insert(hash: Hash, row: NodeRow) returns (abort: Option<Abort>)
      requires Valid()
      modifies this
      ensures Valid() && (abort.None? <==> hash !in old(nodes) && LegalRow(row))
      ensures nodes == if abort.None? then old(nodes)[hash := row] else old(nodes)
      ensures reservations == old(reservations) && (abort.Some? ==> usage == old(usage))
    {
      hide Consistent;
      if hash in nodes {
        return Some(UniqueViolation);
      }
      if !LegalRow(row) {
        return Some(CheckViolation);
      }
      InsertNodeKeeps(M(), hash, row);
      nodes := nodes[hash := row];
      abort := AddToUsage(NodeCounters(row));
    }

    /** No guard trigger fires and no counter goes negative: an update aborts only on the row's own CHECK. */
    method Update(hash: Hash, row: NodeRow) returns (abort: Option<Abort>)
      requires Valid()
      modifies this
      ensures Valid() && (abort.Some? ==> hash in old(nodes) && !LegalRow(row) && abort == Some(CheckViolation))
      ensures nodes == if abort.None? && hash in old(nodes) then old(nodes)[hash := row] else old(nodes)
      ensures reservations == old(reservations) && (abort.Some? ==> usage == old(usage))
    {
      hide Consistent;
      if hash !in nodes {
        return None;
      }
      HasUsage(M());
      if usage.None? {
        return Some(MissingProjection);
      }
      if !LegalRow(row) {
        return Some(CheckViolation);
      }
      UpdateNodeKeeps(M(), hash, row);
      var was := nodes[hash];
      nodes := nodes[hash := row];
      abort := ShiftInUsage(NodeCounters(row), NodeCounters(was));
    }

    method Delete(hash: Hash) returns (abort: Option<Abort>)
      requires Valid()
      modifies this
      ensures Valid() && abort.None? && nodes == old(nodes) - {hash} && reservations == old(reservations)
    {
      hide Consistent;
      DeleteNodeKeeps(M(), hash);
      if hash !in nodes {
        assert nodes - {hash} == nodes;
        return None;
      }
      HasUsage(M());
      var was := nodes[hash];
      nodes := nodes - {hash};
      abort := ShiftInUsage(Zero(), NodeCounters(was));
      if abort.None? {
        DropUsageWhenEmpty();
      }
    }

    method Reserve(hash: Hash, reservation: Reservation) returns (abort: Option<Abort>)
      requires Valid()
      modifies this
      ensures Valid() && (abort.None? <==> reservation.storedBytes > 0)
      ensures reservations == if abort.None? then old(reservations)[hash := reservation] else old(reservations)
      ensures nodes == old(nodes)
    {
      hide Consistent;
      if reservation.storedBytes <= 0 {
        return Some(CheckViolation);
      }
      UpsertReservationKeeps(M(), hash, reservation);
      if hash !in reservations {
        reservations := reservations[hash := reservation];
        abort := AddToUsage(ReservationCounters(reservation));
      } else {
        HasUsage(M());
        var was := reservations[hash];
        reservations := reservations[hash := reservation];
        abort := ShiftInUsage(ReservationCounters(reservation), ReservationCounters(was));
      }
    }

    method Unreserve(hash: Hash) returns (abort: Option<Abort>)
      requires Valid()
      modifies this
      ensures Valid() && abort.None? && reservations == old(reservations) - {hash} && nodes == old(nodes)
    {
      hide Consistent;
      DeleteReservationKeeps(M(), hash);
      if hash !in reservations {
        assert reservations - {hash} == reservations;
        return None;
      }
      HasUsage(M());
      var was := reservations[hash];
      reservations := reservations - {hash};
      abort := ShiftInUsage(Zero(), ReservationCounters(was));
      if abort.None? {
        DropUsageWhenEmpty();
      }
    }

    // SELECT SUM(...) FROM cas_nodes
    method SumNodes(c: Column) returns (total: int)
      ensures total == NodeSum(nodes, c)
    {
      total := 0;
      var rest := nodes;
      while rest != map[]
        invariant total + NodeSum(rest, c) == NodeSum(nodes, c)
        decreases |rest|
      {
        var hash :| hash in rest;
        NodeSumRemove(rest, c, hash);
        total := total + NodeWeight(rest[hash], c);
        rest := rest - {hash};
      }
    }

    // SELECT SUM(stored_bytes) FROM cas_upload_reservations
    method SumReservations() returns (total: int)
      ensures total == ReservationSum(reservations, ReservedBytes)
    {
      total := 0;
      var rest := reservations;
      while rest != map[]
        invariant total + ReservationSum(rest, ReservedBytes) == ReservationSum(reservations, ReservedBytes)
        decreases |rest|
      {
        var hash :| hash in rest;
        ReservationSumRemove(rest, ReservedBytes, hash);
        total := total + ReservationWeight(rest[hash], ReservedBytes);
        rest := rest - {hash};
      }
    }

    // SELECT COUNT(*), SUM(...), ... FROM cas_nodes, with no reserved bytes yet.
    method AggregateNodes() returns (counters: Counters)
      ensures forall c: Column :: counters[c] == if c == ReservedBytes then 0 else NodeSum(nodes, c)
    {
      var contentBytes := SumNodes(ContentBytes);
      var storedBytes := SumNodes(StoredBytes);
      var notReady := SumNodes(NotReady);
      var leased := SumNodes(Leased);
      var unobserved := SumNodes(Unobserved);
      NodeSumBounds(nodes, Nodes);
      var columns := map[Nodes := |nodes|, ContentBytes := contentBytes, StoredBytes := storedBytes,
                         ReservedBytes := 0, NotReady := notReady, Leased := leased, Unobserved := unobserved];
      forall c: Column
        ensures c in columns && columns[c] == if c == ReservedBytes then 0 else NodeSum(nodes, c)
      {
        match c {
          case Nodes =>
          case ContentBytes =>
          case StoredBytes =>
          case ReservedBytes =>
          case NotReady =>
          case Leased =>
          case Unobserved =>
        }
      }
      counters := columns;
    }

    /** The repair batch: whatever the projection row held, it is the recount afterwards. */
    method RepairSpaceUsageProjection(at: int)
      requires LegalTables(M())
      modifies this`usage
      ensures Valid() && M() == RepairBatch(old(M()), at)
    {
      hide NodeSum, ReservationSum, Consistent;
      RepairRestores(M(), at);
      ghost var repaired := RepairBatch(M(), at);
      var counters := AggregateNodes();
      var reserved := SumReservations();
      usage := None;
      if nodes != map[] {
        usage := Some(UsageRow(counters, 0));
      }
      if usage.None? && reservations != map[] {
        usage := Some(UsageRow(Zero()[ReservedBytes := reserved], 0));
      }
      if usage.Some? {
        usage := Some(UsageRow(usage.value.counters[ReservedBytes := reserved], at));
      }
      SameUsage(M(), repaired);
    }

    // UPDATE cas_nodes SET canonical_stored_bytes = ?, canonical_observed_at = ?, against any projection row.
    method WriteNodeObservation(hash: Hash, stored: Option<nat>, at: nat) returns (abort: Option<Abort>)
      requires LegalTables(M())
      modifies this
      ensures LegalTables(M()) && (old(Valid()) ==> Valid() && abort.None?)
      ensures reservations == old(reservations) && (abort.Some? ==> M() == old(M()))
      ensures old(usage).None? && hash in old(nodes) ==> abort.Some?
      ensures hash !in old(nodes) ==> abort.None? && M() == old(M())
      ensures nodes == if abort.None? then Observing(old(nodes), hash, stored, at) else old(nodes)
    {
      hide Consistent;
      if hash !in nodes {
        return None;
      }
      if usage.None? {
        if Valid() {
          HasUsage(M());
        }
        return Some(MissingProjection);
      }
      var was := nodes[hash];
      var row := was.(storedBytes := stored, observedAt := Some(at));
      if Valid() {
        UpdateNodeKeeps(M(), hash, row);
      }
      nodes := nodes[hash := row];
      abort := ShiftInUsage(NodeCounters(row), NodeCounters(was));
      if abort.Some? {
        nodes := nodes[hash := was];
        assert nodes == old(nodes);
      }
    }

    // A statement of somebody else, against any projection row.
    method Run(s: Statement)
      requires LegalTables(M())
      modifies this
      ensures M() == Execute(old(M()), s) && LegalTables(M()) && (old(Valid()) ==> Valid())
    {
      hide Consistent, RepairBatch;
      StatementKeeps(M(), s);
      match s {
        case Repair(at) =>
          RepairSpaceUsageProjection(at);
        case Insert(hash, row) => Take(InsertNode(M(), hash, row));
        case Update(hash, row) => Take(UpdateNode(M(), hash, row));
        case Delete(hash) => Take(DeleteNode(M(), hash));
        case Reserve(hash, reservation) => Take(UpsertReservation(M(), hash, reservation));
        case Unreserve(hash) => Take(DeleteReservation(M(), hash));
      }
    }

    method Take(r: Result<Metered, Abort>)
      modifies this
      ensures M() == match r case Ok(m) => m case Err(_) => old(M())
    {
      if r.Ok? {
        nodes, reservations, usage := r.value.nodes, r.value.reservations, r.value.usage;
      }
    }

    method RunAll(statements: seq<Statement>)
      requires LegalTables(M())
      modifies this
      ensures M() == ExecuteAll(old(M()), statements) && LegalTables(M()) && (old(Valid()) ==> Valid())
    {
      hide Consistent, Execute;
      assert statements[0..] == statements;
      for i := 0 to |statements|
        invariant LegalTables(M()) && (old(Valid()) ==> Valid())
        invariant ExecuteAll(M(), statements[i..]) == ExecuteAll(old(M()), statements)
      {
        assert statements[i..][0] == statements[i] && statements[i..][1..] == statements[i + 1..];
        Run(statements[i]);
      }
    }

    // The rows of a pass: those never observed, in key order; without any, those observed longest ago.
    method SelectRows(limit: nat) returns (rows: seq<Hash>, backfill: bool)
      requires limit > 0
      ensures backfill <==> exists h :: h in nodes && nodes[h].observedAt.None?
      ensures LongestUnobserved(nodes, backfill, limit, rows)
    {
      hide LongestUnobserved, IsFirst;
      rows := FirstInOrder(NeverObserved(nodes), limit);
      backfill := rows != [];
      EmptyOrNot(NeverObserved(nodes), limit, rows);
      if h :| h in nodes && nodes[h].observedAt.None? {
        assert h in NeverObserved(nodes);
      }
      if !backfill {
        rows := FirstInOrder(ObservedTimes(nodes), limit);
      }
      SelectsLongestUnobserved(nodes, backfill, limit, rows);
    }

    /**
     * One reconciliation pass. Others run statements before each head request and between it and the
     * write, so a written size may be stale, and every call may fail. A consistent projection stays
     * consistent throughout. In a quiet pass each selected row records what its head request said at
     * its own time, no other row changes, and a missing projection is rebuilt by the first row observed.
     */
    method ReconcileUsageObservations(limit: int, plan: nat -> RowPlan) returns (r: Option<Reconciliation>, ghost rows: seq<Hash>)
      requires LegalTables(M())
      modifies this
      ensures LegalTables(M()) && (old(Valid()) ==> Valid())
      ensures r.None? <==> limit <= 0 || limit > MAX_SAFE_INTEGER
      ensures r.None? ==> M() == old(M())
      ensures r.Some? ==>
                && (r.value.backfill <==> exists h :: h in old(nodes) && old(nodes)[h].observedAt.None?)
                && LongestUnobserved(old(nodes), r.value.backfill, limit, rows)
                && r.value.examined == |rows| == r.value.observed + r.value.failed && r.value.missing <= r.value.observed
      ensures r.Some? && Quiet(plan) ==>
                && reservations == old(reservations) && RowsObserved(old(nodes), nodes, rows, plan)
                && r.value.observed == Answered(plan, |rows|) && r.value.missing == Gone(plan, |rows|)
                && (old(usage).None? && r.value.observed > 0 ==> Valid())
    {
      hide Consistent, RepairBatch, LongestUnobserved, RowsObserved;
      rows := [];
      if limit <= 0 || limit > MAX_SAFE_INTEGER {
        return None, rows;
      }
      var selected, backfill := SelectRows(limit);
      rows := selected;
      SelectedAreDistinct(nodes, backfill, limit, rows);
      var observed, missing, failed := 0, 0, 0;
      NothingObserved(nodes, rows, plan);
      for i := 0 to |selected|
        invariant LegalTables(M()) && (old(Valid()) ==> Valid())
        invariant i == observed + failed && missing <= observed
        invariant Quiet(plan) ==>
                    && reservations == old(reservations) && RowsObserved(old(nodes), nodes, rows[..i], plan)
                    && observed == Answered(plan, i) && missing == Gone(plan, i)
                    && (old(usage).None? ==> if observed > 0 then Valid() else usage == None)
      {
        ghost var before := nodes;
        var written := ObserveRow(selected[i], plan(i));
        if Quiet(plan) {
          OneMoreObserved(old(nodes), before, nodes, rows, i, plan);
        }
        if written {
          observed := observed + 1;
          if plan(i).head == Missing {
            missing := missing + 1;
          }
        } else {
          failed := failed + 1;
        }
      }
      assert rows[..|rows|] == rows;
      r := Some(Reconciliation(|selected|, observed, missing, failed, backfill));
    }

    // One row: head, write, and after an abort or a failure repair and write once more.
    method ObserveRow(hash: Hash, turn: RowPlan) returns (written: bool)
      requires LegalTables(M())
      modifies this
      ensures LegalTables(M()) && (old(Valid()) ==> Valid())
      ensures turn.head == Failed ==> !written
      ensures IsQuiet(turn) ==>
                && (written <==> turn.head != Failed) && reservations == old(reservations)
                && nodes == (if written then Observing(old(nodes), hash, Size(turn.head), turn.at) else old(nodes))
                && (old(usage).None? ==>
                      if written && hash in old(nodes) then Valid() else usage == None)
    {
      hide Consistent, RepairBatch;
      RunAll(turn.before);
      if turn.head == Failed {
        return false;
      }
      RunAll(turn.between);
      var abort := if turn.writeFails then Some(CheckViolation) else None;
      if !turn.writeFails {
        abort := WriteNodeObservation(hash, Size(turn.head), turn.at);
      }
      if abort.None? {
        return true;
      }
      if turn.repairFails {
        return false;
      }
      RepairRestores(M(), turn.at);
      RepairSpaceUsageProjection(turn.at);
      if turn.rewriteFails {
        return false;
      }
      abort := WriteNodeObservation(hash, Size(turn.head), turn.at);
      written := abort.None?;
    }
  }

  // How one row's turn goes: what others do meanwhile, the head request's answer and time, and which calls fail.
  datatype RowPlan = RowPlan(
    before: seq<Statement>, head: Head, at: nat, between: seq<Statement>,
    writeFails: bool, repairFails: bool, rewriteFails: bool)

  ghost predicate IsQuiet(turn: RowPlan) {
    turn.before == [] && turn.between == [] && !turn.writeFails && !turn.repairFails && !turn.rewriteFails
  }

  ghost predicate Quiet(plan: nat -> RowPlan) {
    forall i :: IsQuiet(plan(i))
  }

  function NeverObserved(nodes: map<Hash, NodeRow>): map<Hash, int> {
    map h | h in nodes && nodes[h].observedAt.None? :: 0
  }

  function ObservedTimes(nodes: map<Hash, NodeRow>): map<Hash, int> {
    map h | h in nodes && nodes[h].observedAt.Some? :: nodes[h].observedAt.value
  }

  // When a row counts as last looked at; all of those never observed count the same.
  ghost function LastLook(nodes: map<Hash, NodeRow>, h: Hash): int
    requires h in nodes
  {
    if nodes[h].observedAt.Some? then nodes[h].observedAt.value else 0
  }

  ghost predicate LookedAtBefore(nodes: map<Hash, NodeRow>, a: Hash, b: Hash)
    requires a in nodes && b in nodes
  {
    LastLook(nodes, a) < LastLook(nodes, b) || (LastLook(nodes, a) == LastLook(nodes, b) && Smaller(a, b))
  }

  // The rows never observed, or those observed longest ago, in that order: all of them, or the first `limit`.
  ghost predicate LongestUnobserved(nodes: map<Hash, NodeRow>, backfill: bool, limit: nat, rows: seq<Hash>) {
    && |rows| <= limit
    && (forall i :: 0 <= i < |rows| ==> rows[i] in nodes && (nodes[rows[i]].observedAt.None? <==> backfill))
    && (forall i, j :: 0 <= i < j < |rows| ==> rows[i] != rows[j] && LookedAtBefore(nodes, rows[i], rows[j]))
    && forall h :: h in nodes && (nodes[h].observedAt.None? <==> backfill) && h !in rows ==>
         |rows| == limit && forall i :: 0 <= i < |rows| ==> LookedAtBefore(nodes, rows[i], h)
  }

  lemma SelectsLongestUnobserved(nodes: map<Hash, NodeRow>, backfill: bool, limit: nat, rows: seq<Hash>)
    requires IsFirst(if backfill then NeverObserved(nodes) else ObservedTimes(nodes), limit, rows)
    ensures LongestUnobserved(nodes, backfill, limit, rows)
  {
    var times := if backfill then NeverObserved(nodes) else ObservedTimes(nodes);
    NoneLeftOut(times, rows, limit);
    forall a, b | a in times && b in times && Before(times, a, b)
      ensures LookedAtBefore(nodes, a, b)
    {
      LessIsLexicographic(a, b);
    }
  }

  // No key is left out unless the limit was reached.
  lemma NoneLeftOut(times: map<Hash, int>, rows: seq<Hash>, limit: nat)
    requires IsFirst(times, limit, rows)
    ensures |rows| <= limit && forall k :: k in times && k !in rows ==> |rows| == limit
  {
    if |rows| < limit {
      assert |times.Keys| == |times|;
      AllOfThem(times.Keys, rows);
    }
  }

  // How many of the first head requests were answered.
  ghost function Answered(plan: nat -> RowPlan, n: nat): nat {
    if n == 0 then 0 else Answered(plan, n - 1) + if plan(n - 1).head == Failed then 0 else 1
  }

  // How many of the first head requests found no object.
  ghost function Gone(plan: nat -> RowPlan, n: nat): nat {
    if n == 0 then 0 else Gone(plan, n - 1) + if plan(n - 1).head == Missing then 1 else 0
  }

  // The row records the answer and its time, if there was one.
  ghost predicate RowObserved(before: map<Hash, NodeRow>, after: map<Hash, NodeRow>, hash: Hash, turn: RowPlan) {
    && hash in before && hash in after
    && after[hash] == if turn.head == Failed then before[hash]
                      else before[hash].(storedBytes := if turn.head.Stored? then Some(turn.head.size) else None,
                                         observedAt := Some(turn.at))
  }

  // The selected rows have had their turns, and no other row is different.
  ghost predicate RowsObserved(before: map<Hash, NodeRow>, after: map<Hash, NodeRow>, rows: seq<Hash>, plan: nat -> RowPlan) {
    && after.Keys == before.Keys
    && (forall i :: 0 <= i < |rows| ==> RowObserved(before, after, rows[i], plan(i)))
    && (forall h :: h in before && h !in rows ==> after[h] == before[h])
  }

  lemma NothingObserved(nodes: map<Hash, NodeRow>, rows: seq<Hash>, plan: nat -> RowPlan)
    ensures RowsObserved(nodes, nodes, rows[..0], plan)
  {
  }

  lemma OneMoreObserved(
    first: map<Hash, NodeRow>, before: map<Hash, NodeRow>, after: map<Hash, NodeRow>, rows: seq<Hash>, i: nat,
    plan: nat -> RowPlan)
    requires i < |rows| && rows[i] in first && RowsObserved(first, before, rows[..i], plan)
    requires forall j, k :: 0 <= j < k < |rows| ==> rows[j] != rows[k]
    requires after == if plan(i).head != Failed then Observing(before, rows[i], Size(plan(i).head), plan(i).at) else before
    ensures rows[i] in before && RowsObserved(first, after, rows[..i + 1], plan)
  {
    var done := rows[..i + 1];
    assert done == rows[..i] + [rows[i]];
    assert rows[i] in before && before[rows[i]] == first[rows[i]];
    forall j | 0 <= j < |done|
      ensures RowObserved(first, after, done[j], plan(j))
    {
      if j < i {
        assert rows[..i][j] == done[j] && done[j] != rows[i];
        assert RowObserved(first, before, rows[..i][j], plan(j));
      }
    }
    forall h | h in first && h !in done
      ensures after[h] == first[h]
    {
      assert h !in rows[..i] && h != rows[i];
    }
  }

  lemma EmptyOrNot(numbers: map<Hash, int>, limit: nat, rows: seq<Hash>)
    requires limit > 0 && IsFirst(numbers, limit, rows)
    ensures rows != [] <==> exists h :: h in numbers
  {
    if h :| h in numbers {
      assert |numbers| > 0;
    } else {
      assert numbers == map[];
    }
  }

  lemma SelectedAreDistinct(nodes: map<Hash, NodeRow>, backfill: bool, limit: nat, rows: seq<Hash>)
    requires LongestUnobserved(nodes, backfill, limit, rows)
    ensures forall j, k :: 0 <= j < k < |rows| ==> rows[j] != rows[k]
    ensures forall i :: 0 <= i < |rows| ==> rows[i] in nodes
  {
  }

  lemma ConsistentAfter(m: Metered, s: Statement)
    requires Consistent(m)
    ensures Consistent(Execute(m, s))
  {
    hide Consistent, Execute;
    assert [s][1..] == [];
    assert ExecuteAll(m, [s]) == ExecuteAll(Execute(m, s), []) == Execute(m, s);
    ProjectionRefinesRecount(m, [s]);
  }

  // No statement breaks a table's own constraints, and a consistent projection stays so.
  lemma StatementKeeps(m: Metered, s: Statement)
    requires LegalTables(m)
    ensures LegalTables(Execute(m, s))
    ensures Consistent(m) ==> Consistent(Execute(m, s))
  {
    if s.Repair? {
      RepairRestores(m, s.at);
    }
    if Consistent(m) {
      ConsistentAfter(m, s);
    }
  }

  ghost function Outcome(m: Metered, abort: Option<Abort>): Result<Metered, Abort> {
    if abort.None? then Ok(m) else Err(abort.value)
  }

  function Size(head: Head): Option<nat> {
    if head.Stored? then Some(head.size) else None
  }

  ghost function Observing(nodes: map<Hash, NodeRow>, hash: Hash, stored: Option<nat>, at: nat): map<Hash, NodeRow> {
    if hash in nodes then nodes[hash := nodes[hash].(storedBytes := stored, observedAt := Some(at))] else nodes
  }

  lemma EmptyIsConsistent()
    ensures Consistent(Metered(map[], map[], None))
  {
  }

  lemma HasUsage(m: Metered)
    requires Consistent(m) && (m.nodes != map[] || m.reservations != map[])
    ensures m.usage.Some?
  {
  }

  lemma SameUsage(m: Metered, m': Metered)
    requires m.nodes == m'.nodes && m.reservations == m'.reservations
    requires m.usage.Some? <==> m'.usage.Some?
    requires m.usage.Some? ==> m.usage.value.repairedAt == m'.usage.value.repairedAt
    requires m.usage.Some? ==> forall c: Column :: m.usage.value.counters[c] == m'.usage.value.counters[c]
    ensures m == m'
  {
    if m.usage.Some? {
      assert m.usage.value.counters == m'.usage.value.counters;
    }
  }
}
