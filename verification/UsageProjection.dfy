// The usage projection: the statements that change node and reservation rows,
// each together with the triggers the schema attaches to it, and the proof that
// the row the triggers maintain always equals a recount of the tables.
module UsageProjection {
  import opened Prelude

  // One row of the node table. A count may go negative in a statement's result;
  // the CHECK constraint then aborts the statement.
  datatype NodeRow = NodeRow(
    contentSize: nat,
    contentType: bytes,
    leaseStartedAt: int,
    leaseExpiresAt: int,
    childRefCount: int,
    rootRefCount: int,
    storedBytes: Option<nat>,
    observedAt: Option<nat>
  )

  datatype Reservation = Reservation(storedBytes: int, createdAt: int, expiresAt: int)

  // The counter columns of the projection table.
  datatype Column = Nodes | ContentBytes | StoredBytes | ReservedBytes | NotReady | Leased | Unobserved

  type Counters = u: map<Column, int> | forall c: Column :: c in u
    witness map c: Column | true :: Nothing(c)

  datatype UsageRow = UsageRow(counters: Counters, repairedAt: int)

  // The tables the triggers watch, for one Space, and the projection row.
  datatype Metered = Metered(
    nodes: map<Hash, NodeRow>,
    reservations: map<Hash, Reservation>,
    usage: Option<UsageRow>
  )

  datatype Abort = UniqueViolation | CheckViolation | MissingProjection

  function NodeWeight(row: NodeRow, c: Column): int {
    match c
    case Nodes => 1
    case ContentBytes => row.contentSize
    case StoredBytes => row.storedBytes.GetOr(0)
    case ReservedBytes => 0
    case NotReady => if row.observedAt.Some? && row.storedBytes.None? then 1 else 0
    case Leased => if row.leaseExpiresAt > 0 then 1 else 0
    case Unobserved => if row.observedAt.None? then 1 else 0
  }

  function ReservationWeight(reservation: Reservation, c: Column): int {
    if c == ReservedBytes then reservation.storedBytes else 0
  }

  function NodeCounters(row: NodeRow): Counters {
    map c: Column | true :: NodeWeight(row, c)
  }

  function ReservationCounters(reservation: Reservation): Counters {
    map c: Column | true :: ReservationWeight(reservation, c)
  }

  function Nothing(c: Column): int {
    0
  }

  function Zero(): Counters {
    map c: Column | true :: Nothing(c)
  }

  function Shifted(u: Counters, added: Counters, removed: Counters): Counters {
    map c: Column | true :: u[c] + added[c] - removed[c]
  }

  // ----- statements with their triggers -----

  predicate LegalRow(row: NodeRow) {
    row.childRefCount >= 0 && row.rootRefCount >= 0
  }

  predicate LegalCounters(u: Counters) {
    forall c: Column :: u[c] >= 0
  }

  function CheckedUsage(m: Metered, u: Counters, repairedAt: int): Result<Metered, Abort> {
    if LegalCounters(u) then Ok(m.(usage := Some(UsageRow(u, repairedAt)))) else Err(CheckViolation)
  }

  // INSERT ... ON CONFLICT DO UPDATE on the projection row.
  function AddUsage(m: Metered, added: Counters): Result<Metered, Abort> {
    match m.usage
    case None => CheckedUsage(m, added, 0)
    case Some(u) => CheckedUsage(m, Shifted(u.counters, added, Zero()), u.repairedAt)
  }

  // UPDATE on the projection row; it changes nothing when the row is missing.
  function ShiftUsage(m: Metered, added: Counters, removed: Counters): Result<Metered, Abort> {
    match m.usage
    case None => Ok(m)
    case Some(u) => CheckedUsage(m, Shifted(u.counters, added, removed), u.repairedAt)
  }

  // The second statement of both delete triggers.
  function DropEmptyUsage(m: Metered): Metered {
    if m.usage.Some? && m.usage.value.counters[Nodes] == 0 && m.usage.value.counters[ReservedBytes] == 0
    then m.(usage := None)
    else m
  }

  function InsertNode(m: Metered, hash: Hash, row: NodeRow): Result<Metered, Abort> {
    if hash in m.nodes then Err(UniqueViolation)
    else if !LegalRow(row) then Err(CheckViolation)
    else AddUsage(m.(nodes := m.nodes[hash := row]), NodeCounters(row))
  }

  // UPDATE of one row: `row` is its new value. An absent row is left absent.
  function UpdateNode(m: Metered, hash: Hash, row: NodeRow): Result<Metered, Abort> {
    if hash !in m.nodes then Ok(m)
    else if m.usage.None? then Err(MissingProjection)
    else if !LegalRow(row) then Err(CheckViolation)
    else ShiftUsage(m.(nodes := m.nodes[hash := row]), NodeCounters(row), NodeCounters(m.nodes[hash]))
  }

  function DeleteNode(m: Metered, hash: Hash): Result<Metered, Abort> {
    if hash !in m.nodes then Ok(m)
    else if m.usage.None? then Err(MissingProjection)
    else
      var shifted :- ShiftUsage(m.(nodes := m.nodes - {hash}), Zero(), NodeCounters(m.nodes[hash]));
      Ok(DropEmptyUsage(shifted))
  }

  // INSERT ... ON CONFLICT DO UPDATE on the reservation table.
  function UpsertReservation(m: Metered, hash: Hash, reservation: Reservation): Result<Metered, Abort> {
    if reservation.storedBytes <= 0 then Err(CheckViolation)
    else if hash !in m.reservations then
      AddUsage(m.(reservations := m.reservations[hash := reservation]), ReservationCounters(reservation))
    else if m.usage.None? then Err(MissingProjection)
    else
      ShiftUsage(m.(reservations := m.reservations[hash := reservation]),
                 ReservationCounters(reservation), ReservationCounters(m.reservations[hash]))
  }

  function DeleteReservation(m: Metered, hash: Hash): Result<Metered, Abort> {
    if hash !in m.reservations then Ok(m)
    else if m.usage.None? then Err(MissingProjection)
    else
      var shifted :- ShiftUsage(m.(reservations := m.reservations - {hash}), Zero(),
                                ReservationCounters(m.reservations[hash]));
      Ok(DropEmptyUsage(shifted))
  }

  // ----- the recount -----

  // The sum of one column's weight over the node rows.
  ghost function NodeSum(nodes: map<Hash, NodeRow>, c: Column): int
    decreases |nodes|
  {
    if nodes == map[] then 0
    else
      var hash :| hash in nodes;
      NodeSum(nodes - {hash}, c) + NodeWeight(nodes[hash], c)
  }

  /** The sum does not depend on the order in which rows are taken. */
  lemma {:induction false} NodeSumRemove(nodes: map<Hash, NodeRow>, c: Column, hash: Hash)
    requires hash in nodes
    ensures NodeSum(nodes, c) == NodeSum(nodes - {hash}, c) + NodeWeight(nodes[hash], c)
    decreases |nodes|
  {
    var first :| first in nodes && NodeSum(nodes, c) == NodeSum(nodes - {first}, c) + NodeWeight(nodes[first], c);
    if first != hash {
      NodeSumRemove(nodes - {first}, c, hash);
      NodeSumRemove(nodes - {hash}, c, first);
      assert nodes - {first} - {hash} == nodes - {hash} - {first};
    }
  }

  lemma NodeSumInsert(nodes: map<Hash, NodeRow>, c: Column, hash: Hash, row: NodeRow)
    requires hash !in nodes
    ensures NodeSum(nodes[hash := row], c) == NodeSum(nodes, c) + NodeWeight(row, c)
  {
    NodeSumRemove(nodes[hash := row], c, hash);
    assert nodes[hash := row] - {hash} == nodes;
  }

  lemma NodeSumUpdate(nodes: map<Hash, NodeRow>, c: Column, hash: Hash, row: NodeRow)
    requires hash in nodes
    ensures NodeSum(nodes[hash := row], c) == NodeSum(nodes, c) + NodeWeight(row, c) - NodeWeight(nodes[hash], c)
  {
    NodeSumRemove(nodes, c, hash);
    NodeSumRemove(nodes[hash := row], c, hash);
    assert nodes[hash := row] - {hash} == nodes - {hash};
  }

  // The same over the reservations.
  ghost function ReservationSum(reservations: map<Hash, Reservation>, c: Column): int
    decreases |reservations|
  {
    if reservations == map[] then 0
    else
      var hash :| hash in reservations;
      ReservationSum(reservations - {hash}, c) + ReservationWeight(reservations[hash], c)
  }

  /** The sum does not depend on the order in which rows are taken. */
  lemma {:induction false} ReservationSumRemove(reservations: map<Hash, Reservation>, c: Column, hash: Hash)
    requires hash in reservations
    ensures ReservationSum(reservations, c) == ReservationSum(reservations - {hash}, c) + ReservationWeight(reservations[hash], c)
    decreases |reservations|
  {
    var first :| first in reservations && ReservationSum(reservations, c) == ReservationSum(reservations - {first}, c) + ReservationWeight(reservations[first], c);
    if first != hash {
      ReservationSumRemove(reservations - {first}, c, hash);
      ReservationSumRemove(reservations - {hash}, c, first);
      assert reservations - {first} - {hash} == reservations - {hash} - {first};
    }
  }

  lemma ReservationSumInsert(reservations: map<Hash, Reservation>, c: Column, hash: Hash, row: Reservation)
    requires hash !in reservations
    ensures ReservationSum(reservations[hash := row], c) == ReservationSum(reservations, c) + ReservationWeight(row, c)
  {
    ReservationSumRemove(reservations[hash := row], c, hash);
    assert reservations[hash := row] - {hash} == reservations;
  }

  lemma ReservationSumUpdate(reservations: map<Hash, Reservation>, c: Column, hash: Hash, row: Reservation)
    requires hash in reservations
    ensures ReservationSum(reservations[hash := row], c) == ReservationSum(reservations, c) + ReservationWeight(row, c) - ReservationWeight(reservations[hash], c)
  {
    ReservationSumRemove(reservations, c, hash);
    ReservationSumRemove(reservations[hash := row], c, hash);
    assert reservations[hash := row] - {hash} == reservations - {hash};
  }

  ghost function Recount(m: Metered): Counters {
    map c: Column | true :: NodeSum(m.nodes, c) + ReservationSum(m.reservations, c)
  }

  ghost predicate LegalTables(m: Metered) {
    && (forall h :: h in m.nodes ==> LegalRow(m.nodes[h]))
    && (forall h :: h in m.reservations ==> m.reservations[h].storedBytes > 0)
  }

  ghost predicate Occupied(m: Metered) {
    m.nodes != map[] || m.reservations != map[]
  }

  /** The projection row exists exactly when the Space has a row to count, and it is the recount. */
  ghost predicate Consistent(m: Metered) {
    && LegalTables(m)
    && (m.usage.Some? <==> Occupied(m))
    && (m.usage.Some? ==> m.usage.value.counters == Recount(m))
  }

  lemma {:induction false} NodeSumBounds(nodes: map<Hash, NodeRow>, c: Column)
    ensures NodeSum(nodes, c) >= 0
    ensures c == Nodes ==> NodeSum(nodes, c) == |nodes|
    ensures c == ReservedBytes ==> NodeSum(nodes, c) == 0
    decreases |nodes|
  {
    if nodes != map[] {
      var h :| h in nodes;
      NodeSumRemove(nodes, c, h);
      NodeSumBounds(nodes - {h}, c);
    }
  }

  lemma {:induction false} ReservationSumBounds(reservations: map<Hash, Reservation>, c: Column)
    requires forall h :: h in reservations ==> reservations[h].storedBytes > 0
    ensures c != ReservedBytes ==> ReservationSum(reservations, c) == 0
    ensures c == ReservedBytes ==> ReservationSum(reservations, c) >= |reservations|
    decreases |reservations|
  {
    if reservations != map[] {
      var h :| h in reservations;
      ReservationSumRemove(reservations, c, h);
      ReservationSumBounds(reservations - {h}, c);
    }
  }

  // What the CHECK constraints and the delete triggers look at.
  lemma RecountBounds(m: Metered)
    requires LegalTables(m)
    ensures LegalCounters(Recount(m))
    ensures Recount(m)[Nodes] == 0 && Recount(m)[ReservedBytes] == 0 <==> !Occupied(m)
    ensures !Occupied(m) ==> Recount(m) == Zero()
  {
    forall c: Column
      ensures Recount(m)[c] >= 0
    {
      NodeSumBounds(m.nodes, c);
      ReservationSumBounds(m.reservations, c);
    }
    NodeSumBounds(m.nodes, Nodes);
    NodeSumBounds(m.nodes, ReservedBytes);
    ReservationSumBounds(m.reservations, Nodes);
    ReservationSumBounds(m.reservations, ReservedBytes);
  }

  // ----- the recount, column by column -----

  ghost function SumOf(amounts: map<Hash, int>): int
    decreases |amounts|
  {
    if amounts == map[] then 0
    else
      var hash :| hash in amounts;
      SumOf(amounts - {hash}) + amounts[hash]
  }

  lemma {:induction false} SumOfRemove(amounts: map<Hash, int>, hash: Hash)
    requires hash in amounts
    ensures SumOf(amounts) == SumOf(amounts - {hash}) + amounts[hash]
    decreases |amounts|
  {
    var first :| first in amounts && SumOf(amounts) == SumOf(amounts - {first}) + amounts[first];
    if first != hash {
      SumOfRemove(amounts - {first}, hash);
      SumOfRemove(amounts - {hash}, first);
      assert amounts - {first} - {hash} == amounts - {hash} - {first};
    }
  }

  /** What each column of the projection row says of the tables. */
  ghost predicate Tells(u: Counters, nodes: map<Hash, NodeRow>, reservations: map<Hash, Reservation>) {
    && u[Nodes] == |nodes|
    && u[ContentBytes] == SumOf(map h | h in nodes :: nodes[h].contentSize)
    && u[StoredBytes] == SumOf(map h | h in nodes && nodes[h].storedBytes.Some? :: nodes[h].storedBytes.value)
    && u[ReservedBytes] == SumOf(map h | h in reservations :: reservations[h].storedBytes)
    && u[NotReady] == |set h | h in nodes && nodes[h].observedAt.Some? && nodes[h].storedBytes.None?|
    && u[Leased] == |set h | h in nodes && nodes[h].leaseExpiresAt > 0|
    && u[Unobserved] == |set h | h in nodes && nodes[h].observedAt.None?|
  }

  lemma {:induction false} CountsMembers(nodes: map<Hash, NodeRow>, c: Column, members: set<Hash>)
    requires members <= nodes.Keys
    requires forall h :: h in nodes ==> NodeWeight(nodes[h], c) == if h in members then 1 else 0
    ensures NodeSum(nodes, c) == |members|
    decreases |nodes|
  {
    if nodes != map[] {
      var h :| h in nodes;
      NodeSumRemove(nodes, c, h);
      CountsMembers(nodes - {h}, c, members - {h});
    }
  }

  lemma {:induction false} SumsAmounts(nodes: map<Hash, NodeRow>, c: Column, amounts: map<Hash, int>)
    requires amounts.Keys <= nodes.Keys
    requires forall h :: h in nodes ==> NodeWeight(nodes[h], c) == if h in amounts then amounts[h] else 0
    ensures NodeSum(nodes, c) == SumOf(amounts)
    decreases |nodes|
  {
    if nodes != map[] {
      var h :| h in nodes;
      NodeSumRemove(nodes, c, h);
      SumsAmounts(nodes - {h}, c, amounts - {h});
      if h in amounts {
        SumOfRemove(amounts, h);
      } else {
        assert amounts - {h} == amounts;
      }
    }
  }

  lemma {:induction false} SumsReservations(reservations: map<Hash, Reservation>, c: Column, amounts: map<Hash, int>)
    requires amounts.Keys == reservations.Keys
    requires forall h :: h in reservations ==> ReservationWeight(reservations[h], c) == amounts[h]
    ensures ReservationSum(reservations, c) == SumOf(amounts)
    decreases |reservations|
  {
    if reservations != map[] {
      var h :| h in reservations;
      ReservationSumRemove(reservations, c, h);
      SumsReservations(reservations - {h}, c, amounts - {h});
      SumOfRemove(amounts, h);
    }
  }

  lemma CountColumns(nodes: map<Hash, NodeRow>)
    ensures NodeSum(nodes, Nodes) == |nodes|
    ensures NodeSum(nodes, NotReady) == |set h | h in nodes && nodes[h].observedAt.Some? && nodes[h].storedBytes.None?|
    ensures NodeSum(nodes, Leased) == |set h | h in nodes && nodes[h].leaseExpiresAt > 0|
    ensures NodeSum(nodes, Unobserved) == |set h | h in nodes && nodes[h].observedAt.None?|
  {
    hide NodeSum;
    CountsMembers(nodes, Nodes, nodes.Keys);
    CountsMembers(nodes, NotReady, set h | h in nodes && nodes[h].observedAt.Some? && nodes[h].storedBytes.None?);
    CountsMembers(nodes, Leased, set h | h in nodes && nodes[h].leaseExpiresAt > 0);
    CountsMembers(nodes, Unobserved, set h | h in nodes && nodes[h].observedAt.None?);
    assert |nodes.Keys| == |nodes|;
  }

  lemma SumColumns(nodes: map<Hash, NodeRow>)
    ensures NodeSum(nodes, ContentBytes) == SumOf(map h | h in nodes :: nodes[h].contentSize)
    ensures NodeSum(nodes, StoredBytes)
            == SumOf(map h | h in nodes && nodes[h].storedBytes.Some? :: nodes[h].storedBytes.value)
  {
    hide NodeSum, SumOf;
    SumsAmounts(nodes, ContentBytes, map h | h in nodes :: nodes[h].contentSize);
    SumsAmounts(nodes, StoredBytes, map h | h in nodes && nodes[h].storedBytes.Some? :: nodes[h].storedBytes.value);
  }

  lemma RecountTells(m: Metered)
    requires LegalTables(m)
    ensures Tells(Recount(m), m.nodes, m.reservations)
  {
    hide NodeSum, SumOf, ReservationSum;
    forall c: Column
      ensures c != ReservedBytes ==> ReservationSum(m.reservations, c) == 0
      ensures c == ReservedBytes ==> NodeSum(m.nodes, c) == 0
    {
      ReservationSumBounds(m.reservations, c);
      NodeSumBounds(m.nodes, c);
    }
    CountColumns(m.nodes);
    SumColumns(m.nodes);
    SumsReservations(m.reservations, ReservedBytes, map h | h in m.reservations :: m.reservations[h].storedBytes);
  }

  // What the App sweep selects Spaces by.
  predicate UsageBearing(m: Metered) {
    m.usage.Some? && (m.usage.value.counters[Nodes] > 0 || m.usage.value.counters[ReservedBytes] > 0)
  }

  /** A Space bears usage exactly when it has a node or a reservation. */
  lemma UsageBearingIffOccupied(m: Metered)
    requires Consistent(m)
    ensures UsageBearing(m) <==> m.nodes != map[] || m.reservations != map[]
  {
    RecountBounds(m);
  }

  // ----- every statement keeps the projection equal to the recount -----

  // The trigger algebra, on the counters alone: `was` and `now` are the recounts before and after.
  lemma AddUsageWrites(m: Metered, was: Counters, now: Counters, added: Counters)
    requires forall c: Column :: now[c] == was[c] + added[c]
    requires LegalCounters(now)
    requires m.usage.Some? ==> m.usage.value.counters == was
    requires m.usage.None? ==> was == Zero()
    ensures AddUsage(m, added) == Ok(m.(usage := Some(UsageRow(now, RepairedAt(m)))))
  {
    if m.usage.None? {
      assert added == now;
    } else {
      assert Shifted(was, added, Zero()) == now;
    }
  }

  lemma ShiftUsageWrites(m: Metered, was: Counters, now: Counters, added: Counters, removed: Counters)
    requires forall c: Column :: now[c] == was[c] + added[c] - removed[c]
    requires LegalCounters(now) && m.usage.Some? && m.usage.value.counters == was
    ensures ShiftUsage(m, added, removed) == Ok(m.(usage := Some(UsageRow(now, RepairedAt(m)))))
  {
    assert Shifted(was, added, removed) == now;
  }

  function RepairedAt(m: Metered): int {
    if m.usage.Some? then m.usage.value.repairedAt else 0
  }

  lemma WrittenRecount(m: Metered, at: int)
    requires LegalTables(m) && Occupied(m)
    ensures Consistent(m.(usage := Some(UsageRow(Recount(m), at))))
  {
  }

  // The delete triggers drop the row exactly when the tables are empty.
  lemma DropsEmptyRow(m: Metered, now: Counters, at: int, occupied: bool)
    requires now[Nodes] == 0 && now[ReservedBytes] == 0 <==> !occupied
    ensures DropEmptyUsage(m.(usage := Some(UsageRow(now, at))))
            == m.(usage := if occupied then Some(UsageRow(now, at)) else None)
  {
  }

  lemma DroppedRecount(m: Metered, at: int)
    requires LegalTables(m)
    ensures Consistent(m.(usage := if Occupied(m) then Some(UsageRow(Recount(m), at)) else None))
  {
  }

  /** An insert with a fresh key and legal counts commits. */
  lemma InsertNodeKeeps(m: Metered, hash: Hash, row: NodeRow)
    requires Consistent(m) && hash !in m.nodes && LegalRow(row)
    ensures var r := InsertNode(m, hash, row);
            r.Ok? && Consistent(r.value)
            && r.value.nodes == m.nodes[hash := row] && r.value.reservations == m.reservations
  {
    var m' := m.(nodes := m.nodes[hash := row]);
    assert hash in m'.nodes;
    RecountBounds(m);
    RecountBounds(m');
    RecountAfterInsert(m, hash, row);
    AddUsageWrites(m', Recount(m), Recount(m'), NodeCounters(row));
    WrittenRecount(m', RepairedAt(m));
  }

  lemma RecountAfterInsert(m: Metered, hash: Hash, row: NodeRow)
    requires hash !in m.nodes
    ensures forall c: Column ::
              Recount(m.(nodes := m.nodes[hash := row]))[c] == Recount(m)[c] + NodeCounters(row)[c]
  {
    forall c: Column {
      NodeSumInsert(m.nodes, c, hash, row);
    }
  }

  /** An update aborts exactly when it would leave a negative count in an existing row. */
  lemma UpdateNodeKeeps(m: Metered, hash: Hash, row: NodeRow)
    requires Consistent(m)
    ensures var r := UpdateNode(m, hash, row);
            && (r.Ok? <==> hash in m.nodes ==> LegalRow(row))
            && (r.Ok? ==>
                  && Consistent(r.value) && r.value.reservations == m.reservations
                  && r.value.nodes == if hash in m.nodes then m.nodes[hash := row] else m.nodes)
            && (r.Err? ==> r.error == CheckViolation)
  {
    if hash in m.nodes && LegalRow(row) {
      var m' := m.(nodes := m.nodes[hash := row]);
      assert hash in m'.nodes;
      RecountBounds(m');
      RecountAfterUpdate(m, hash, row);
      ShiftUsageWrites(m', Recount(m), Recount(m'), NodeCounters(row), NodeCounters(m.nodes[hash]));
      WrittenRecount(m', RepairedAt(m));
    }
  }

  lemma RecountAfterUpdate(m: Metered, hash: Hash, row: NodeRow)
    requires hash in m.nodes
    ensures forall c: Column ::
              Recount(m.(nodes := m.nodes[hash := row]))[c]
              == Recount(m)[c] + NodeCounters(row)[c] - NodeCounters(m.nodes[hash])[c]
  {
    forall c: Column {
      NodeSumUpdate(m.nodes, c, hash, row);
    }
  }

  lemma DeleteNodeKeeps(m: Metered, hash: Hash)
    requires Consistent(m)
    ensures var r := DeleteNode(m, hash);
            r.Ok? && Consistent(r.value)
            && r.value.nodes == m.nodes - {hash} && r.value.reservations == m.reservations
  {
    if hash in m.nodes {
      var m' := m.(nodes := m.nodes - {hash});
      RecountBounds(m');
      RecountAfterDelete(m, hash);
      ShiftUsageWrites(m', Recount(m), Recount(m'), Zero(), NodeCounters(m.nodes[hash]));
      DropsEmptyRow(m', Recount(m'), RepairedAt(m), Occupied(m'));
      DroppedRecount(m', RepairedAt(m));
    } else {
      assert m.nodes - {hash} == m.nodes;
    }
  }

  lemma RecountAfterDelete(m: Metered, hash: Hash)
    requires hash in m.nodes
    ensures forall c: Column ::
              Recount(m.(nodes := m.nodes - {hash}))[c]
              == Recount(m)[c] + Zero()[c] - NodeCounters(m.nodes[hash])[c]
  {
    forall c: Column {
      NodeSumRemove(m.nodes, c, hash);
    }
  }

  /** A reservation of no bytes aborts; every other one commits. */
  lemma UpsertReservationKeeps(m: Metered, hash: Hash, reservation: Reservation)
    requires Consistent(m)
    ensures var r := UpsertReservation(m, hash, reservation);
            && (r.Ok? <==> reservation.storedBytes > 0)
            && (r.Ok? ==>
                  && Consistent(r.value) && r.value.nodes == m.nodes
                  && r.value.reservations == m.reservations[hash := reservation])
            && (r.Err? ==> r.error == CheckViolation)
  {
    if reservation.storedBytes > 0 {
      var m' := m.(reservations := m.reservations[hash := reservation]);
      var added := ReservationCounters(reservation);
      assert hash in m'.reservations;
      RecountBounds(m);
      RecountBounds(m');
      RecountAfterReserve(m, hash, reservation);
      if hash in m.reservations {
        ShiftUsageWrites(m', Recount(m), Recount(m'), added, ReservationCounters(m.reservations[hash]));
      } else {
        AddUsageWrites(m', Recount(m), Recount(m'), added);
      }
      WrittenRecount(m', RepairedAt(m));
    }
  }

  lemma RecountAfterReserve(m: Metered, hash: Hash, reservation: Reservation)
    ensures forall c: Column ::
              Recount(m.(reservations := m.reservations[hash := reservation]))[c]
              == Recount(m)[c] + ReservationCounters(reservation)[c]
                 - if hash in m.reservations then ReservationCounters(m.reservations[hash])[c] else 0
  {
    if hash in m.reservations {
      forall c: Column {
        ReservationSumUpdate(m.reservations, c, hash, reservation);
      }
    } else {
      forall c: Column {
        ReservationSumInsert(m.reservations, c, hash, reservation);
      }
    }
  }

  lemma DeleteReservationKeeps(m: Metered, hash: Hash)
    requires Consistent(m)
    ensures var r := DeleteReservation(m, hash);
            r.Ok? && Consistent(r.value)
            && r.value.nodes == m.nodes && r.value.reservations == m.reservations - {hash}
  {
    if hash in m.reservations {
      var m' := m.(reservations := m.reservations - {hash});
      RecountBounds(m');
      RecountAfterUnreserve(m, hash);
      ShiftUsageWrites(m', Recount(m), Recount(m'), Zero(), ReservationCounters(m.reservations[hash]));
      DropsEmptyRow(m', Recount(m'), RepairedAt(m), Occupied(m'));
      DroppedRecount(m', RepairedAt(m));
    } else {
      assert m.reservations - {hash} == m.reservations;
    }
  }

  lemma RecountAfterUnreserve(m: Metered, hash: Hash)
    requires hash in m.reservations
    ensures forall c: Column ::
              Recount(m.(reservations := m.reservations - {hash}))[c]
              == Recount(m)[c] + Zero()[c] - ReservationCounters(m.reservations[hash])[c]
  {
    forall c: Column {
      ReservationSumRemove(m.reservations, c, hash);
    }
  }

  // ----- repair -----

  // The repair batch: delete the row, rebuild it from the nodes, else from the
  // reservations, then overwrite the reserved bytes and stamp it.
  ghost function RepairBatch(m: Metered, at: int): Metered {
    var reserved := ReservationSum(m.reservations, ReservedBytes);
    var fromNodes: Option<UsageRow> :=
      if m.nodes == map[] then None
      else Some(UsageRow(map c: Column | true :: if c == ReservedBytes then 0 else NodeSum(m.nodes, c), 0));
    var fromEither: Option<UsageRow> :=
      if fromNodes.None? && m.reservations != map[]
      then Some(UsageRow(Zero()[ReservedBytes := reserved], 0))
      else fromNodes;
    match fromEither
    case None => m.(usage := None)
    case Some(u) => m.(usage := Some(UsageRow(u.counters[ReservedBytes := reserved], at)))
  }

  /** Repair makes any projection row consistent, whatever it held before. */
  lemma RepairRestores(m: Metered, at: int)
    requires LegalTables(m)
    ensures Consistent(RepairBatch(m, at))
    ensures RepairBatch(m, at).nodes == m.nodes && RepairBatch(m, at).reservations == m.reservations
  {
    var m' := RepairBatch(m, at);
    forall c: Column
      ensures m'.usage.Some? ==> m'.usage.value.counters[c] == Recount(m)[c]
    {
      NodeSumBounds(m.nodes, c);
      ReservationSumBounds(m.reservations, c);
    }
  }

  /** On a projection kept by the triggers, repair changes nothing but its own timestamp. */
  lemma RepairIsNoOp(m: Metered, at: int)
    requires Consistent(m)
    ensures RepairBatch(m, at) ==
            if m.usage.Some? then m.(usage := Some(m.usage.value.(repairedAt := at))) else m
  {
    RepairRestores(m, at);
  }

  // ----- any sequence of statements -----

  datatype Statement =
    | Insert(hash: Hash, row: NodeRow)
    | Update(hash: Hash, row: NodeRow)
    | Delete(hash: Hash)
    | Reserve(hash: Hash, reservation: Reservation)
    | Unreserve(hash: Hash)
    | Repair(at: int)

  // An aborted statement leaves the tables as they were.
  ghost function Execute(m: Metered, s: Statement): Metered {
    var r :=
      match s
      case Insert(hash, row) => InsertNode(m, hash, row)
      case Update(hash, row) => UpdateNode(m, hash, row)
      case Delete(hash) => DeleteNode(m, hash)
      case Reserve(hash, reservation) => UpsertReservation(m, hash, reservation)
      case Unreserve(hash) => DeleteReservation(m, hash)
      case Repair(at) => Ok(RepairBatch(m, at));
    match r case Ok(m') => m' case Err(_) => m
  }

  ghost function ExecuteAll(m: Metered, statements: seq<Statement>): Metered
    decreases |statements|
  {
    if statements == [] then m
    else ExecuteAll(Execute(m, statements[0]), statements[1..])
  }

  /** After any sequence of statements on an empty Space the projection is the recount. */
  lemma {:induction false} ProjectionRefinesRecount(m: Metered, statements: seq<Statement>)
    requires Consistent(m)
    ensures Consistent(ExecuteAll(m, statements))
    decreases |statements|
  {
    if statements != [] {
      var s := statements[0];
      match s {
        case Insert(hash, row) =>
          if hash !in m.nodes && LegalRow(row) { InsertNodeKeeps(m, hash, row); }
        case Update(hash, row) => UpdateNodeKeeps(m, hash, row);
        case Delete(hash) => DeleteNodeKeeps(m, hash);
        case Reserve(hash, reservation) => UpsertReservationKeeps(m, hash, reservation);
        case Unreserve(hash) => DeleteReservationKeeps(m, hash);
        case Repair(at) => RepairRestores(m, at);
      }
      ProjectionRefinesRecount(Execute(m, s), statements[1..]);
    }
  }

  /** After any sequence of statements every column says what it is named for. */
  lemma ProjectionTells(m: Metered, statements: seq<Statement>)
    requires Consistent(m)
    ensures var m' := ExecuteAll(m, statements);
            && (m'.usage.Some? <==> m'.nodes != map[] || m'.reservations != map[])
            && (m'.usage.Some? ==> Tells(m'.usage.value.counters, m'.nodes, m'.reservations))
  {
    ProjectionRefinesRecount(m, statements);
    RecountTells(ExecuteAll(m, statements));
  }

  datatype SpaceUsage = SpaceUsage(
    nodeCount: int, readyContentBytes: int, readyStoredBytes: int, reservedBytes: int,
    notReadyNodeCount: int, leasedNodeCount: int)

  /** The recount the service performs for one Space, node by node, with a head request each. */
  method ReadNodeUsage(entries: seq<(Hash, NodeRow)>, stored: map<Hash, nat>, reservedBytes: int)
    returns (usage: SpaceUsage)
    ensures usage == SpaceUsage(
      |entries|, ListSum(entries, stored, ContentBytes), ListSum(entries, stored, StoredBytes), reservedBytes,
      ListSum(entries, stored, NotReady), ListSum(entries, stored, Leased))
  {
    var contentBytes, storedBytes, notReady, leased := 0, 0, 0, 0;
    var i := 0;
    while i < |entries|
      invariant 0 <= i <= |entries|
      invariant contentBytes == ListSum(entries[..i], stored, ContentBytes)
      invariant storedBytes == ListSum(entries[..i], stored, StoredBytes)
      invariant notReady == ListSum(entries[..i], stored, NotReady)
      invariant leased == ListSum(entries[..i], stored, Leased)
    {
      var (hash, row) := entries[i];
      assert entries[..i + 1][..i] == entries[..i];
      contentBytes := contentBytes + row.contentSize;
      if row.leaseExpiresAt > 0 {
        leased := leased + 1;
      }
      if hash in stored {
        storedBytes := storedBytes + stored[hash];
      } else {
        notReady := notReady + 1;
      }
      i := i + 1;
    }
    assert entries[..i] == entries;
    usage := SpaceUsage(|entries|, contentBytes, storedBytes, reservedBytes, notReady, leased);
  }

  // What one listed node adds to the slow recount, given the stored object sizes.
  function EntryWeight(entry: (Hash, NodeRow), stored: map<Hash, nat>, c: Column): int {
    match c
    case Nodes => 1
    case ContentBytes => entry.1.contentSize
    case StoredBytes => if entry.0 in stored then stored[entry.0] else 0
    case NotReady => if entry.0 in stored then 0 else 1
    case Leased => if entry.1.leaseExpiresAt > 0 then 1 else 0
    case _ => 0
  }

  function ListSum(entries: seq<(Hash, NodeRow)>, stored: map<Hash, nat>, c: Column): int {
    if entries == [] then 0
    else ListSum(entries[..|entries| - 1], stored, c) + EntryWeight(entries[|entries| - 1], stored, c)
  }

  ghost predicate Lists(entries: seq<(Hash, NodeRow)>, nodes: map<Hash, NodeRow>) {
    && |entries| == |nodes|
    && (forall i :: 0 <= i < |entries| ==> entries[i].0 in nodes && nodes[entries[i].0] == entries[i].1)
    && (forall i, j :: 0 <= i < j < |entries| ==> entries[i].0 != entries[j].0)
  }

  // Every node row has been observed and records what the object store holds.
  ghost predicate Observed(nodes: map<Hash, NodeRow>, stored: map<Hash, nat>) {
    forall h :: h in nodes ==>
      nodes[h].observedAt.Some? && nodes[h].storedBytes == if h in stored then Some(stored[h]) else None
  }

  /** On fully observed nodes the projection's counters are the counters of the slow recount. */
  lemma {:induction false} ProjectionEqualsSlowRecount(
    entries: seq<(Hash, NodeRow)>, nodes: map<Hash, NodeRow>, stored: map<Hash, nat>, c: Column)
    requires Lists(entries, nodes) && Observed(nodes, stored)
    ensures NodeSum(nodes, c) == ListSum(entries, stored, c)
    decreases |entries|
  {
    if entries == [] {
      assert nodes == map[];
    } else {
      var last := |entries| - 1;
      var hash := entries[last].0;
      NodeSumRemove(nodes, c, hash);
      ProjectionEqualsSlowRecount(entries[..last], nodes - {hash}, stored, c);
    }
  }
}
