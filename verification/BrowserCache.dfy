// The browser's node cache: a memory of recently used entries under a byte limit,
// generations that cut off operations begun before an invalidation, and the
// eviction of the persisted copies.
module BrowserCache {
  import opened Prelude

  type Id = string

  datatype Entry = Entry(id: Id, bytes: nat, touched: int, value: bytes)

  // An operation that waits for the database: the generation it began in, and what it found in memory.
  datatype Ticket = Ticket(id: Id, epoch: nat, found: Option<Entry>)

  // ----- entries in order of use, oldest first -----

  function HeldBytes(entries: seq<Entry>): nat {
    if entries == [] then 0 else entries[0].bytes + HeldBytes(entries[1..])
  }

  function Without(entries: seq<Entry>, id: Id): seq<Entry> {
    if entries == [] then []
    else if entries[0].id == id then Without(entries[1..], id)
    else [entries[0]] + Without(entries[1..], id)
  }

  // What is left when the oldest entries are dropped until the limit holds.
  function Trim(entries: seq<Entry>, limit: nat): seq<Entry> {
    if HeldBytes(entries) <= limit then entries else Trim(entries[1..], limit)
  }

  /** The memory after `entry` was used last. */
  function Remembered(entries: seq<Entry>, entry: Entry, limit: nat): seq<Entry> {
    if entry.bytes > limit then Without(entries, entry.id)
    else Trim(Without(entries, entry.id) + [entry], limit)
  }

  ghost predicate DistinctIds(entries: seq<Entry>) {
    forall i, j :: 0 <= i < j < |entries| ==> entries[i].id != entries[j].id
  }

  // Least recently used first.
  ghost predicate InOrderOfUse(entries: seq<Entry>, latest: int) {
    && (forall i, j :: 0 <= i < j < |entries| ==> entries[i].touched < entries[j].touched)
    && (forall i :: 0 <= i < |entries| ==> entries[i].touched <= latest)
  }

  lemma {:induction false} HeldBytesAppend(entries: seq<Entry>, e: Entry)
    ensures HeldBytes(entries + [e]) == HeldBytes(entries) + e.bytes
  {
    if entries == [] {
      assert entries + [e] == [e];
    } else {
      assert (entries + [e])[1..] == entries[1..] + [e];
      HeldBytesAppend(entries[1..], e);
    }
  }

  lemma {:induction false} WithoutMembers(entries: seq<Entry>, id: Id, e: Entry)
    ensures e in Without(entries, id) <==> e in entries && e.id != id
  {
    if entries != [] {
      WithoutMembers(entries[1..], id, e);
      assert e in entries <==> e == entries[0] || e in entries[1..];
    }
  }

  lemma {:induction false} WithoutKeeps(entries: seq<Entry>, id: Id, latest: int)
    ensures DistinctIds(entries) ==> DistinctIds(Without(entries, id))
    ensures InOrderOfUse(entries, latest) ==> InOrderOfUse(Without(entries, id), latest)
  {
    if entries != [] {
      WithoutKeeps(entries[1..], id, latest);
      if entries[0].id != id {
        HeadStaysFirst(entries, id, latest);
        assert Without(entries, id) == [entries[0]] + Without(entries[1..], id);
      }
    }
  }

  lemma HeadStaysFirst(entries: seq<Entry>, id: Id, latest: int)
    requires entries != []
    ensures var rest := Without(entries[1..], id);
            && (DistinctIds(entries) ==> forall j :: 0 <= j < |rest| ==> entries[0].id != rest[j].id)
            && (InOrderOfUse(entries, latest) ==> forall j :: 0 <= j < |rest| ==> entries[0].touched < rest[j].touched)
  {
    var rest := Without(entries[1..], id);
    forall j | 0 <= j < |rest|
      ensures DistinctIds(entries) ==> entries[0].id != rest[j].id
      ensures InOrderOfUse(entries, latest) ==> entries[0].touched < rest[j].touched
    {
      WithoutMembers(entries[1..], id, rest[j]);
      var k :| 0 <= k < |entries[1..]| && entries[1..][k] == rest[j];
      assert entries[k + 1] == rest[j];
    }
  }

  // Taking one entry out of a distinct list takes its bytes out of the total.
  lemma {:induction false} WithoutHeldBytes(entries: seq<Entry>, id: Id)
    requires DistinctIds(entries)
    ensures forall e :: e in entries && e.id == id ==> HeldBytes(Without(entries, id)) == HeldBytes(entries) - e.bytes
    ensures (forall e :: e in entries ==> e.id != id) ==> Without(entries, id) == entries
  {
    if entries != [] {
      WithoutHeldBytes(entries[1..], id);
      assert entries == [entries[0]] + entries[1..];
      if entries[0].id == id {
        assert forall e :: e in entries[1..] ==> e.id != id;
        assert forall e :: e in entries && e.id == id ==> e == entries[0];
      }
    }
  }

  /** Trimming drops a prefix, the least recently used entries, and no more of it than the limit needs. */
  lemma {:induction false} TrimDropsOldest(entries: seq<Entry>, limit: nat) returns (dropped: nat)
    ensures dropped <= |entries| && Trim(entries, limit) == entries[dropped..]
    ensures HeldBytes(entries[dropped..]) <= limit
    ensures dropped > 0 ==> HeldBytes(entries[dropped - 1..]) > limit
  {
    if HeldBytes(entries) <= limit {
      dropped := 0;
    } else {
      var more := TrimDropsOldest(entries[1..], limit);
      dropped := more + 1;
      assert entries[1..][more..] == entries[dropped..];
      if more > 0 {
        assert entries[1..][more - 1..] == entries[dropped - 1..];
      } else {
        assert entries[0..] == entries;
      }
    }
  }

  /** The entry just used is never the one dropped. */
  lemma {:induction false} TrimKeepsTheLast(entries: seq<Entry>, entry: Entry, limit: nat)
    requires entry.bytes <= limit
    ensures var r := Trim(entries + [entry], limit); r != [] && r[|r| - 1] == entry
  {
    if HeldBytes(entries + [entry]) > limit {
      HeldBytesAppend(entries, entry);
      assert entries != [];
      assert (entries + [entry])[1..] == entries[1..] + [entry];
      TrimKeepsTheLast(entries[1..], entry, limit);
    }
  }

  lemma SuffixMembers(entries: seq<Entry>, dropped: nat)
    requires dropped <= |entries|
    ensures forall i :: dropped <= i < |entries| ==> entries[i] in entries[dropped..]
  {
    forall i | dropped <= i < |entries|
      ensures entries[i] in entries[dropped..]
    {
      assert entries[dropped..][i - dropped] == entries[i];
    }
  }

  /** Whatever is evicted was used before everything that stays. */
  lemma EvictsLeastRecentlyUsed(entries: seq<Entry>, entry: Entry, limit: nat, evicted: Entry, kept: Entry)
    requires DistinctIds(entries) && InOrderOfUse(entries, entry.touched - 1) && entry.bytes <= limit
    requires evicted in entries && evicted.id != entry.id && evicted !in Remembered(entries, entry, limit)
    requires kept in Remembered(entries, entry, limit)
    ensures evicted.touched < kept.touched
  {
    hide HeldBytes, Without, Trim;
    WithoutKeeps(entries, entry.id, entry.touched - 1);
    WithoutMembers(entries, entry.id, evicted);
    var all := Without(entries, entry.id) + [entry];
    var dropped := TrimDropsOldest(all, limit);
    SuffixMembers(all, dropped);
    assert evicted in Without(entries, entry.id);
    assert evicted in all;
    var i :| 0 <= i < |all| && all[i] == evicted;
    var j :| 0 <= j < |all[dropped..]| && all[dropped..][j] == kept;
    assert all[dropped + j] == kept;
  }

  /** Accounting: the remembered entries stay distinct, in order of use and within the limit. */
  lemma RememberedIsLegal(entries: seq<Entry>, entry: Entry, limit: nat)
    requires DistinctIds(entries) && InOrderOfUse(entries, entry.touched - 1) && HeldBytes(entries) <= limit
    ensures var r := Remembered(entries, entry, limit);
            && DistinctIds(r) && InOrderOfUse(r, entry.touched) && HeldBytes(r) <= limit
            && forall e :: e in r ==> e == entry || e in entries
  {
    hide HeldBytes, Without, Trim;
    var others := Without(entries, entry.id);
    WithoutKeeps(entries, entry.id, entry.touched - 1);
    WithoutIsSmaller(entries, entry.id);
    forall e | e in others
      ensures e in entries && e.id != entry.id
    {
      WithoutMembers(entries, entry.id, e);
    }
    if entry.bytes <= limit {
      var dropped := TrimDropsOldest(others + [entry], limit);
      SuffixIsLegal(others, entry, dropped);
    }
  }

  lemma WithoutIsSmaller(entries: seq<Entry>, id: Id)
    requires DistinctIds(entries)
    ensures HeldBytes(Without(entries, id)) <= HeldBytes(entries)
  {
    WithoutHeldBytes(entries, id);
    if e :| e in entries && e.id == id {
      assert HeldBytes(Without(entries, id)) == HeldBytes(entries) - e.bytes;
    }
  }

  lemma SuffixIsLegal(others: seq<Entry>, entry: Entry, dropped: nat)
    requires DistinctIds(others) && InOrderOfUse(others, entry.touched - 1) && dropped <= |others + [entry]|
    requires forall e :: e in others ==> e.id != entry.id
    ensures var r := (others + [entry])[dropped..];
            DistinctIds(r) && InOrderOfUse(r, entry.touched) && forall e :: e in r ==> e == entry || e in others
  {
    var all := others + [entry];
    assert DistinctIds(all) && InOrderOfUse(all, entry.touched);
    forall e | e in all[dropped..]
      ensures e == entry || e in others
    {
      assert e in all;
    }
  }

  // ----- the memory after a use, said without computing it -----

  ghost predicate Evicted(before: seq<Entry>, after: seq<Entry>, entry: Entry, e: Entry) {
    e in before && e.id != entry.id && e !in after
  }

  /**
   * An entry over the limit is forgotten and nothing else happens. Any other is the last one used; what was
   * evicted for it was used before everything that stays, and with the latest of that the limit would not hold.
   */
  ghost predicate Uses(before: seq<Entry>, after: seq<Entry>, entry: Entry, limit: nat) {
    if entry.bytes > limit
    then forall e :: e in after <==> e in before && e.id != entry.id
    else
      && after != [] && after[|after| - 1] == entry
      && (forall e :: e in after ==> e == entry || (e in before && e.id != entry.id))
      && (forall e, kept :: Evicted(before, after, entry, e) && kept in after ==> e.touched < kept.touched)
      && forall e ::
           && Evicted(before, after, entry, e)
           && (forall other :: Evicted(before, after, entry, other) ==> other.touched <= e.touched)
           ==> e.bytes + HeldBytes(after) > limit
  }

  /** The bytes held are those of the entries, one by one. */
  lemma {:induction false} HeldBytesAddUp(entries: seq<Entry>, more: seq<Entry>)
    ensures HeldBytes([]) == 0
    ensures forall e :: HeldBytes([e]) == e.bytes
    ensures HeldBytes(entries + more) == HeldBytes(entries) + HeldBytes(more)
  {
    if entries == [] {
      assert entries + more == more;
    } else {
      assert (entries + more)[1..] == entries[1..] + more;
      HeldBytesAddUp(entries[1..], more);
    }
  }

  lemma RememberedUses(entries: seq<Entry>, entry: Entry, limit: nat)
    requires DistinctIds(entries) && InOrderOfUse(entries, entry.touched - 1)
    ensures Uses(entries, Remembered(entries, entry, limit), entry, limit)
  {
    hide HeldBytes, Without, Trim, DistinctIds, InOrderOfUse;
    var others, after := Without(entries, entry.id), Remembered(entries, entry, limit);
    forall e
      ensures e in others <==> e in entries && e.id != entry.id
    {
      WithoutMembers(entries, entry.id, e);
    }
    if entry.bytes <= limit {
      TrimKeepsTheLast(others, entry, limit);
      forall e, kept | Evicted(entries, after, entry, e) && kept in after
        ensures e.touched < kept.touched
      {
        EvictsLeastRecentlyUsed(entries, entry, limit, e, kept);
      }
      var dropped := TrimDropsOldest(others + [entry], limit);
      forall e | e in after
        ensures e == entry || (e in entries && e.id != entry.id)
      {
        assert e in others + [entry];
      }
      LatestEvicted(entries, entry, limit, others, dropped);
    }
  }

  lemma LatestEvicted(entries: seq<Entry>, entry: Entry, limit: nat, others: seq<Entry>, dropped: nat)
    requires DistinctIds(entries) && InOrderOfUse(entries, entry.touched - 1) && entry.bytes <= limit
    requires others == Without(entries, entry.id) && dropped <= |others + [entry]|
    requires var all := others + [entry];
             && Remembered(entries, entry, limit) == all[dropped..]
             && (dropped > 0 ==> HeldBytes(all[dropped - 1..]) > limit)
    ensures var after := Remembered(entries, entry, limit);
            forall e ::
              && Evicted(entries, after, entry, e)
              && (forall other :: Evicted(entries, after, entry, other) ==> other.touched <= e.touched)
              ==> e.bytes + HeldBytes(after) > limit
  {
    hide Without, Trim;
    var all, after := others + [entry], Remembered(entries, entry, limit);
    WithoutKeeps(entries, entry.id, entry.touched - 1);
    SuffixMembers(all, dropped);
    TrimKeepsTheLast(others, entry, limit);
    forall e |
      && Evicted(entries, after, entry, e)
      && forall other :: Evicted(entries, after, entry, other) ==> other.touched <= e.touched
      ensures e.bytes + HeldBytes(after) > limit
    {
      WithoutMembers(entries, entry.id, e);
      var i :| 0 <= i < |others| && others[i] == e;
      assert all[i] == e && i < dropped;
      IsEvicted(entries, entry, others, dropped, dropped - 1);
      assert others[dropped - 1].touched <= e.touched;
      assert i == dropped - 1;
      assert all[dropped - 1..] == [e] + all[dropped..];
    }
  }

  lemma IsEvicted(entries: seq<Entry>, entry: Entry, others: seq<Entry>, dropped: nat, i: nat)
    requires DistinctIds(others) && InOrderOfUse(others, entry.touched - 1) && others == Without(entries, entry.id)
    requires i < dropped <= |others|
    ensures Evicted(entries, (others + [entry])[dropped..], entry, others[i])
  {
    var e, after := others[i], (others + [entry])[dropped..];
    WithoutMembers(entries, entry.id, e);
    forall j | 0 <= j < |after|
      ensures after[j] != e
    {
      assert after[j] == (others + [entry])[dropped + j];
    }
  }

  // ----- the cache -----

  class NodeCache {
    const maxBytes: nat
    const maxMemoryBytes: nat
    const maxEntryBytes: nat
    var memory: seq<Entry>
    var memoryBytes: int
    var generation: nat
    var closed: bool
    var clock: int

    // The generation in which the operation began that put an entry into memory.
    ghost var begun: map<Id, nat>

    /** The byte count is exact and within its limit, and every entry was added by an operation of this generation. */
    ghost predicate Valid()
      reads this
    {
      && memoryBytes == HeldBytes(memory) <= maxMemoryBytes
      && DistinctIds(memory) && InOrderOfUse(memory, clock)
      && (forall e :: e in memory ==> e.id in begun && begun[e.id] == generation)
      && (closed ==> memory == [])
    }

    constructor (maxBytes: nat, maxMemoryBytes: nat, maxEntryBytes: nat, now: int)
      ensures Valid() && memory == [] && generation == 0 && !closed
    {
      this.maxBytes, this.maxMemoryBytes, this.maxEntryBytes := maxBytes, maxMemoryBytes, maxEntryBytes;
      memory, memoryBytes, generation, closed, clock, begun := [], 0, 0, false, now, map[];
    }

    // A time later than every earlier one, whatever the wall clock says.
    method Tick(now: int) returns (time: int)
      requires Valid()
      modifies this`clock
      ensures Valid() && time == clock > old(clock)
    {
      clock := Max(clock + 1, now);
      time := clock;
    }

    /** Makes the entry the most recently used one and evicts from the other end until the limit holds. */
    method Remember(entry: Entry, ghost epoch: nat)
      requires Valid() && !closed && epoch == generation && entry.touched == clock
      requires InOrderOfUse(memory, clock - 1)
      modifies this`memory, this`memoryBytes, this`begun
      ensures Valid() && memory == Remembered(old(memory), entry, maxMemoryBytes)
      ensures Uses(old(memory), memory, entry, maxMemoryBytes)
    {
      hide HeldBytes, Without, Trim, Uses;
      ghost var before := memory;
      RememberedIsLegal(memory, entry, maxMemoryBytes);
      RememberedUses(memory, entry, maxMemoryBytes);
      begun := begun[entry.id := epoch];
      Forget(entry.id);
      if entry.bytes > maxMemoryBytes {
        return;
      }
      HeldBytesAppend(memory, entry);
      memory := memory + [entry];
      memoryBytes := memoryBytes + entry.bytes;
      while memoryBytes > maxMemoryBytes
        invariant memoryBytes == HeldBytes(memory) && begun == old(begun)[entry.id := epoch]
        invariant Trim(memory, maxMemoryBytes) == Remembered(before, entry, maxMemoryBytes)
        decreases |memory|
      {
        TrimStep(memory, maxMemoryBytes);
        memoryBytes := memoryBytes - memory[0].bytes;
        memory := memory[1..];
      }
      TrimDone(memory, maxMemoryBytes);
    }

    // memory.delete(id), with the count adjusted.
    method Forget(id: Id)
      requires memoryBytes == HeldBytes(memory) && DistinctIds(memory)
      modifies this`memory, this`memoryBytes
      ensures memory == Without(old(memory), id) && memoryBytes == HeldBytes(memory)
    {
      WithoutHeldBytes(memory, id);
      if exists i :: 0 <= i < |memory| && memory[i].id == id {
        var i :| 0 <= i < |memory| && memory[i].id == id;
        memoryBytes := memoryBytes - memory[i].bytes;
        memory := Without(memory, id);
      }
    }

    // The start of a read: note the generation and look into memory.
    method BeginGet(id: Id) returns (ticket: Option<Ticket>)
      requires Valid()
      ensures ticket.None? <==> closed
      ensures ticket.Some? ==>
                && ticket.value.id == id && ticket.value.epoch == generation
                && (ticket.value.found.Some? ==> ticket.value.found.value in memory && ticket.value.found.value.id == id)
                && (ticket.value.found.None? ==> forall e :: e in memory ==> e.id != id)
    {
      if closed {
        return None;
      }
      if exists i :: 0 <= i < |memory| && memory[i].id == id {
        var i :| 0 <= i < |memory| && memory[i].id == id;
        ticket := Some(Ticket(id, generation, Some(memory[i])));
      } else {
        ticket := Some(Ticket(id, generation, None));
      }
    }

    /**
     * The rest of a read, after the database answered. If the cache was invalidated or closed in
     * between it returns nothing and leaves the memory alone.
     */
    method ResumeGet(ticket: Ticket, persisted: Option<Entry>, now: int) returns (r: Option<Entry>)
      requires Valid() && (persisted.Some? ==> persisted.value.id == ticket.id)
      requires ticket.found.Some? ==> ticket.found.value.id == ticket.id
      modifies this
      ensures Valid() && generation == old(generation) && closed == old(closed) && clock >= old(clock)
      ensures closed || ticket.epoch != generation ==> r.None? && memory == old(memory)
      ensures r.Some? <==> !closed && ticket.epoch == generation && (ticket.found.Some? || persisted.Some?)
      ensures r.Some? ==>
                && r.value == (if ticket.found.Some? then ticket.found.value else persisted.value).(touched := clock)
                && memory == Remembered(old(memory), r.value, maxMemoryBytes)
                && Uses(old(memory), memory, r.value, maxMemoryBytes)
      ensures r.None? ==> memory == old(memory)
    {
      hide Uses;
      var entry := if ticket.found.Some? then ticket.found else persisted;
      if closed || ticket.epoch != generation || entry.None? {
        return None;
      }
      var time := Tick(now);
      var touched := entry.value.(touched := time);
      Remember(touched, ticket.epoch);
      r := Some(touched);
    }

    /** Adds a loaded entry for an operation begun in `epoch`; a stale or oversized one is dropped. */
    method Put(id: Id, bytes: nat, value: Prelude.bytes, epoch: nat, now: int)
      requires Valid()
      modifies this
      ensures Valid() && generation == old(generation) && closed == old(closed) && clock > old(clock)
      ensures memory == if closed || epoch != generation || bytes > maxBytes || bytes > maxEntryBytes then old(memory)
                        else Remembered(old(memory), Entry(id, bytes, clock, value), maxMemoryBytes)
      ensures !closed && epoch == generation && bytes <= maxBytes && bytes <= maxEntryBytes ==>
                Uses(old(memory), memory, Entry(id, bytes, clock, value), maxMemoryBytes)
    {
      hide Uses;
      var time := Tick(now);
      if closed || epoch != generation || bytes > maxBytes || bytes > maxEntryBytes {
        return;
      }
      Remember(Entry(id, bytes, time, value), epoch);
    }

    method Invalidate()
      requires Valid()
      modifies this
      ensures Valid() && generation == old(generation) + 1 && memory == [] && closed == old(closed) && clock == old(clock)
    {
      generation := generation + 1;
      memory, memoryBytes := [], 0;
    }

    method Close()
      requires Valid()
      modifies this
      ensures Valid() && closed && memory == [] && generation == old(generation) + 1 && clock == old(clock)
    {
      Invalidate();
      closed := true;
    }

    /**
     * Any interleaving of reads, loads, invalidations and closing. The epoch of an operation is the
     * generation it began in; the invariant then says that what is in memory at the end was put there
     * by an operation begun after the last invalidation.
     */
    method Interleave(steps: seq<Step>)
      requires Valid()
      modifies this
      ensures Valid() && generation == old(generation) + Invalidations(steps)
      ensures closed <==> old(closed) || exists i :: 0 <= i < |steps| && steps[i].Stop?
    {
      var tickets: seq<Ticket> := [];
      for i := 0 to |steps|
        invariant Valid() && generation == old(generation) + Invalidations(steps[..i])
        invariant forall t :: t in tickets ==> t.epoch <= generation && (t.found.Some? ==> t.found.value.id == t.id)
        invariant closed <==> old(closed) || exists j :: 0 <= j < i && steps[j].Stop?
      {
        assert steps[..i + 1][..i] == steps[..i];
        match steps[i] {
          case Begin(id) =>
            var ticket := BeginGet(id);
            if ticket.Some? {
              tickets := tickets + [ticket.value];
            }
          case Resume(n, persisted, now) =>
            if n < |tickets| && (persisted.Some? ==> persisted.value.id == tickets[n].id) {
              var entry := ResumeGet(tickets[n], persisted, now);
            }
          case Load(n, bytes, value, now) =>
            if n < |tickets| {
              Put(tickets[n].id, bytes, value, tickets[n].epoch, now);
            }
          case Clear => Invalidate();
          case Stop => Close();
        }
      }
      assert steps[..|steps|] == steps;
    }
  }

  datatype Step =
    | Begin(id: Id)
    | Resume(n: nat, persisted: Option<Entry>, now: int)
    | Load(n: nat, bytes: nat, value: bytes, now: int)
    | Clear
    | Stop

  // How often the steps cut off what began before.
  ghost function Invalidations(steps: seq<Step>): nat {
    if steps == [] then 0
    else
      var last := |steps| - 1;
      Invalidations(steps[..last]) + (if steps[last].Clear? || steps[last].Stop? then 1 else 0)
  }

  lemma TrimStep(entries: seq<Entry>, limit: nat)
    requires HeldBytes(entries) > limit
    ensures entries != [] && Trim(entries, limit) == Trim(entries[1..], limit)
    ensures HeldBytes(entries[1..]) == HeldBytes(entries) - entries[0].bytes
  {
  }

  lemma TrimDone(entries: seq<Entry>, limit: nat)
    requires HeldBytes(entries) <= limit
    ensures Trim(entries, limit) == entries
  {
  }

  // ----- the persisted copies -----

  ghost predicate ByUse(entries: seq<Entry>) {
    forall i, j :: 0 <= i < j < |entries| ==> entries[i].touched <= entries[j].touched
  }

  /** Deletes the oldest of the namespace's entries, given in order of use, until the limit holds, and no more. */
  method EvictPersisted(entries: seq<Entry>, maxBytes: nat) returns (kept: seq<Entry>)
    requires ByUse(entries)
    ensures kept == Trim(entries, maxBytes)
    ensures exists dropped: nat ::
              && dropped <= |entries| && kept == entries[dropped..] && HeldBytes(kept) <= maxBytes
              && (dropped > 0 ==> HeldBytes(entries[dropped - 1..]) > maxBytes)
  {
    ghost var dropped := TrimDropsOldest(entries, maxBytes);
    var total := HeldBytes(entries);
    var next := 0;
    assert entries[0..] == entries;
    while next < |entries| && total > maxBytes
      invariant 0 <= next <= |entries| && total == HeldBytes(entries[next..])
      invariant Trim(entries[next..], maxBytes) == Trim(entries, maxBytes)
    {
      assert entries[next..][1..] == entries[next + 1..];
      total := total - entries[next].bytes;
      next := next + 1;
    }
    kept := entries[next..];
  }
}
