// Writing one node into a Space: the client asks for a lease, uploads what the answer
// asks for, and asks again. Between its requests other writers, collections and
// clean-ups use the same Space, and any request or reply can be lost.
module NodeUpload {
  import opened Prelude
  import opened Codec
  import opened SpaceStore
  import opened SpaceInvariant
  import opened SpaceTheorems
  import opened SpaceActor

  // ----- what a Space serves -----

  // The node a canonical object spells.
  function NodeIn(content: bytes): (r: Option<Node>)
    ensures r.Some? ==> ParseNode(content, DEFAULT_LIMITS).Ok?
  {
    var parsed := ParseNode(content, DEFAULT_LIMITS);
    if parsed.Err? || PrefixLength(parsed.value.contentType, parsed.value.refs) > |content| then None
    else
      var m := parsed.value;
      Some(Node(m.contentType, m.refs, content[PrefixLength(m.contentType, m.refs)..]))
  }

  // The nodes a Space serves: those with a row and a canonical object.
  function Served(s: Store): map<Hash, Node> {
    map h | h in s.tables.nodes && h in s.objects && NodeIn(s.objects[h]).Some? :: NodeIn(s.objects[h]).value
  }

  /** What a Space serves is what its clients assume: legal nodes under their digest. */
  lemma ServedIsLegal(digest: Digest, w: World, hash: Hash)
    requires Inv(digest, w) && hash in Served(w.store)
    ensures LegalNode(Served(w.store)[hash], DEFAULT_LIMITS) && digest(Encode(Served(w.store)[hash])) == hash
    ensures Encode(Served(w.store)[hash]) == w.store.objects[hash] && w.store.objects[hash] in w.history.seen
  {
    hide ParseNode, LegalNode, GraphInv, RowsDescribed, UploadsWitnessed, MissingOnlyExpired;
    ParseThenEncode(w.store.objects[hash], DEFAULT_LIMITS);
  }

  // ----- leases held up to a time -----

  // Present nodes whose lease does not end before `floor`.
  ghost function Leased(s: Store, floor: int): set<Hash> {
    set h | h in s.tables.nodes && h in s.objects && s.tables.nodes[h].leaseExpiresAt >= floor
  }

  ghost predicate StaysLeased(s: Store, s': Store, floor: int, hash: Hash) {
    hash in Leased(s', floor) && hash in s.objects && s'.objects[hash] == s.objects[hash]
  }

  // What was leased that long is so still, byte for byte.
  ghost predicate Keeps(w: World, w': World, floor: int) {
    && w.history.seen <= w'.history.seen
    && forall h :: h in Leased(w.store, floor) ==> StaysLeased(w.store, w'.store, floor, h)
  }

  lemma KeepsReflexive(w: World, floor: int)
    ensures Keeps(w, w, floor)
  {
  }

  lemma KeepsTransitive(a: World, b: World, c: World, floor: int)
    requires Keeps(a, b, floor) && Keeps(b, c, floor)
    ensures Keeps(a, c, floor)
  {
  }

  lemma ActionKeepsLeased(digest: Digest, w: World, a: Action, floor: int, hash: Hash)
    requires Inv(digest, w) && Enabled(digest, w, a) && (a.DeleteObject? ==> a.cutoff < floor)
    requires hash in Leased(w.store, floor)
    ensures StaysLeased(w.store, Apply(w, a).store, floor, hash)
  {
    hide Inv, Enabled, Apply;
    ActionKeepsPath(digest, w, a, floor - 1, [hash]);
    assert Kept(w, Apply(w, a), [hash][0]);
    LeaseNeverDecreases(digest, w, a, hash);
  }

  /** Over any run whose collections stay below it, whatever is leased up to `floor` stays so, byte for byte. */
  lemma {:induction false} RunKeepsLeased(digest: Digest, w: World, actions: seq<Action>, floor: int)
    requires Inv(digest, w) && IsRun(digest, w, actions) && CutoffsWithin(actions, floor - 1)
    ensures Keeps(w, Exec(w, actions), floor)
    decreases |actions|
  {
    hide Inv, Enabled, Apply, StaysLeased, Leased;
    if actions == [] {
      KeepsReflexive(w, floor);
    } else {
      var w' := Apply(w, actions[0]);
      StepKeepsInv(digest, w, actions[0]);
      forall h | h in Leased(w.store, floor)
        ensures StaysLeased(w.store, w'.store, floor, h)
      {
        ActionKeepsLeased(digest, w, actions[0], floor, h);
      }
      SeenOnlyGrows(w, actions[0]);
      RunKeepsLeased(digest, w', actions[1..], floor);
      KeepsTransitive(w, w', Exec(w, actions), floor);
    }
  }

  lemma SeenOnlyGrows(w: World, a: Action)
    ensures w.history.seen <= Apply(w, a).history.seen
  {
    hide Batch;
  }

  // So does every operation of the Space, wherever it was interrupted.
  lemma OperationKeepsLeased(
    digest: Digest, origin: World, before: seq<Action>, after: seq<Action>, used: Option<int>, floor: int)
    requires IsRun(digest, origin, before) && IsRun(digest, origin, after) && Extends(before, after, used)
    requires Inv(digest, Exec(origin, before)) && (used.Some? ==> used.value < floor)
    ensures Keeps(Exec(origin, before), Exec(origin, after), floor)
  {
    hide Inv, Enabled, Apply, Leased;
    var actions := after[|before|..];
    assert after == before + actions;
    ExecConcat(digest, origin, before, actions);
    RunKeepsLeased(digest, Exec(origin, before), actions, floor);
  }

  // No upload is under way, and every row has its object and every object its row.
  ghost predicate Idle(s: Store) {
    s.uploads == map[] && s.temporary == map[] && s.objects.Keys == s.tables.nodes.Keys
  }

  // One upload is under way: the record is there and its object is not.
  ghost predicate Asked(s: Store, hash: Hash, upload: Upload) {
    && s.uploads == map[hash := upload] && s.temporary == map[] && s.objects.Keys == s.tables.nodes.Keys
    && hash !in s.tables.nodes && upload.validation.None?
  }

  // Undisturbed, the writer is done, or has to upload first.
  ghost predicate Proceeds(s: Store, hash: Hash, attempt: nat, r: LeaseResult) {
    (attempt <= 1 && r.ReadyLease? && Idle(s)) || (attempt == 0 && r.AwaitingUpload? && Asked(s, hash, r.upload))
  }

  // ----- the writer -----

  // What another user of the Space does between two requests of the writer.
  datatype Request =
    | LeaseFor(hash: Hash, durationMs: int, now: int, at: nat, identifiers: nat -> (Key, Key))
    | Put(key: Key, content: bytes)
    | Collect(maxNodes: nat, cutoff: int, at: nat)
    | CleanUp(now: int, limit: nat)

  // One request: what happens before it, its time, and whether it and its answer arrive.
  datatype Round = Round(others: seq<Request>, now: int, at: nat, sent: bool, answered: bool)

  datatype Settings = Settings(durationMs: int, sessionMs: int, cleanupMs: int, maxActiveUploads: nat)

  datatype WriteError = RequestLost | LeaseRefused(error: LeaseError) | ChildNotReady | Rejected(rejection: Rejection) | NotReady

  class NodeWriter {
    const space: Space
    const settings: Settings
    const rounds: nat -> Round
    const identifiers: nat -> (Key, Key)
    ghost const floor: int
    var clock: nat

    // Collections of others end below the floor, and every lease asked for reaches it.
    ghost predicate InTime() {
      forall n :: (forall o :: o in rounds(n).others && o.Collect? ==> o.cutoff < floor)
                  && rounds(n).now + ClampLeaseDuration(settings.durationMs) >= floor
    }

    ghost predicate Valid()
      reads this, space
    {
      space.Valid() && InTime()
    }

    // Nobody else uses the Space, and no call is lost.
    ghost predicate Quiet() {
      && space.Benign() && settings.sessionMs > 0 && settings.maxActiveUploads > 0
      && forall n :: rounds(n).others == [] && rounds(n).sent && rounds(n).answered
    }

    constructor (space: Space, settings: Settings, rounds: nat -> Round, identifiers: nat -> (Key, Key), ghost floor: int)
      requires space.Valid()
      requires forall n :: (forall o :: o in rounds(n).others && o.Collect? ==> o.cutoff < floor)
                           && rounds(n).now + ClampLeaseDuration(settings.durationMs) >= floor
      ensures Valid() && this.space == space && this.settings == settings && this.rounds == rounds && this.floor == floor
    {
      this.space, this.settings, this.rounds, this.identifiers, this.floor := space, settings, rounds, identifiers, floor;
      clock := 0;
    }

    // One request of another user.
    method Serve(request: Request)
      requires Valid() && (request.Collect? ==> request.cutoff < floor)
      modifies space
      ensures Valid() && Keeps(old(space.W()), space.W(), floor)
      ensures forall h :: h in space.tables.nodes ==> Capped(old(space.S()), space.S(), [request], h)
    {
      hide Inv, Enabled, Leased, Keeps, Extends, Evaluated, Answers, Progresses, Admits, Recovers, PassResult;
      hide OnlyExpires, CleansUp, Interferes, Shrinks, Capped;
      ghost var before, start := space.log, space.S();
      ghost var used: Option<int> := None;
      match request {
        case LeaseFor(hash, durationMs, now, at, identifiers) =>
          var r := space.LeaseDrivenNodeUpload(hash, durationMs, now, at, identifiers, settings.sessionMs,
                                               settings.cleanupMs, settings.maxActiveUploads);
          EvaluationCaps(start, space.S(), request, r);
        case Put(key, content) =>
          space.Happen(ClientPut(key, content));
          InterferenceShrinks(start, space.S());
          ShrinkingCaps(start, space.S(), request);
        case Collect(maxNodes, cutoff, at) =>
          used := Some(cutoff);
          if maxNodes > 0 {
            var r := space.CollectExpiredUnreferencedNodes(maxNodes, cutoff, at);
          } else {
            NothingLogged(before, used);
            ShrinksToItself(start);
          }
          ShrinkingCaps(start, space.S(), request);
        case CleanUp(now, limit) =>
          ghost var due := Overdue(start, now);
          var deleted := space.CleanupExpiredUploads(now, limit);
          ExpiryShrinks(start, space.S(), due);
          ShrinkingCaps(start, space.S(), request);
      }
      OperationKeepsLeased(space.digest, space.origin, before, space.log, used, floor);
    }

    /**
     * The other users' requests before one of the writer's. However often a node is renewed among
     * them, its lease ends no more than a day past a clock at which one of them leased it.
     */
    method ServeOthers(requests: seq<Request>)
      requires Valid() && forall o :: o in requests && o.Collect? ==> o.cutoff < floor
      modifies space
      ensures Valid() && Keeps(old(space.W()), space.W(), floor)
      ensures forall h :: h in space.tables.nodes ==> Capped(old(space.S()), space.S(), requests, h)
      ensures requests == [] ==> space.S() == old(space.S())
    {
      hide Space.Valid, Keeps, Capped;
      KeepsReflexive(space.W(), floor);
      NothingRequested(space.S());
      for i := 0 to |requests|
        invariant Valid() && Keeps(old(space.W()), space.W(), floor)
        invariant forall h :: h in space.tables.nodes ==> Capped(old(space.S()), space.S(), requests[..i], h)
        invariant i == 0 ==> space.S() == old(space.S())
      {
        ghost var before := space.W();
        Serve(requests[i]);
        KeepsTransitive(old(space.W()), before, space.W(), floor);
        OneMoreRequest(old(space.S()), before.store, space.S(), requests, i);
      }
      assert requests[..|requests|] == requests;
    }

    // The keys a request of the writer may use up.
    function Fresh(round: nat): nat -> (Key, Key) {
      n => identifiers(2 * round + n)
    }

    ghost function NewRecord(round: nat, n: nat): Upload {
      NewUpload(Fresh(round)(n), rounds(round).now, settings.sessionMs, settings.cleanupMs, None)
    }

    // The Space's evaluation of the writer's request.
    method Evaluate(hash: Hash, round: nat) returns (r: LeaseResult)
      requires Valid()
      modifies space
      ensures Valid() && Keeps(old(space.W()), space.W(), floor)
      ensures r.ReadyLease? ==> hash in Leased(space.S(), floor)
      ensures Quiet() ==> Granted(old(space.S()), space.S(), hash, round, r)
    {
      hide Inv, Enabled, Leased, Keeps, Extends, Progresses, Admits, Recovers, Evaluated, Answers;
      ghost var before := space.log;
      ghost var start := space.S();
      r := space.LeaseDrivenNodeUpload(hash, settings.durationMs, rounds(round).now, rounds(round).at, Fresh(round),
                                       settings.sessionMs, settings.cleanupMs, settings.maxActiveUploads);
      OperationKeepsLeased(space.digest, space.origin, before, space.log, None, floor);
      LeaseReaches(start, space.S(), hash, rounds(round).now + ClampLeaseDuration(settings.durationMs), floor, r);
    }

    /** Asks for a lease; None is a lost request or a lost answer. A granted lease reaches the floor. */
    method LeaseNode(hash: Hash) returns (r: Option<LeaseResult>)
      requires Valid()
      modifies this, space
      ensures Valid() && Keeps(old(space.W()), space.W(), floor) && clock == old(clock) + 1
      ensures r.Some? && r.value.ReadyLease? ==> hash in Leased(space.S(), floor)
      ensures Quiet() ==> r.Some? && Granted(old(space.S()), space.S(), hash, old(clock), r.value)
    {
      hide Space.Valid, Keeps, Granted, Leased;
      var round := clock;
      clock := clock + 1;
      ServeOthers(rounds(round).others);
      if !rounds(round).sent {
        return None;
      }
      ghost var before := space.W();
      var lease := Evaluate(hash, round);
      KeepsTransitive(old(space.W()), before, space.W(), floor);
      r := if rounds(round).answered then Some(lease) else None;
    }

    /** Uploads the content; an object that is there already is as good, so only a lost request fails. */
    method PutContent(key: Key, content: bytes) returns (ok: bool)
      requires Valid()
      modifies this, space
      ensures Valid() && Keeps(old(space.W()), space.W(), floor)
      ensures ok ==> key in space.temporary
      ensures Quiet() ==> ok && space.S() == old(space.S()).(temporary := PutOnce(old(space.temporary), key, content))
    {
      hide Space.Valid, Keeps, Leased;
      var round := clock;
      clock := clock + 1;
      ServeOthers(rounds(round).others);
      if !rounds(round).sent {
        return false;
      }
      ghost var before := space.W();
      Upload(key, content);
      KeepsTransitive(old(space.W()), before, space.W(), floor);
      ok := rounds(round).answered;
    }

    method Upload(key: Key, content: bytes)
      requires Valid()
      modifies space
      ensures Valid() && Keeps(old(space.W()), space.W(), floor)
      ensures space.S() == old(space.S()).(temporary := PutOnce(old(space.temporary), key, content))
    {
      hide Inv, Enabled, Leased, Keeps, Extends, Interferes, OnlyPuts;
      ghost var before := space.log;
      space.Happen(ClientPut(key, content));
      OperationKeepsLeased(space.digest, space.origin, before, space.log, None, floor);
    }

    // The children an answer names, one after the other; each must be ready.
    method LeaseChildren(children: seq<Hash>) returns (error: Option<WriteError>)
      requires Valid()
      modifies this, space
      ensures Valid() && Keeps(old(space.W()), space.W(), floor)
      ensures error.None? ==> forall c :: c in children ==> c in Leased(space.S(), floor)
    {
      hide Space.Valid, Keeps, Granted, Leased;
      KeepsReflexive(space.W(), floor);
      for i := 0 to |children|
        invariant Valid() && Keeps(old(space.W()), space.W(), floor)
        invariant forall j :: 0 <= j < i ==> children[j] in Leased(space.S(), floor)
      {
        ghost var before := space.W();
        var child := LeaseNode(children[i]);
        KeepsTransitive(old(space.W()), before, space.W(), floor);
        LeasedStays(before, space.W(), floor);
        if child.None? {
          return Some(RequestLost);
        }
        if !child.value.ReadyLease? {
          return Some(if child.value.Failed? then LeaseRefused(child.value.error) else ChildNotReady);
        }
      }
      error := None;
    }

    // What one answer asks of the writer: its children's leases, or the content.
    method Comply(answer: LeaseResult, content: bytes, uploaded: bool) returns (error: Option<WriteError>)
      requires Valid() && !answer.ReadyLease?
      modifies this, space
      ensures Valid() && Keeps(old(space.W()), space.W(), floor)
      ensures error.None? ==>
                match answer
                case AwaitingChildren(children) => forall c :: c in children ==> c in Leased(space.S(), floor)
                case AwaitingUpload(upload) => upload.temporaryKey in space.temporary
                case AwaitingReplacement(upload, _) => !uploaded && upload.temporaryKey in space.temporary
                case _ => false
      ensures Quiet() && answer.AwaitingUpload? ==>
                && error.None?
                && space.S() == old(space.S()).(temporary := PutOnce(old(space.temporary), answer.upload.temporaryKey, content))
    {
      hide Space.Valid, Keeps, Leased;
      KeepsReflexive(space.W(), floor);
      match answer {
        case Failed(e) => return Some(LeaseRefused(e));
        case AwaitingChildren(children) => error := LeaseChildren(children);
        case AwaitingReplacement(upload, rejection) =>
          if uploaded {
            return Some(Rejected(rejection));
          }
          var ok := PutContent(upload.temporaryKey, content);
          error := if ok then None else Some(RequestLost);
        case AwaitingUpload(upload) =>
          var ok := PutContent(upload.temporaryKey, content);
          error := if ok then None else Some(RequestLost);
      }
    }
    // Nothing stands in the way of writing the node.
    ghost predicate Writable(s: Store, node: Node) {
      && Quiet() && Idle(s) && LegalNode(node, DEFAULT_LIMITS)
      && forall c :: c in node.refs ==> c in Leased(s, floor)
    }

    // Asks, and takes a refusal for an error.
    method Ask(hash: Hash) returns (r: Result<LeaseResult, WriteError>)
      requires Valid()
      modifies this, space
      ensures Valid() && Keeps(old(space.W()), space.W(), floor) && clock == old(clock) + 1
      ensures r.Ok? ==> !r.value.Failed? && (r.value.ReadyLease? ==> hash in Leased(space.S(), floor))
      ensures Quiet() ==>
                (r.Ok? || r.error.LeaseRefused?)
                && Granted(old(space.S()), space.S(), hash, old(clock), if r.Ok? then r.value else Failed(r.error.error))
    {
      hide Space.Valid, Keeps, Granted, Leased;
      var answer := LeaseNode(hash);
      r := match answer
           case None => Err(RequestLost)
           case Some(Failed(e)) => Err(LeaseRefused(e))
           case Some(result) => Ok(result);
    }

    /**
     * Writes one node: at most three rounds of answer and compliance. Whatever is lost, refused or
     * done by others in between, what was leased to the floor stays so, and a success means that the
     * node is there, leased to the floor. In an idle Space, undisturbed, a legal node whose references
     * are leased is written, and the Space is idle again.
     */
    method UploadCanonicalNode(node: Node) returns (r: Result<Lease, WriteError>)
      requires Valid()
      modifies this, space
      ensures Valid() && Keeps(old(space.W()), space.W(), floor)
      ensures r.Ok? ==> space.digest(Encode(node)) in Leased(space.S(), floor)
      ensures Writable(old(space.S()), node) ==> r.Ok? && Idle(space.S())
    {
      hide Space.Valid, Keeps, Granted, Leased, Encode, LegalNode, Idle, Asked;
      var content, hash := Encode(node), space.digest(Encode(node));
      ghost var start := space.S();
      ghost var calm := Writable(start, node);
      var answer := Ask(hash);
      if calm {
        IdleIsAsked(start, space.S(), hash, clock - 1, if answer.Ok? then answer.value else Failed(answer.error.error));
      }
      var uploaded := false;
      for attempt := 0 to 3
        invariant Valid() && Keeps(old(space.W()), space.W(), floor)
        invariant answer.Ok? && answer.value.ReadyLease? ==> hash in Leased(space.S(), floor)
        invariant calm ==> answer.Ok? && Proceeds(space.S(), hash, attempt, answer.value)
      {
        if answer.Err? {
          return Err(answer.error);
        }
        if answer.value.ReadyLease? {
          return Ok(answer.value.lease);
        }
        ghost var before := space.W();
        var error := Comply(answer.value, content, uploaded);
        KeepsTransitive(old(space.W()), before, space.W(), floor);
        if error.Some? {
          return Err(error.value);
        }
        uploaded := uploaded || !answer.value.AwaitingChildren?;
        ghost var held := space.W();
        ghost var asked := answer.value;
        answer := Ask(hash);
        KeepsTransitive(old(space.W()), held, space.W(), floor);
        if calm {
          LeasedIsReady(node.refs, space.digest, old(space.W()), held, floor);
          AskedIsWritten(before.store, held.store, space.S(), node, clock - 1, asked.upload,
                         if answer.Ok? then answer.value else Failed(answer.error.error));
        }
      }
      r := match answer
           case Err(error) => Err(error)
           case Ok(AwaitingReplacement(_, rejection)) => Err(Rejected(rejection))
           case Ok(_) => Err(NotReady);
    }

    lemma IdleIsAsked(s: Store, s': Store, hash: Hash, round: nat, r: LeaseResult)
      requires Quiet() && Idle(s) && Granted(s, s', hash, round, r)
      ensures Proceeds(s', hash, 0, r)
    {
      hide Progresses;
      if !Ready(s, hash) {
        var upload := NewRecord(round, 0);
        assert !KeyTaken(s, hash, upload.temporaryKey);
        assert Progresses(space.digest, WithUpload(s, hash, upload), s', hash, upload, NewRecord(round, 1), rounds(round).now, r);
        FreshWaits(space.digest, WithUpload(s, hash, upload), s', hash, upload, NewRecord(round, 1), rounds(round).now, r);
      }
    }

    lemma AskedIsWritten(
      asked: Store, held: Store, s': Store, node: Node, round: nat, upload: Upload, r: LeaseResult)
      requires Quiet() && LegalNode(node, DEFAULT_LIMITS) && Asked(asked, space.digest(Encode(node)), upload)
      requires held == asked.(temporary := PutOnce(asked.temporary, upload.temporaryKey, Encode(node)))
      requires forall c :: c in node.refs ==> Ready(held, c)
      requires Granted(held, s', space.digest(Encode(node)), round, r)
      ensures r.ReadyLease? && Idle(s')
    {
      hide Progresses, LegalNode, Encode;
      LegalUploadIsPublished(space.digest, held, s', node, NewRecord(round, 0), rounds(round).now, r);
    }

    // What an undisturbed request is answered.
    ghost predicate Granted(s: Store, s': Store, hash: Hash, round: nat, r: LeaseResult) {
      && (Ready(s, hash) ==> r.ReadyLease? && s' == s.(tables := s'.tables))
      && Evaluated(s, s', hash, r)
      && (hash !in s.tables.nodes && hash !in s.objects ==>
            if hash in s.uploads
            then Progresses(space.digest, s, s', hash, s.uploads[hash], NewRecord(round, 0), rounds(round).now, r)
            else Admits(space.digest, s, s', hash, NewRecord(round, 0), NewRecord(round, 1), settings.maxActiveUploads,
                        rounds(round).now, r))
    }
  }

  // A record just made, whose session has begun, waits for its object.
  lemma FreshWaits(
    digest: Digest, s: Store, s': Store, hash: Hash, upload: Upload, successor: Upload, now: int, r: LeaseResult)
    requires Progresses(digest, s, s', hash, upload, successor, now, r)
    requires upload.temporaryKey !in s.temporary && upload.validation.None? && upload.rejection.None? && upload.expiresAt > now
    ensures r == AwaitingUpload(upload) && s' == s
  {
  }

  lemma LeasedStays(w: World, w': World, floor: int)
    requires Keeps(w, w', floor)
    ensures Leased(w.store, floor) <= Leased(w'.store, floor)
  {
    forall h | h in Leased(w.store, floor)
      ensures h in Leased(w'.store, floor)
    {
      assert StaysLeased(w.store, w'.store, floor, h);
    }
  }

  lemma LeasedIsReady(refs: seq<Hash>, digest: Digest, w: World, w': World, floor: int)
    requires Keeps(w, w', floor) && forall c :: c in refs ==> c in Leased(w.store, floor)
    ensures forall c :: c in refs ==> Ready(w'.store, c) && c in Leased(w'.store, floor)
  {
  }

  lemma LeaseReaches(s: Store, s': Store, hash: Hash, notBefore: int, floor: int, r: LeaseResult)
    requires Evaluated(s, s', hash, r) && Answers(s', hash, notBefore, r) && notBefore >= floor
    ensures r.ReadyLease? ==> hash in Leased(s', floor)
  {
  }

  // The row's lease is the one it had, or ends within a day of a clock at which a request leased it.
  ghost predicate Capped(s: Store, s': Store, requests: seq<Request>, hash: Hash)
    requires hash in s'.tables.nodes
  {
    var expiry := s'.tables.nodes[hash].leaseExpiresAt;
    || (hash in s.tables.nodes && expiry == s.tables.nodes[hash].leaseExpiresAt)
    || exists i :: 0 <= i < |requests| && requests[i].LeaseFor? && requests[i].hash == hash
                   && expiry <= Max(0, requests[i].now + 86400000)
  }

  lemma NothingRequested(s: Store)
    ensures forall h :: h in s.tables.nodes ==> Capped(s, s, [], h)
  {
  }

  lemma OneMoreRequest(start: Store, s: Store, s': Store, requests: seq<Request>, i: nat)
    requires i < |requests|
    requires forall h :: h in s.tables.nodes ==> Capped(start, s, requests[..i], h)
    requires forall h :: h in s'.tables.nodes ==> Capped(s, s', [requests[i]], h)
    ensures forall h :: h in s'.tables.nodes ==> Capped(start, s', requests[..i + 1], h)
  {
    forall h | h in s'.tables.nodes
      ensures Capped(start, s', requests[..i + 1], h)
    {
      var expiry := s'.tables.nodes[h].leaseExpiresAt;
      if h in s.tables.nodes && expiry == s.tables.nodes[h].leaseExpiresAt {
        assert Capped(start, s, requests[..i], h);
        if k :| 0 <= k < i && requests[..i][k].LeaseFor? && requests[..i][k].hash == h
                && expiry <= Max(0, requests[..i][k].now + 86400000) {
          assert requests[..i + 1][k] == requests[..i][k];
        }
      } else {
        assert requests[..i + 1][i] == requests[i];
      }
    }
  }

  lemma ShrinkingCaps(s: Store, s': Store, request: Request)
    requires Shrinks(s, s')
    ensures forall h :: h in s'.tables.nodes ==> Capped(s, s', [request], h)
  {
  }

  lemma ExpiryShrinks(s: Store, s': Store, due: set<Hash>)
    requires OnlyExpires(s, s', due)
    ensures Shrinks(s, s')
  {
  }

  lemma EvaluationCaps(s: Store, s': Store, request: Request, r: LeaseResult)
    requires request.LeaseFor? && Evaluated(s, s', request.hash, r)
    requires r.ReadyLease? ==>
               r.lease.expiresAt <= Max(0, request.now + 86400000)
               || (request.hash in s.tables.nodes && r.lease.expiresAt == s.tables.nodes[request.hash].leaseExpiresAt)
    ensures forall h :: h in s'.tables.nodes ==> Capped(s, s', [request], h)
  {
    assert [request][0] == request;
  }

  lemma NothingLogged(log: seq<Action>, used: Option<int>)
    ensures Extends(log, log, used)
  {
  }
}
