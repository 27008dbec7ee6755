// The control plane's tables (accounts, identities, platform authorities, App
// members, audit records) and the guarded batches that change them. Every batch
// checks its own guards inside the transaction, so any batch with any input may
// run at any time.
module ControlPlane {
  import opened Prelude

  type AccountId = string
  type IdentityId = string
  type AppId = string
  type EventId = string
  type InvitationId = string

  const MAX_ALIAS_DEPTH: nat := 8

  datatype Account = Account(blockedAt: Option<int>, credentialVersion: nat)

  datatype Identity = Identity(accountId: AccountId, issuer: string, subject: string, unlinkedAt: Option<int>)

  datatype Authority = PlatformAdmin | AppsCreate

  datatype AuditAction =
    | AuthorityChanged
    | Blocked
    | Restored
    | InvitationCreated
    | InvitationRevoked
    | InvitationAccepted
    | MemberRemoved
    | AppCreated

  datatype InvitationStatus = Pending | Accepted | Revoked

  // A platform invitation; its authorities, token and expiry are never updated.
  datatype Invitation = Invitation(
    authorities: set<Authority>, tokenHash: string, expiresAt: int, status: InvitationStatus, revision: nat)

  datatype Audit = Audit(actor: AccountId, identity: IdentityId, target: Option<AccountId>, action: AuditAction)

  datatype Tables = Tables(
    accounts: map<AccountId, Account>,
    identities: map<IdentityId, Identity>,
    authorities: set<(AccountId, Authority)>,
    aliases: map<AccountId, AccountId>,
    apps: set<AppId>,
    members: set<(AppId, AccountId)>,
    invitations: map<InvitationId, Invitation>,
    platformAudit: map<EventId, Audit>,
    appAudit: map<EventId, Audit>
  )

  datatype Abort = GuardFailed | UniqueViolation | ForeignKeyViolation

  datatype Actor = Actor(accountId: AccountId, identityId: IdentityId)

  datatype Step =
    | CreateAccount(accountId: AccountId, identityId: IdentityId, issuer: string, subject: string)
    | CreateApp(actor: Actor, appId: AppId, eventId: EventId)
    | JoinApp(actor: Actor, appId: AppId)
    | CreatePlatformInvitation(
        actor: Actor, invitationId: InvitationId, authorities: set<Authority>, tokenHash: string, expiresAt: int, eventId: EventId)
    | RevokePlatformInvitation(actor: Actor, invitationId: InvitationId, expectedRevision: nat, now: int, eventId: EventId)
    | AcceptPlatformInvitation(actor: Actor, invitationId: InvitationId, tokenHash: string, now: int, eventId: EventId)
    | RemoveAppMembership(actor: Actor, appId: AppId, target: AccountId, eventId: EventId)
    | SetPlatformAuthority(actor: Actor, target: AccountId, authority: Authority, grant: bool, eventId: EventId)
    | SetPlatformBlock(actor: Actor, target: AccountId, block: bool, eventId: EventId, now: int)
    | LinkIdentity(accountId: AccountId, expectedVersion: nat, identityId: IdentityId, issuer: string, subject: string)
    | UnlinkIdentity(accountId: AccountId, expectedVersion: nat, target: IdentityId, remaining: IdentityId, now: int)

  // ----- guards -----

  predicate IsActive(t: Tables, identityId: IdentityId, accountId: AccountId) {
    identityId in t.identities && t.identities[identityId].accountId == accountId && t.identities[identityId].unlinkedAt.None?
  }

  function ActiveIdentities(t: Tables, accountId: AccountId): set<IdentityId> {
    set i | i in t.identities && IsActive(t, i, accountId)
  }

  predicate IsUnblocked(t: Tables, accountId: AccountId) {
    accountId in t.accounts && t.accounts[accountId].blockedAt.None?
  }

  // Unblocked holders of platform.admin.
  function Admins(t: Tables): set<AccountId> {
    set a | a in t.accounts && (a, PlatformAdmin) in t.authorities && IsUnblocked(t, a)
  }

  function MembersOf(t: Tables, appId: AppId): set<(AppId, AccountId)> {
    set m | m in t.members && m.0 == appId
  }

  predicate IsPlatformActor(t: Tables, actor: Actor) {
    && IsUnblocked(t, actor.accountId) && (actor.accountId, PlatformAdmin) in t.authorities
    && IsActive(t, actor.identityId, actor.accountId)
  }

  predicate IsTaken(t: Tables, issuer: string, subject: string) {
    exists i :: i in t.identities && t.identities[i].unlinkedAt.None?
                && t.identities[i].issuer == issuer && t.identities[i].subject == subject
  }

  // The target is the only unblocked administrator left.
  predicate IsLastAdmin(t: Tables, target: AccountId) {
    target in Admins(t) && |Admins(t)| <= 1
  }

  // ----- batches -----

  function InsertIdentity(t: Tables, identityId: IdentityId, identity: Identity): Result<Tables, Abort> {
    if identityId in t.identities || IsTaken(t, identity.issuer, identity.subject) then Err(UniqueViolation)
    else if identity.accountId !in t.accounts then Err(ForeignKeyViolation)
    else Ok(t.(identities := t.identities[identityId := identity]))
  }

  function CreateAccountBatch(t: Tables, step: Step): Result<Tables, Abort>
    requires step.CreateAccount?
  {
    if step.accountId in t.accounts then Err(UniqueViolation)
    else
      InsertIdentity(t.(accounts := t.accounts[step.accountId := Account(None, 1)]), step.identityId,
                     Identity(step.accountId, step.issuer, step.subject, None))
  }

  function CreateAppBatch(t: Tables, step: Step): Result<Tables, Abort>
    requires step.CreateApp?
  {
    var actor := step.actor;
    if !IsUnblocked(t, actor.accountId) || !IsActive(t, actor.identityId, actor.accountId)
       || (actor.accountId, AppsCreate) !in t.authorities
    then Err(GuardFailed)
    else if step.appId in t.apps || (step.appId, actor.accountId) in t.members || step.eventId in t.appAudit
    then Err(UniqueViolation)
    else
      Ok(t.(apps := t.apps + {step.appId}, members := t.members + {(step.appId, actor.accountId)},
            appAudit := t.appAudit[step.eventId := Audit(actor.accountId, actor.identityId, None, AppCreated)]))
  }

  function JoinAppBatch(t: Tables, step: Step): Result<Tables, Abort>
    requires step.JoinApp?
  {
    var actor := step.actor;
    if !IsUnblocked(t, actor.accountId) || !IsActive(t, actor.identityId, actor.accountId) then Err(GuardFailed)
    else if step.appId !in t.apps then Err(ForeignKeyViolation)
    else Ok(t.(members := t.members + {(step.appId, actor.accountId)}))
  }

  // The invitation can still be taken.
  predicate IsOpen(t: Tables, invitationId: InvitationId, now: int) {
    invitationId in t.invitations && t.invitations[invitationId].status.Pending? && t.invitations[invitationId].expiresAt > now
  }

  predicate IsTokenTaken(t: Tables, tokenHash: string) {
    exists i :: i in t.invitations && t.invitations[i].tokenHash == tokenHash
  }

  function InviteBatch(t: Tables, step: Step): Result<Tables, Abort>
    requires step.CreatePlatformInvitation?
  {
    var actor := step.actor;
    if !IsPlatformActor(t, actor) then Err(GuardFailed)
    else if step.invitationId in t.invitations || IsTokenTaken(t, step.tokenHash) || step.eventId in t.platformAudit
    then Err(UniqueViolation)
    else
      var invitation := Invitation(step.authorities, step.tokenHash, step.expiresAt, Pending, 1);
      Ok(t.(invitations := t.invitations[step.invitationId := invitation],
            platformAudit := t.platformAudit[step.eventId :=
              Audit(actor.accountId, actor.identityId, None, InvitationCreated)]))
  }

  function RevokeBatch(t: Tables, step: Step): Result<Tables, Abort>
    requires step.RevokePlatformInvitation?
  {
    var actor := step.actor;
    if !IsPlatformActor(t, actor) || !IsOpen(t, step.invitationId, step.now)
       || t.invitations[step.invitationId].revision != step.expectedRevision
    then Err(GuardFailed)
    else if step.eventId in t.platformAudit then Err(UniqueViolation)
    else
      var invitation := t.invitations[step.invitationId];
      Ok(t.(invitations := t.invitations[step.invitationId :=
              invitation.(status := Revoked, revision := invitation.revision + 1)],
            platformAudit := t.platformAudit[step.eventId :=
              Audit(actor.accountId, actor.identityId, None, InvitationRevoked)]))
  }

  // The acceptor reads the invitation first; what it grants is what the row says, then and now.
  function AcceptBatch(t: Tables, step: Step): Result<Tables, Abort>
    requires step.AcceptPlatformInvitation?
  {
    var actor := step.actor;
    if !IsUnblocked(t, actor.accountId) || !IsActive(t, actor.identityId, actor.accountId) then Err(GuardFailed)
    else if !IsOpen(t, step.invitationId, step.now) || t.invitations[step.invitationId].tokenHash != step.tokenHash
    then Err(GuardFailed)
    else if step.eventId in t.platformAudit then Err(UniqueViolation)
    else
      var invitation := t.invitations[step.invitationId];
      Ok(t.(authorities := t.authorities + (set a | a in invitation.authorities :: (actor.accountId, a)),
            invitations := t.invitations[step.invitationId :=
              invitation.(status := Accepted, revision := invitation.revision + 1)],
            platformAudit := t.platformAudit[step.eventId :=
              Audit(actor.accountId, actor.identityId, Some(actor.accountId), InvitationAccepted)]))
  }

  function RemoveMembershipBatch(t: Tables, step: Step): Result<Tables, Abort>
    requires step.RemoveAppMembership?
  {
    var actor, member := step.actor, (step.appId, step.target);
    if (step.appId, actor.accountId) !in t.members || !IsActive(t, actor.identityId, actor.accountId) then Err(GuardFailed)
    else if member in t.members && |MembersOf(t, step.appId)| <= 1 then Err(GuardFailed)
    else if member in t.members && step.eventId in t.appAudit then Err(UniqueViolation)
    else if member in t.members then
      Ok(t.(members := t.members - {member},
            appAudit := t.appAudit[step.eventId := Audit(actor.accountId, actor.identityId, Some(step.target), MemberRemoved)]))
    else Ok(t)
  }

  // The audit row goes in only when the authority is about to change, and the change only with an audit row.
  function AuthorityBatch(t: Tables, step: Step): Result<Tables, Abort>
    requires step.SetPlatformAuthority?
  {
    var actor, held := step.actor, (step.target, step.authority);
    if !IsPlatformActor(t, actor) || step.target !in t.accounts then Err(GuardFailed)
    else if !step.grant && step.authority == PlatformAdmin && IsLastAdmin(t, step.target) then Err(GuardFailed)
    else
      var changes := if step.grant then held !in t.authorities else held in t.authorities;
      if changes && step.eventId in t.platformAudit then Err(UniqueViolation)
      else
        var audited :=
          if changes
          then t.platformAudit[step.eventId := Audit(actor.accountId, actor.identityId, Some(step.target), AuthorityChanged)]
          else t.platformAudit;
        if step.eventId !in audited then Ok(t)
        else
          Ok(t.(platformAudit := audited,
                authorities := if step.grant then t.authorities + {held} else t.authorities - {held}))
  }

  function BlockBatch(t: Tables, step: Step): Result<Tables, Abort>
    requires step.SetPlatformBlock?
  {
    var actor, target := step.actor, step.target;
    if !IsPlatformActor(t, actor) || target !in t.accounts || (step.block && actor.accountId == target) then Err(GuardFailed)
    else if step.block && IsLastAdmin(t, target) then Err(GuardFailed)
    else
      var account := t.accounts[target];
      var changes := step.block == account.blockedAt.None?;
      if changes && step.eventId in t.platformAudit then Err(UniqueViolation)
      else
        var action := if step.block then Blocked else Restored;
        var audited := if changes
                       then t.platformAudit[step.eventId := Audit(actor.accountId, actor.identityId, Some(target), action)]
                       else t.platformAudit;
        if step.eventId !in audited then Ok(t)
        else
          var changed := if step.block then Account(Some(step.now), account.credentialVersion + 1)
                         else account.(blockedAt := None);
          Ok(t.(platformAudit := audited, accounts := t.accounts[target := changed]))
  }

  function IncrementVersion(t: Tables, accountId: AccountId): Tables
    requires accountId in t.accounts
  {
    var account := t.accounts[accountId];
    t.(accounts := t.accounts[accountId := account.(credentialVersion := account.credentialVersion + 1)])
  }

  predicate VersionMatches(t: Tables, accountId: AccountId, expectedVersion: nat) {
    IsUnblocked(t, accountId) && t.accounts[accountId].credentialVersion == expectedVersion
  }

  function LinkBatch(t: Tables, step: Step): Result<Tables, Abort>
    requires step.LinkIdentity?
  {
    if !VersionMatches(t, step.accountId, step.expectedVersion) then Err(GuardFailed)
    else
      var linked :- InsertIdentity(t, step.identityId, Identity(step.accountId, step.issuer, step.subject, None));
      Ok(IncrementVersion(linked, step.accountId))
  }

  function UnlinkBatch(t: Tables, step: Step): Result<Tables, Abort>
    requires step.UnlinkIdentity?
  {
    if !VersionMatches(t, step.accountId, step.expectedVersion) then Err(GuardFailed)
    else if step.target == step.remaining || !IsActive(t, step.target, step.accountId)
            || !IsActive(t, step.remaining, step.accountId) || |ActiveIdentities(t, step.accountId)| < 2
    then Err(GuardFailed)
    else
      var unlinked := t.identities[step.target].(unlinkedAt := Some(step.now));
      Ok(IncrementVersion(t.(identities := t.identities[step.target := unlinked]), step.accountId))
  }

  function Batch(t: Tables, step: Step): Result<Tables, Abort> {
    match step
    case CreateAccount(_, _, _, _) => CreateAccountBatch(t, step)
    case CreateApp(_, _, _) => CreateAppBatch(t, step)
    case JoinApp(_, _) => JoinAppBatch(t, step)
    case CreatePlatformInvitation(_, _, _, _, _, _) => InviteBatch(t, step)
    case RevokePlatformInvitation(_, _, _, _, _) => RevokeBatch(t, step)
    case AcceptPlatformInvitation(_, _, _, _, _) => AcceptBatch(t, step)
    case RemoveAppMembership(_, _, _, _) => RemoveMembershipBatch(t, step)
    case SetPlatformAuthority(_, _, _, _, _) => AuthorityBatch(t, step)
    case SetPlatformBlock(_, _, _, _, _) => BlockBatch(t, step)
    case LinkIdentity(_, _, _, _, _) => LinkBatch(t, step)
    case UnlinkIdentity(_, _, _, _, _) => UnlinkBatch(t, step)
  }

  // An aborted batch changes nothing.
  function Apply(t: Tables, step: Step): Tables {
    match Batch(t, step)
    case Ok(t') => t'
    case Err(_) => t
  }

  // ----- the invariant -----

  // Every App keeps a member, every account an active identity, and active identities are unique.
  ghost predicate AppsHaveMembers(t: Tables) {
    forall app :: app in t.apps ==> exists a :: (app, a) in t.members
  }

  ghost predicate AccountsHaveIdentities(t: Tables) {
    forall a :: a in t.accounts ==> exists i :: Owns(t, a, i)
  }

  ghost predicate HasAdministrator(t: Tables) {
    exists a :: Usable(t, a) && (a, PlatformAdmin) in t.authorities
  }

  // This identity is the account's, and is not unlinked.
  ghost predicate Owns(t: Tables, accountId: AccountId, identityId: IdentityId) {
    && identityId in t.identities && t.identities[identityId].accountId == accountId
    && t.identities[identityId].unlinkedAt == None
  }

  ghost predicate Usable(t: Tables, accountId: AccountId) {
    accountId in t.accounts && t.accounts[accountId].blockedAt == None
  }

  ghost predicate ActiveIdentitiesUnique(t: Tables) {
    forall i, j :: i in t.identities && j in t.identities && i != j ==> !Clash(t.identities[i], t.identities[j])
  }

  predicate Clash(x: Identity, y: Identity) {
    x.unlinkedAt.None? && y.unlinkedAt.None? && x.issuer == y.issuer && x.subject == y.subject
  }

  ghost predicate IdentitiesHaveAccounts(t: Tables) {
    forall i :: i in t.identities ==> t.identities[i].accountId in t.accounts
  }

  ghost predicate Inv(t: Tables) {
    AppsHaveMembers(t) && AccountsHaveIdentities(t) && ActiveIdentitiesUnique(t) && IdentitiesHaveAccounts(t)
  }

  lemma NotOnly<T>(s: set<T>, x: T)
    requires x in s && |s| > 1
    ensures s - {x} != {}
  {
    assert |s - {x}| == |s| - 1;
  }

  // A batch that leaves an App's member rows alone leaves its members.
  lemma RemovalLeavesMember(t: Tables, step: Step)
    requires step.RemoveAppMembership? && Batch(t, step).Ok? && AppsHaveMembers(t)
    ensures AppsHaveMembers(Apply(t, step))
  {
    var t' := Apply(t, step);
    var member := (step.appId, step.target);
    forall app | app in t'.apps
      ensures exists a :: (app, a) in t'.members
    {
      if app == step.appId && member in t.members {
        NotOnly(MembersOf(t, app), member);
        var m :| m in MembersOf(t, app) - {member};
        assert (app, m.1) in t'.members;
      } else {
        var a :| (app, a) in t.members;
        assert (app, a) in t'.members;
      }
    }
  }

  lemma MoreMembers(t: Tables, t': Tables)
    requires AppsHaveMembers(t) && t.members <= t'.members
    requires forall app :: app in t'.apps ==> app in t.apps || exists a :: (app, a) in t'.members
    ensures AppsHaveMembers(t')
  {
    forall app | app in t'.apps && app in t.apps
      ensures exists a :: (app, a) in t'.members
    {
      var a :| (app, a) in t.members;
      assert (app, a) in t'.members;
    }
  }

  lemma StepKeepsMembers(t: Tables, step: Step)
    requires AppsHaveMembers(t)
    ensures AppsHaveMembers(Apply(t, step))
  {
    if Batch(t, step).Ok? {
      if step.RemoveAppMembership? {
        RemovalLeavesMember(t, step);
      } else {
        if step.CreateApp? {
          assert (step.appId, step.actor.accountId) in Apply(t, step).members;
        }
        MoreMembers(t, Apply(t, step));
      }
    }
  }

  // Accounts keep an active identity while none of their identities is unlinked or they gain another.
  lemma UnlinkLeavesIdentity(t: Tables, step: Step)
    requires step.UnlinkIdentity? && Batch(t, step).Ok? && AccountsHaveIdentities(t)
    ensures AccountsHaveIdentities(Apply(t, step))
  {
    var t' := Apply(t, step);
    forall a | a in t'.accounts
      ensures exists i :: Owns(t', a, i)
    {
      var i :| Owns(t, a, i);
      assert Owns(t', a, if i == step.target then step.remaining else i);
    }
  }

  lemma MoreIdentities(t: Tables, t': Tables)
    requires AccountsHaveIdentities(t) && forall i :: i in t.identities ==> i in t'.identities && t'.identities[i] == t.identities[i]
    requires forall a :: a in t'.accounts ==> a in t.accounts || exists i :: Owns(t', a, i)
    ensures AccountsHaveIdentities(t')
  {
    forall a | a in t'.accounts && a in t.accounts
      ensures exists i :: Owns(t', a, i)
    {
      var i :| Owns(t, a, i);
      assert Owns(t', a, i);
    }
  }

  // Only an unlink changes an identity, and only a sign-up adds an account.
  lemma IdentitiesStay(t: Tables, step: Step)
    requires Batch(t, step).Ok? && !step.UnlinkIdentity?
    ensures forall i :: i in t.identities ==>
              i in Apply(t, step).identities && Apply(t, step).identities[i] == t.identities[i]
    ensures step.CreateAccount? ==> Owns(Apply(t, step), step.accountId, step.identityId)
    ensures forall a :: a in Apply(t, step).accounts ==> a in t.accounts || (step.CreateAccount? && a == step.accountId)
  {
  }

  lemma StepKeepsIdentities(t: Tables, step: Step)
    requires AccountsHaveIdentities(t)
    ensures AccountsHaveIdentities(Apply(t, step))
  {
    hide Batch, AccountsHaveIdentities;
    if Batch(t, step).Ok? {
      if step.UnlinkIdentity? {
        UnlinkLeavesIdentity(t, step);
      } else {
        IdentitiesStay(t, step);
        MoreIdentities(t, Apply(t, step));
      }
    }
  }

  lemma StepKeepsUniqueness(t: Tables, step: Step)
    requires ActiveIdentitiesUnique(t) && IdentitiesHaveAccounts(t)
    ensures ActiveIdentitiesUnique(Apply(t, step)) && IdentitiesHaveAccounts(Apply(t, step))
  {
    hide CreateAppBatch, JoinAppBatch, InviteBatch, RevokeBatch, AcceptBatch, RemoveMembershipBatch, AuthorityBatch, BlockBatch;
    if step.CreateAccount? || step.LinkIdentity? || step.UnlinkIdentity? {
      IdentityStepKeepsUniqueness(t, step);
    } else {
      KeepsIdentityTable(t, step);
    }
  }

  lemma IdentityStepKeepsUniqueness(t: Tables, step: Step)
    requires step.CreateAccount? || step.LinkIdentity? || step.UnlinkIdentity?
    requires ActiveIdentitiesUnique(t) && IdentitiesHaveAccounts(t)
    ensures ActiveIdentitiesUnique(Apply(t, step)) && IdentitiesHaveAccounts(Apply(t, step))
  {
  }

  lemma KeepsIdentityTable(t: Tables, step: Step)
    requires !step.CreateAccount? && !step.LinkIdentity? && !step.UnlinkIdentity?
    ensures Apply(t, step).identities == t.identities && Apply(t, step).accounts.Keys == t.accounts.Keys
  {
  }

  /** Any batch, with any input, keeps the invariant. */
  lemma StepKeepsInv(t: Tables, step: Step)
    requires Inv(t)
    ensures Inv(Apply(t, step))
  {
    StepKeepsMembers(t, step);
    StepKeepsIdentities(t, step);
    StepKeepsUniqueness(t, step);
  }

  /** Once an unblocked account holds platform.admin, one always does. */
  lemma StepKeepsAnAdmin(t: Tables, step: Step)
    requires HasAdministrator(t)
    ensures HasAdministrator(Apply(t, step))
  {
    var t' := Apply(t, step);
    var some :| Usable(t, some) && (some, PlatformAdmin) in t.authorities;
    if Batch(t, step).Ok? {
      if (step.SetPlatformAuthority? || step.SetPlatformBlock?) && step.target in Admins(t) && step.target !in Admins(t') {
        NotOnly(Admins(t), step.target);
        var a :| a in Admins(t) - {step.target};
        assert Usable(t', a);
      } else {
        assert some in Admins(t) && Usable(t', some);
      }
    }
  }

  // ----- runs -----

  ghost function Exec(t: Tables, steps: seq<Step>): Tables
    decreases |steps|
  {
    if steps == [] then t else Exec(Apply(t, steps[0]), steps[1..])
  }

  /** Control-plane safety over all runs. */
  lemma {:induction false} RunKeepsInv(t: Tables, steps: seq<Step>)
    requires Inv(t)
    ensures Inv(Exec(t, steps))
    ensures HasAdministrator(t) ==> HasAdministrator(Exec(t, steps))
    decreases |steps|
  {
    hide Inv, Apply, HasAdministrator;
    if steps != [] {
      StepKeepsInv(t, steps[0]);
      if HasAdministrator(t) {
        StepKeepsAnAdmin(t, steps[0]);
      }
      RunKeepsInv(Apply(t, steps[0]), steps[1..]);
    }
  }

  // ----- who may do what -----

  // The account is not blocked and this identity of it is active.
  ghost predicate ActsAs(t: Tables, actor: Actor) {
    Usable(t, actor.accountId) && Owns(t, actor.accountId, actor.identityId)
  }

  ghost predicate Holds(t: Tables, actor: Actor, authority: Authority) {
    ActsAs(t, actor) && (actor.accountId, authority) in t.authorities
  }

  // The target is an unblocked administrator, and no other unblocked account is one.
  ghost predicate OnlyAdministrator(t: Tables, target: AccountId) {
    forall a :: Usable(t, a) && (a, PlatformAdmin) in t.authorities <==> a == target
  }

  lemma OnlyAdministratorIsLast(t: Tables, target: AccountId)
    ensures IsLastAdmin(t, target) <==> OnlyAdministrator(t, target)
  {
    if target in Admins(t) && |Admins(t)| <= 1 {
      OnlyOne(Admins(t), target);
      forall a
        ensures Usable(t, a) && (a, PlatformAdmin) in t.authorities <==> a == target
      {
        assert a in Admins(t) <==> a == target;
      }
    }
    if OnlyAdministrator(t, target) {
      forall a
        ensures a in Admins(t) <==> a == target
      {
        assert Usable(t, a) && (a, PlatformAdmin) in t.authorities <==> a == target;
      }
      assert Admins(t) == {target};
    }
  }

  // The step lets the account have the authority: an administrator's grant, or an invitation taken.
  ghost predicate Gives(t: Tables, step: Step, account: AccountId, authority: Authority) {
    match step
    case SetPlatformAuthority(actor, target, a, grant, _) =>
      Holds(t, actor, PlatformAdmin) && grant && target == account && a == authority
    case AcceptPlatformInvitation(actor, id, tokenHash, now, _) =>
      && ActsAs(t, actor) && actor.accountId == account
      && id in t.invitations && t.invitations[id].status == Pending && t.invitations[id].expiresAt > now
      && t.invitations[id].tokenHash == tokenHash && authority in t.invitations[id].authorities
    case _ => false
  }

  /** An account gains an authority only by an administrator's grant or by taking an open invitation to it. */
  lemma GainIsGiven(t: Tables, step: Step, account: AccountId, authority: Authority)
    requires (account, authority) in Apply(t, step).authorities && (account, authority) !in t.authorities
    ensures Gives(t, step, account, authority)
  {
  }

  /** Only an administrator makes an invitation, and what it grants, its token and its expiry stay as made. */
  lemma InvitationIsMade(t: Tables, step: Step, id: InvitationId)
    requires id in Apply(t, step).invitations
    ensures id in t.invitations ==>
              && Apply(t, step).invitations[id].authorities == t.invitations[id].authorities
              && Apply(t, step).invitations[id].tokenHash == t.invitations[id].tokenHash
              && Apply(t, step).invitations[id].expiresAt == t.invitations[id].expiresAt
              && (t.invitations[id].status != Pending ==> Apply(t, step).invitations[id] == t.invitations[id])
    ensures id !in t.invitations ==>
              && step.CreatePlatformInvitation? && step.invitationId == id && Holds(t, step.actor, PlatformAdmin)
              && Apply(t, step).invitations[id].authorities == step.authorities
  {
  }

  // Step `i` of the run is an administrator's invitation to the authority.
  ghost predicate InvitesAt(t: Tables, steps: seq<Step>, i: nat, id: InvitationId, authority: Authority) {
    && i < |steps| && steps[i].CreatePlatformInvitation? && steps[i].invitationId == id && authority in steps[i].authorities
    && Holds(Exec(t, steps[..i]), steps[i].actor, PlatformAdmin)
  }

  ghost predicate GivesAt(t: Tables, steps: seq<Step>, i: nat, account: AccountId, authority: Authority) {
    i < |steps| && Gives(Exec(t, steps[..i]), steps[i], account, authority)
  }

  lemma {:induction false} ExecOneMore(t: Tables, steps: seq<Step>)
    requires steps != []
    ensures Exec(t, steps) == Apply(Exec(t, steps[..|steps| - 1]), steps[|steps| - 1])
    decreases |steps|
  {
    hide Apply;
    if |steps| > 1 {
      assert steps[1..][..|steps| - 2] == steps[..|steps| - 1][1..];
      ExecOneMore(Apply(t, steps[0]), steps[1..]);
    } else {
      assert steps[1..] == [] && steps[..0] == [];
    }
  }

  // An invitation found after a run was there before, granting the same, or an administrator made it on the way.
  lemma {:induction false} InvitationHasMaker(t: Tables, steps: seq<Step>, id: InvitationId, authority: Authority)
    requires id in Exec(t, steps).invitations && authority in Exec(t, steps).invitations[id].authorities
    ensures (id in t.invitations && authority in t.invitations[id].authorities)
            || exists i: nat :: InvitesAt(t, steps, i, id, authority)
    decreases |steps|
  {
    hide Apply, Holds;
    if steps != [] {
      var last := |steps| - 1;
      var before := steps[..last];
      ExecOneMore(t, steps);
      InvitationIsMade(Exec(t, before), steps[last], id);
      if id in Exec(t, before).invitations {
        InvitationHasMaker(t, before, id, authority);
        if i: nat :| InvitesAt(t, before, i, id, authority) {
          assert steps[..i] == before[..i];
          assert InvitesAt(t, steps, i, id, authority);
        }
      } else {
        assert InvitesAt(t, steps, last, id, authority);
      }
    }
  }

  // What step `i` gives comes from an administrator of that time, or from one who had invited to it.
  ghost predicate ComesAt(t: Tables, steps: seq<Step>, i: nat, account: AccountId, authority: Authority) {
    && GivesAt(t, steps, i, account, authority)
    && (steps[i].AcceptPlatformInvitation? ==>
          exists j: nat :: j < i && InvitesAt(t, steps, j, steps[i].invitationId, authority))
  }

  /**
   * Over every run an account comes to hold an authority only through an administrator: by a grant of
   * one who administers then, or by taking an invitation that one made who administered when making it.
   */
  lemma {:induction false} AuthorityComesFromAdministrators(
    t: Tables, steps: seq<Step>, account: AccountId, authority: Authority)
    requires t.invitations == map[] && (account, authority) !in t.authorities
    requires (account, authority) in Exec(t, steps).authorities
    ensures exists i: nat :: ComesAt(t, steps, i, account, authority)
    decreases |steps|
  {
    hide Apply, Holds, Gives;
    var last := |steps| - 1;
    var before := steps[..last];
    ExecOneMore(t, steps);
    if (account, authority) in Exec(t, before).authorities {
      AuthorityComesFromAdministrators(t, before, account, authority);
      var i: nat :| ComesAt(t, before, i, account, authority);
      SameBeginning(t, before, steps, i, account, authority);
    } else {
      GainIsGiven(Exec(t, before), steps[last], account, authority);
      if steps[last].AcceptPlatformInvitation? {
        TakenInvitation(Exec(t, before), steps[last], account, authority);
        InvitationHasMaker(t, before, steps[last].invitationId, authority);
        var j: nat :| InvitesAt(t, before, j, steps[last].invitationId, authority);
        assert steps[..j] == before[..j];
        assert InvitesAt(t, steps, j, steps[last].invitationId, authority);
      }
      assert ComesAt(t, steps, last, account, authority);
    }
  }

  lemma TakenInvitation(t: Tables, step: Step, account: AccountId, authority: Authority)
    requires step.AcceptPlatformInvitation? && Gives(t, step, account, authority)
    ensures step.invitationId in t.invitations && authority in t.invitations[step.invitationId].authorities
  {
  }

  lemma SameBeginning(t: Tables, before: seq<Step>, steps: seq<Step>, i: nat, account: AccountId, authority: Authority)
    requires before <= steps && ComesAt(t, before, i, account, authority)
    ensures ComesAt(t, steps, i, account, authority)
  {
    hide Holds, Gives;
    assert steps[..i] == before[..i];
    if before[i].AcceptPlatformInvitation? {
      var j: nat :| j < i && InvitesAt(t, before, j, before[i].invitationId, authority);
      assert steps[..j] == before[..j];
      assert InvitesAt(t, steps, j, steps[i].invitationId, authority);
    }
  }

  /** An App appears only by an unblocked account that holds apps.create and becomes its first member. */
  lemma AppNeedsAuthority(t: Tables, step: Step, app: AppId)
    requires app in Apply(t, step).apps && app !in t.apps
    ensures step.CreateApp? && step.appId == app && Holds(t, step.actor, AppsCreate)
    ensures (app, step.actor.accountId) in Apply(t, step).members && step.eventId in Apply(t, step).appAudit
  {
  }

  /** A membership is gained only by the account itself, unblocked and with an active identity. */
  lemma MembershipIsTaken(t: Tables, step: Step, app: AppId, account: AccountId)
    requires (app, account) in Apply(t, step).members && (app, account) !in t.members
    ensures (step.CreateApp? || step.JoinApp?) && step.appId == app && step.actor.accountId == account
    ensures ActsAs(t, step.actor) && app in Apply(t, step).apps
  {
  }

  /** Taking a place in an App goes through exactly for an actor of an unblocked account, and adds that member alone. */
  lemma JoiningIsExact(t: Tables, actor: Actor, app: AppId)
    ensures Batch(t, JoinApp(actor, app)).Ok? <==> ActsAs(t, actor) && app in t.apps
    ensures Apply(t, JoinApp(actor, app)) ==
            if ActsAs(t, actor) && app in t.apps then t.(members := t.members + {(app, actor.accountId)}) else t
  {
  }

  /** Accounts appear unblocked, at version 1, with an identity of their own; otherwise identities are added by linking. */
  lemma AccountIsCreated(t: Tables, step: Step, account: AccountId)
    requires account in Apply(t, step).accounts && account !in t.accounts
    ensures step.CreateAccount? && step.accountId == account && Apply(t, step).accounts[account] == Account(None, 1)
    ensures step.identityId !in t.identities
    ensures Apply(t, step).identities == t.identities[step.identityId := Identity(account, step.issuer, step.subject, None)]
  {
  }

  // ----- authority and audit -----

  ghost predicate SameAccess(t: Tables, t': Tables) {
    && t'.authorities == t.authorities
    && forall a :: a in t.accounts ==> (IsUnblocked(t, a) <==> IsUnblocked(t', a))
  }

  /**
   * A platform change and its audit record happen together or not at all: access differs afterwards
   * exactly when the batch added the record of its event, also when the event id was used before.
   */
  lemma ChangeIffAudited(t: Tables, step: Step)
    requires step.SetPlatformAuthority? || step.SetPlatformBlock?
    ensures var t' := Apply(t, step);
            && (!SameAccess(t, t') <==> t'.platformAudit != t.platformAudit)
            && (t'.platformAudit != t.platformAudit ==>
                  && step.eventId !in t.platformAudit && step.eventId in t'.platformAudit
                  && t'.platformAudit == t.platformAudit[step.eventId := t'.platformAudit[step.eventId]]
                  && t'.platformAudit[step.eventId].actor == step.actor.accountId
                  && t'.platformAudit[step.eventId].target == Some(step.target))
  {
    var t' := Apply(t, step);
    if step.eventId !in t.platformAudit && step.eventId in t'.platformAudit {
      if step.SetPlatformAuthority? {
        assert (step.target, step.authority) in t.authorities <==> (step.target, step.authority) !in t'.authorities;
      } else {
        assert IsUnblocked(t, step.target) <==> !IsUnblocked(t', step.target);
      }
    }
  }

  // An account that is blocked already is blocked again under an event id that was used before.
  ghost predicate RepeatsBlock(t: Tables, step: Step)
    requires step.SetPlatformBlock?
  {
    && step.block && Holds(t, step.actor, PlatformAdmin) && step.actor.accountId != step.target
    && step.target in t.accounts && t.accounts[step.target].blockedAt.Some? && step.eventId in t.platformAudit
  }

  /**
   * Beyond access, anything a platform change alters has its new record, with one exception: a
   * repeated block under a used event id moves the credential version and the time of the block alone.
   */
  lemma UnauditedIffRepeated(t: Tables, step: Step)
    requires step.SetPlatformAuthority? || step.SetPlatformBlock?
    ensures var t' := Apply(t, step);
            && (t' != t && t'.platformAudit == t.platformAudit <==> step.SetPlatformBlock? && RepeatsBlock(t, step))
            && (step.SetPlatformBlock? && RepeatsBlock(t, step) ==>
                  t' == t.(accounts := t.accounts[step.target :=
                             Account(Some(step.now), t.accounts[step.target].credentialVersion + 1)]))
  {
    var t' := Apply(t, step);
    if step.SetPlatformBlock? && RepeatsBlock(t, step) {
      assert !IsUnblocked(t, step.target);
      assert t'.accounts[step.target].credentialVersion != t.accounts[step.target].credentialVersion;
    } else if step.SetPlatformBlock? && t'.platformAudit == t.platformAudit && step.target in t.accounts {
      assert t.accounts == t.accounts[step.target := t.accounts[step.target]];
    }
  }

  // ----- credentials -----

  datatype Credential = Credential(accountId: AccountId, identityId: IdentityId, version: nat)

  // Follows aliases for at most `depth` more lookups.
  function Resolve(t: Tables, accountId: AccountId, visited: set<AccountId>, depth: nat): Option<AccountId>
    decreases depth
  {
    if accountId in visited || accountId !in t.accounts then None
    else if accountId !in t.aliases then Some(accountId)
    else if depth == 0 then None
    else Resolve(t, t.aliases[accountId], visited + {accountId}, depth - 1)
  }

  function Canonical(t: Tables, accountId: AccountId): Option<AccountId> {
    Resolve(t, accountId, {}, MAX_ALIAS_DEPTH)
  }

  predicate Authorizes(t: Tables, c: Credential) {
    match Canonical(t, c.accountId)
    case None => false
    case Some(a) => IsUnblocked(t, a) && t.accounts[a].credentialVersion == c.version && IsActive(t, c.identityId, c.accountId)
  }

  // From account to account along alias rows, none twice and none missing, to one without an alias.
  ghost predicate IsChain(t: Tables, chain: seq<AccountId>) {
    && chain != []
    && (forall i :: 0 <= i < |chain| ==> chain[i] in t.accounts)
    && (forall i :: 0 <= i < |chain| - 1 ==> chain[i] in t.aliases && t.aliases[chain[i]] == chain[i + 1])
    && (forall i, j :: 0 <= i < j < |chain| ==> chain[i] != chain[j])
    && chain[|chain| - 1] !in t.aliases
  }

  // At most eight alias rows lead from one account to the other.
  ghost predicate Leads(t: Tables, from: AccountId, a: AccountId) {
    exists chain :: IsChain(t, chain) && |chain| <= 9 && chain[0] == from && chain[|chain| - 1] == a
  }

  lemma {:induction false} ChainFromResolution(t: Tables, from: AccountId, visited: set<AccountId>, depth: nat)
    returns (chain: seq<AccountId>)
    requires Resolve(t, from, visited, depth).Some?
    ensures IsChain(t, chain) && |chain| <= depth + 1 && chain[0] == from
    ensures chain[|chain| - 1] == Resolve(t, from, visited, depth).value
    ensures forall i :: 0 <= i < |chain| ==> chain[i] !in visited
    decreases depth
  {
    if from !in t.aliases {
      chain := [from];
    } else {
      var rest := ChainFromResolution(t, t.aliases[from], visited + {from}, depth - 1);
      chain := [from] + rest;
      forall i, j | 0 <= i < j < |chain|
        ensures chain[i] != chain[j]
      {
        if i == 0 {
          assert rest[j - 1] !in visited + {from};
        }
      }
    }
  }

  lemma {:induction false} ResolutionFromChain(t: Tables, chain: seq<AccountId>, visited: set<AccountId>, depth: nat)
    requires IsChain(t, chain) && |chain| <= depth + 1 && forall i :: 0 <= i < |chain| ==> chain[i] !in visited
    ensures Resolve(t, chain[0], visited, depth) == Some(chain[|chain| - 1])
    decreases depth
  {
    if |chain| > 1 {
      assert forall i :: 0 <= i < |chain[1..]| ==> chain[1..][i] == chain[i + 1];
      ResolutionFromChain(t, chain[1..], visited + {chain[0]}, depth - 1);
    }
  }

  /** Resolving finds exactly the account that at most eight alias rows lead to, without a cycle. */
  lemma ResolutionIsChain(t: Tables, from: AccountId)
    ensures forall a :: Canonical(t, from) == Some(a) <==> Leads(t, from, a)
  {
    if Canonical(t, from).Some? {
      var chain := ChainFromResolution(t, from, {}, MAX_ALIAS_DEPTH);
      assert IsChain(t, chain) && |chain| <= 9;
    }
    forall a | Leads(t, from, a)
      ensures Canonical(t, from) == Some(a)
    {
      var chain :| IsChain(t, chain) && |chain| <= 9 && chain[0] == from && chain[|chain| - 1] == a;
      ResolutionFromChain(t, chain, {}, MAX_ALIAS_DEPTH);
    }
  }

  /** Accounts stay, and credential versions never decrease. */
  lemma VersionsNeverDecrease(t: Tables, step: Step, a: AccountId)
    requires a in t.accounts
    ensures a in Apply(t, step).accounts
    ensures Apply(t, step).accounts[a].credentialVersion >= t.accounts[a].credentialVersion
    ensures Apply(t, step).aliases == t.aliases
  {
  }

  lemma {:induction false} ResolveStays(t: Tables, t': Tables, accountId: AccountId, visited: set<AccountId>, depth: nat)
    requires t'.aliases == t.aliases && forall a :: a in t.accounts ==> a in t'.accounts
    requires Resolve(t, accountId, visited, depth).Some?
    ensures Resolve(t', accountId, visited, depth) == Resolve(t, accountId, visited, depth)
    decreases depth
  {
    if accountId in t.aliases {
      ResolveStays(t, t', t.aliases[accountId], visited + {accountId}, depth - 1);
    }
  }

  // The batch moved the account's version on: an effective block, link or unlink.
  ghost predicate Supersedes(t: Tables, step: Step, a: AccountId) {
    && a in t.accounts && a in Apply(t, step).accounts
    && Apply(t, step).accounts[a].credentialVersion > t.accounts[a].credentialVersion
  }

  /** Every effective block, link and unlink moves its account's version on. */
  lemma EffectiveChangesSupersede(t: Tables, step: Step)
    requires Batch(t, step).Ok?
    ensures step.SetPlatformBlock? && step.block && IsUnblocked(t, step.target) ==> Supersedes(t, step, step.target)
    ensures step.LinkIdentity? || step.UnlinkIdentity? ==> Supersedes(t, step, step.accountId)
  {
  }

  lemma {:induction false} OutdatedStaysOutdated(t: Tables, steps: seq<Step>, c: Credential, a: AccountId)
    requires Canonical(t, c.accountId) == Some(a) && a in t.accounts && t.accounts[a].credentialVersion > c.version
    ensures !Authorizes(Exec(t, steps), c)
    decreases |steps|
  {
    hide Apply;
    if steps != [] {
      var t' := Apply(t, steps[0]);
      VersionsNeverDecrease(t, steps[0], a);
      forall x | x in t.accounts
        ensures x in t'.accounts
      {
        VersionsNeverDecrease(t, steps[0], x);
      }
      ResolveStays(t, t', c.accountId, {}, MAX_ALIAS_DEPTH);
      OutdatedStaysOutdated(t', steps[1..], c, a);
    }
  }

  lemma {:induction false} ResolvesToAccount(t: Tables, accountId: AccountId, visited: set<AccountId>, depth: nat)
    requires Resolve(t, accountId, visited, depth).Some?
    ensures Resolve(t, accountId, visited, depth).value in t.accounts
    decreases depth
  {
    if accountId in t.aliases {
      ResolvesToAccount(t, t.aliases[accountId], visited + {accountId}, depth - 1);
    }
  }

  /** A credential issued before its canonical account is superseded never authorizes again, whatever follows. */
  lemma SupersededNeverAuthorizes(t: Tables, step: Step, steps: seq<Step>, c: Credential)
    requires Canonical(t, c.accountId).Some? && c.version <= t.accounts[CanonicalOf(t, c)].credentialVersion
    requires Supersedes(t, step, CanonicalOf(t, c))
    ensures !Authorizes(Exec(Apply(t, step), steps), c)
  {
    hide Apply;
    var a := CanonicalOf(t, c);
    var t' := Apply(t, step);
    forall x | x in t.accounts
      ensures x in t'.accounts
    {
      VersionsNeverDecrease(t, step, x);
    }
    VersionsNeverDecrease(t, step, a);
    ResolveStays(t, t', c.accountId, {}, MAX_ALIAS_DEPTH);
    OutdatedStaysOutdated(t', steps, c, a);
  }

  function CanonicalOf(t: Tables, c: Credential): (a: AccountId)
    requires Canonical(t, c.accountId).Some?
    ensures a in t.accounts
  {
    ResolvesToAccount(t, c.accountId, {}, MAX_ALIAS_DEPTH);
    Canonical(t, c.accountId).value
  }

  // The account whose version an effective block, link or unlink moves on.
  function Changed(step: Step): Option<AccountId> {
    match step
    case SetPlatformBlock(_, target, block, _, _) => if block then Some(target) else None
    case LinkIdentity(accountId, _, _, _, _) => Some(accountId)
    case UnlinkIdentity(accountId, _, _, _, _) => Some(accountId)
    case _ => None
  }

  // Such a batch touches the changed account's row and the identities it links or unlinks, and nothing else of this.
  lemma ChangeIsLocal(t: Tables, step: Step)
    requires Batch(t, step).Ok? && Changed(step).Some?
    ensures var t', x := Apply(t, step), Changed(step).value;
            && t'.aliases == t.aliases && t'.accounts.Keys == t.accounts.Keys && x in t.accounts
            && (forall a :: a in t.accounts && a != x ==> t'.accounts[a] == t.accounts[a])
            && forall i :: i in t.identities ==>
                 i in t'.identities
                 && (t'.identities[i] == t.identities[i]
                     || (step.UnlinkIdentity? && i == step.target && t'.identities[i].unlinkedAt.Some?))
    ensures step.UnlinkIdentity? ==> Apply(t, step).identities[step.target].unlinkedAt.Some?
  {
  }

  /**
   * Exactly who loses authority when an account is blocked, linked or unlinked: the credentials that
   * resolve to that account, and those of the identity unlinked. A credential that merely names the
   * account and resolves elsewhere through an alias keeps working.
   */
  lemma WhoLosesAuthority(t: Tables, step: Step, c: Credential)
    requires Authorizes(t, c) && Batch(t, step).Ok? && Changed(step).Some?
    requires step.SetPlatformBlock? ==> IsUnblocked(t, step.target)
    ensures Authorizes(Apply(t, step), c) <==>
              Changed(step) != Canonical(t, c.accountId) && !(step.UnlinkIdentity? && step.target == c.identityId)
  {
    hide Apply, Batch, Resolve;
    ChangeIsLocal(t, step);
    EffectiveChangesSupersede(t, step);
    ResolveStays(t, Apply(t, step), c.accountId, {}, MAX_ALIAS_DEPTH);
    ResolvesToAccount(t, c.accountId, {}, MAX_ALIAS_DEPTH);
  }

  // Two accounts; the first is an alias of the second, which is an administrator.
  function AliasedTables(): Tables {
    Tables(
      map["a" := Account(None, 1), "b" := Account(None, 1)],
      map["ia" := Identity("a", "issuer", "1", None), "ib" := Identity("b", "issuer", "2", None)],
      {("b", PlatformAdmin)}, map["a" := "b"], {}, {}, map[], map[], map[])
  }

  lemma AliasedTablesAreLegal()
    ensures Inv(AliasedTables())
  {
    var t := AliasedTables();
    assert Owns(t, "a", "ia") && Owns(t, "b", "ib");
    assert AppsHaveMembers(t) && AccountsHaveIdentities(t);
    assert t.identities["ia"].subject != t.identities["ib"].subject;
  }

  lemma AliasResolves(t: Tables)
    requires "a" in t.accounts && "b" in t.accounts && t.aliases == map["a" := "b"]
    ensures Canonical(t, "a") == Some("b")
  {
    assert Resolve(t, "b", {} + {"a"}, MAX_ALIAS_DEPTH - 1) == Some("b");
  }

  /** Given an alias row, the block of an account leaves a credential that names it and resolves elsewhere authorized. */
  lemma AliasedCredentialSurvivesBlock() returns (t: Tables, step: Step, c: Credential)
    ensures Inv(t) && Authorizes(t, c) && Batch(t, step).Ok?
    ensures step.SetPlatformBlock? && step.block && step.target == c.accountId && IsUnblocked(t, step.target)
    ensures !IsUnblocked(Apply(t, step), c.accountId) && Authorizes(Apply(t, step), c)
  {
    hide Resolve, Inv;
    t := AliasedTables();
    step := SetPlatformBlock(Actor("b", "ib"), "a", true, "event", 0);
    c := Credential("a", "ia", 1);
    AliasedTablesAreLegal();
    AliasResolves(t);
    assert IsPlatformActor(t, step.actor) && "a" !in Admins(t);
    WhoLosesAuthority(t, step, c);
  }

  // ----- the repository -----

  datatype CreationResult = Created | CreationConflict | CreationForbidden | CreationThrew

  datatype InvitationResult =
    | InvitationDone
    | InvitationForbidden
    | InvitationNotFound
    | RevisionMismatch
    | NotPending
    | AccountUnavailable
    | InvitationThrew

  datatype MembershipResult = Removed | ActorNotMember | LastMember | MembershipThrew

  datatype PlatformResult = Updated | ActorForbidden | TargetNotFound | SelfBlock | LastAdmin | PlatformThrew

  datatype IdentityResult =
    | Linked
    | Unlinked
    | IdentityConflict
    | VersionMismatch
    | AccountBlocked
    | IdentityNotFound
    | FinalIdentity

  class AccountRepository {
    var accounts: map<AccountId, Account>
    var identities: map<IdentityId, Identity>
    var authorities: set<(AccountId, Authority)>
    var aliases: map<AccountId, AccountId>
    var apps: set<AppId>
    var members: set<(AppId, AccountId)>
    var invitations: map<InvitationId, Invitation>
    var platformAudit: map<EventId, Audit>
    var appAudit: map<EventId, Audit>

    function T(): Tables
      reads this
    {
      Tables(accounts, identities, authorities, aliases, apps, members, invitations, platformAudit, appAudit)
    }

    ghost predicate Valid()
      reads this
    {
      Inv(T())
    }

    constructor (t: Tables)
      requires Inv(t)
      ensures Valid() && T() == t
    {
      accounts, identities, authorities, aliases := t.accounts, t.identities, t.authorities, t.aliases;
      apps, members, invitations := t.apps, t.members, t.invitations;
      platformAudit, appAudit := t.platformAudit, t.appAudit;
    }

    // One transaction.
    method Run(step: Step) returns (abort: Option<Abort>)
      requires Valid()
      modifies this
      ensures Valid() && T() == Apply(old(T()), step)
      ensures abort == match Batch(old(T()), step) case Ok(_) => None case Err(e) => Some(e)
      ensures abort.Some? ==> T() == old(T())
    {
      hide Inv, Batch;
      StepKeepsInv(T(), step);
      var r := Batch(T(), step);
      match r {
        case Ok(t) =>
          accounts, identities, authorities, aliases := t.accounts, t.identities, t.authorities, t.aliases;
          apps, members, invitations := t.apps, t.members, t.invitations;
          platformAudit, appAudit := t.platformAudit, t.appAudit;
          assert T() == t;
          abort := None;
        case Err(e) => abort := Some(e);
      }
    }

    /** An account with its first identity, or the pair is another active identity's; only reused ids throw. */
    method CreateAccountWithIdentity(accountId: AccountId, identityId: IdentityId, issuer: string, subject: string)
      returns (r: CreationResult)
      requires Valid()
      modifies this
      ensures Valid() && T() == Apply(old(T()), CreateAccount(accountId, identityId, issuer, subject))
      ensures r == Created <==>
                accountId !in old(accounts) && identityId !in old(identities) && !Linkable(old(T()), issuer, subject)
      ensures r == CreationConflict <==> Linkable(old(T()), issuer, subject)
      ensures T() == if r != Created then old(T())
                     else old(T()).(accounts := old(accounts)[accountId := Account(None, 1)],
                                    identities := old(identities)[identityId := Identity(accountId, issuer, subject, None)])
    {
      hide Inv;
      var abort := Run(CreateAccount(accountId, identityId, issuer, subject));
      if abort.None? {
        return Created;
      }
      r := if IsTaken(T(), issuer, subject) then CreationConflict else CreationThrew;
    }

    /** An App is made by an unblocked holder of apps.create, who becomes its first member. */
    method CommitCreateAccountApp(actor: Actor, appId: AppId, eventId: EventId) returns (r: CreationResult)
      requires Valid()
      modifies this
      ensures Valid() && T() == Apply(old(T()), CreateApp(actor, appId, eventId))
      ensures r == CreationForbidden <==> !Holds(old(T()), actor, AppsCreate)
      ensures r == Created <==>
                && Holds(old(T()), actor, AppsCreate) && appId !in old(apps)
                && (appId, actor.accountId) !in old(members) && eventId !in old(appAudit)
      ensures r != CreationConflict
      ensures T() == if r != Created then old(T())
                     else old(T()).(apps := old(apps) + {appId}, members := old(members) + {(appId, actor.accountId)},
                                    appAudit := old(appAudit)[eventId :=
                                      Audit(actor.accountId, actor.identityId, None, AppCreated)])
    {
      hide Inv;
      if !IsActive(T(), actor.identityId, actor.accountId) {
        return CreationForbidden;
      }
      var abort := Run(CreateApp(actor, appId, eventId));
      r := match abort
           case None => Created
           case Some(GuardFailed) => CreationForbidden
           case Some(_) => CreationThrew;
    }

    /** Only an administrator invites; only a reused invitation id, token or event id throws. */
    method CommitCreateInvitation(
      actor: Actor, invitationId: InvitationId, granted: set<Authority>, tokenHash: string, expiresAt: int, eventId: EventId)
      returns (r: InvitationResult)
      requires Valid()
      modifies this
      ensures Valid() && T() == Apply(old(T()), CreatePlatformInvitation(actor, invitationId, granted, tokenHash, expiresAt, eventId))
      ensures r == InvitationForbidden <==> !Holds(old(T()), actor, PlatformAdmin)
      ensures r == InvitationDone <==>
                && Holds(old(T()), actor, PlatformAdmin) && invitationId !in old(invitations) && eventId !in old(platformAudit)
                && forall i :: i in old(invitations) ==> old(invitations)[i].tokenHash != tokenHash
      ensures r == InvitationForbidden || r == InvitationDone || r == InvitationThrew
      ensures T() == if r != InvitationDone then old(T())
                     else old(T()).(invitations := old(invitations)[invitationId :=
                                      Invitation(granted, tokenHash, expiresAt, Pending, 1)],
                                    platformAudit := old(platformAudit)[eventId :=
                                      Audit(actor.accountId, actor.identityId, None, InvitationCreated)])
    {
      hide Inv;
      var abort := Run(CreatePlatformInvitation(actor, invitationId, granted, tokenHash, expiresAt, eventId));
      r := match abort
           case None => InvitationDone
           case Some(GuardFailed) => if !IsPlatformActor(T(), actor) then InvitationForbidden else InvitationThrew
           case Some(_) => InvitationThrew;
    }

    /** Only an administrator revokes, and only an open invitation at the revision named. */
    method CommitRevokeInvitation(actor: Actor, invitationId: InvitationId, expectedRevision: nat, now: int, eventId: EventId)
      returns (r: InvitationResult)
      requires Valid()
      modifies this
      ensures Valid() && T() == Apply(old(T()), RevokePlatformInvitation(actor, invitationId, expectedRevision, now, eventId))
      ensures r == InvitationForbidden <==> !Holds(old(T()), actor, PlatformAdmin)
      ensures r == InvitationNotFound <==> Holds(old(T()), actor, PlatformAdmin) && invitationId !in old(invitations)
      ensures r == RevisionMismatch <==>
                && Holds(old(T()), actor, PlatformAdmin) && invitationId in old(invitations)
                && old(invitations)[invitationId].revision != expectedRevision
      ensures r == NotPending <==>
                && Holds(old(T()), actor, PlatformAdmin) && invitationId in old(invitations)
                && old(invitations)[invitationId].revision == expectedRevision
                && (old(invitations)[invitationId].status != Pending || old(invitations)[invitationId].expiresAt <= now)
      ensures r == InvitationThrew ==> eventId in old(platformAudit)
      ensures r == InvitationDone ==> eventId !in old(platformAudit)
      ensures r != InvitationDone ==> T() == old(T())
      ensures r == InvitationDone ==>
                && Holds(old(T()), actor, PlatformAdmin) && invitationId in old(invitations)
                && T() == old(T()).(invitations := old(invitations)[invitationId :=
                                      old(invitations)[invitationId].(status := Revoked, revision := expectedRevision + 1)],
                                    platformAudit := old(platformAudit)[eventId :=
                                      Audit(actor.accountId, actor.identityId, None, InvitationRevoked)])
    {
      hide Inv;
      var abort := Run(RevokePlatformInvitation(actor, invitationId, expectedRevision, now, eventId));
      if abort.None? {
        return InvitationDone;
      }
      if abort != Some(GuardFailed) {
        return InvitationThrew;
      }
      if !IsPlatformActor(T(), actor) {
        return InvitationForbidden;
      }
      if invitationId !in invitations {
        return InvitationNotFound;
      }
      r := if invitations[invitationId].revision != expectedRevision then RevisionMismatch else NotPending;
    }

    /** An open invitation with this token is taken once, and gives the taker exactly its authorities. */
    method CommitAcceptInvitation(actor: Actor, invitationId: InvitationId, tokenHash: string, now: int, eventId: EventId)
      returns (r: InvitationResult)
      requires Valid()
      modifies this
      ensures Valid() && T() == Apply(old(T()), AcceptPlatformInvitation(actor, invitationId, tokenHash, now, eventId))
      ensures r == AccountUnavailable <==> !ActsAs(old(T()), actor)
      ensures r == NotPending <==>
                ActsAs(old(T()), actor) && !Takable(old(T()), invitationId, tokenHash, now)
      ensures r == InvitationDone <==>
                ActsAs(old(T()), actor) && Takable(old(T()), invitationId, tokenHash, now) && eventId !in old(platformAudit)
      ensures r == AccountUnavailable || r == NotPending || r == InvitationDone || r == InvitationThrew
      ensures r != InvitationDone ==> T() == old(T())
      ensures r == InvitationDone ==>
                && (forall a, x :: (a, x) in authorities <==>
                      (a, x) in old(authorities) || (a == actor.accountId && x in old(invitations)[invitationId].authorities))
                && invitations == old(invitations)[invitationId :=
                     old(invitations)[invitationId].(status := Accepted, revision := old(invitations)[invitationId].revision + 1)]
                && platformAudit == old(platformAudit)[eventId :=
                     Audit(actor.accountId, actor.identityId, Some(actor.accountId), InvitationAccepted)]
                && T() == old(T()).(authorities := authorities, invitations := invitations, platformAudit := platformAudit)
    {
      hide Inv;
      var abort := Run(AcceptPlatformInvitation(actor, invitationId, tokenHash, now, eventId));
      if abort.None? {
        return InvitationDone;
      }
      if abort != Some(GuardFailed) {
        return InvitationThrew;
      }
      r := if !IsUnblocked(T(), actor.accountId) || !IsActive(T(), actor.identityId, actor.accountId)
           then AccountUnavailable else NotPending;
    }

    /** The answer says which guard stopped the removal; an App's last member is never removed. */
    method CommitRemoveAppMembership(actor: Actor, appId: AppId, target: AccountId, eventId: EventId)
      returns (r: MembershipResult)
      requires Valid()
      modifies this
      ensures Valid() && T() == Apply(old(T()), RemoveAppMembership(actor, appId, target, eventId))
      ensures r == ActorNotMember <==>
                !((appId, actor.accountId) in old(members) && Owns(old(T()), actor.accountId, actor.identityId))
      ensures r == LastMember <==>
                && (appId, actor.accountId) in old(members) && Owns(old(T()), actor.accountId, actor.identityId)
                && (appId, target) in old(members) && forall a :: (appId, a) in old(members) ==> a == target
      ensures r == MembershipThrew ==> (appId, target) in old(members) && eventId in old(appAudit)
      ensures r == Removed && (appId, target) in old(members) ==> eventId !in old(appAudit)
      ensures T() == if r != Removed || (appId, target) !in old(members) then old(T())
                     else old(T()).(members := old(members) - {(appId, target)},
                                    appAudit := old(appAudit)[eventId :=
                                      Audit(actor.accountId, actor.identityId, Some(target), MemberRemoved)])
    {
      hide Inv;
      if (appId, target) in members {
        OnlyMemberIsLast(T(), appId, target);
      }
      var abort := Run(RemoveAppMembership(actor, appId, target, eventId));
      if abort.None? {
        return Removed;
      }
      if abort != Some(GuardFailed) {
        return MembershipThrew;
      }
      if (appId, actor.accountId) !in members || !IsActive(T(), actor.identityId, actor.accountId) {
        return ActorNotMember;
      }
      if (appId, target) !in members {
        return Removed;
      }
      r := if |MembersOf(T(), appId)| <= 1 then LastMember else Removed;
    }

    // Which guard of a platform batch failed; None is unclassified.
    method PlatformMutationFailure(actor: Actor, target: AccountId, checkLastAdmin: bool) returns (r: Option<PlatformResult>)
      ensures r == if !Holds(T(), actor, PlatformAdmin) then Some(ActorForbidden)
                   else if target !in accounts then Some(TargetNotFound)
                   else if checkLastAdmin && OnlyAdministrator(T(), target) then Some(LastAdmin)
                   else None
    {
      OnlyAdministratorIsLast(T(), target);
      if !IsPlatformActor(T(), actor) {
        return Some(ActorForbidden);
      }
      if target !in accounts {
        return Some(TargetNotFound);
      }
      if checkLastAdmin && IsUnblocked(T(), target) && (target, PlatformAdmin) in authorities {
        if |Admins(T())| <= 1 {
          return Some(LastAdmin);
        }
      }
      r := None;
    }

    /** Every guard failure is classified; only a reused event id makes an effective change throw. */
    method CommitPlatformAuthority(actor: Actor, target: AccountId, authority: Authority, grant: bool, eventId: EventId)
      returns (r: PlatformResult)
      requires Valid()
      modifies this
      ensures Valid() && T() == Apply(old(T()), SetPlatformAuthority(actor, target, authority, grant, eventId))
      ensures r != SelfBlock
      ensures r == ActorForbidden <==> !Holds(old(T()), actor, PlatformAdmin)
      ensures r == TargetNotFound <==> Holds(old(T()), actor, PlatformAdmin) && target !in old(accounts)
      ensures r == LastAdmin <==>
                && Holds(old(T()), actor, PlatformAdmin) && target in old(accounts)
                && !grant && authority == PlatformAdmin && OnlyAdministrator(old(T()), target)
      ensures var changes := grant <==> (target, authority) !in old(authorities);
              && (r == PlatformThrew ==> changes && eventId in old(platformAudit))
              && (r == Updated && changes ==> eventId !in old(platformAudit))
              && T() == if r != Updated || !changes then old(T())
                        else old(T()).(authorities := if grant then old(authorities) + {(target, authority)}
                                                      else old(authorities) - {(target, authority)},
                                       platformAudit := old(platformAudit)[eventId :=
                                         Audit(actor.accountId, actor.identityId, Some(target), AuthorityChanged)])
    {
      hide Inv;
      OnlyAdministratorIsLast(T(), target);
      var abort := Run(SetPlatformAuthority(actor, target, authority, grant, eventId));
      if abort.None? {
        return Updated;
      }
      if abort != Some(GuardFailed) {
        return PlatformThrew;
      }
      var failure := PlatformMutationFailure(actor, target, authority == PlatformAdmin && !grant);
      r := if failure.Some? then failure.value else PlatformThrew;
    }

    /** The account ends blocked or restored as asked, unless a guard that is named failed or the event id is used. */
    method CommitPlatformBlock(actor: Actor, target: AccountId, block: bool, eventId: EventId, now: int)
      returns (r: PlatformResult)
      requires Valid()
      modifies this
      ensures Valid() && T() == Apply(old(T()), SetPlatformBlock(actor, target, block, eventId, now))
      ensures var self := block && actor.accountId == target;
              && (r == SelfBlock <==> self)
              && (r == ActorForbidden <==> !self && !Holds(old(T()), actor, PlatformAdmin))
              && (r == TargetNotFound <==> !self && Holds(old(T()), actor, PlatformAdmin) && target !in old(accounts))
              && r != LastAdmin
      ensures r == PlatformThrew ==> eventId in old(platformAudit) && target in old(accounts)
                                     && (block <==> Usable(old(T()), target))
      ensures r != Updated ==> T() == old(T())
      ensures r == Updated ==>
                var was := old(accounts)[target];
                var changes := block <==> was.blockedAt == None;
                && (changes ==> eventId !in old(platformAudit))
                && platformAudit == (if !changes then old(platformAudit)
                                     else old(platformAudit)[eventId :=
                                       Audit(actor.accountId, actor.identityId, Some(target), if block then Blocked else Restored)])
                && accounts == old(accounts)[target :=
                     if changes || eventId in old(platformAudit)
                     then (if block then Account(Some(now), was.credentialVersion + 1) else Account(None, was.credentialVersion))
                     else was]
                && T() == old(T()).(accounts := accounts, platformAudit := platformAudit)
    {
      hide Inv;
      OnlyAdministratorIsLast(T(), target);
      var abort := Run(SetPlatformBlock(actor, target, block, eventId, now));
      if abort.None? {
        return Updated;
      }
      if abort != Some(GuardFailed) {
        return PlatformThrew;
      }
      if block && actor.accountId == target {
        return SelfBlock;
      }
      var failure := PlatformMutationFailure(actor, target, block);
      r := if failure.Some? then failure.value else PlatformThrew;
    }

    method CommitLinkIdentity(accountId: AccountId, expectedVersion: nat, identityId: IdentityId, issuer: string, subject: string)
      returns (r: IdentityResult)
      requires Valid()
      modifies this
      ensures Valid() && T() == Apply(old(T()), LinkIdentity(accountId, expectedVersion, identityId, issuer, subject))
      ensures r == IdentityConflict <==> Linkable(old(T()), issuer, subject)
      ensures r == Linked <==>
                && !Linkable(old(T()), issuer, subject) && Usable(old(T()), accountId)
                && old(accounts)[accountId].credentialVersion == expectedVersion && identityId !in old(identities)
      ensures r == AccountBlocked <==> !Linkable(old(T()), issuer, subject) && !Usable(old(T()), accountId)
      ensures r == IdentityConflict || r == Linked || r == AccountBlocked || r == VersionMismatch
      ensures T() == if r != Linked then old(T())
                     else old(T()).(identities := old(identities)[identityId := Identity(accountId, issuer, subject, None)],
                                    accounts := old(accounts)[accountId := Account(None, expectedVersion + 1)])
    {
      hide Inv;
      var abort := Run(LinkIdentity(accountId, expectedVersion, identityId, issuer, subject));
      if abort.None? {
        return Linked;
      }
      if IsTaken(T(), issuer, subject) {
        return IdentityConflict;
      }
      r := if !IsUnblocked(T(), accountId) then AccountBlocked else VersionMismatch;
    }

    method CommitUnlinkIdentity(accountId: AccountId, expectedVersion: nat, target: IdentityId, remaining: IdentityId, now: int)
      returns (r: IdentityResult)
      requires Valid()
      modifies this
      ensures Valid() && T() == Apply(old(T()), UnlinkIdentity(accountId, expectedVersion, target, remaining, now))
      ensures r == AccountBlocked <==> !Usable(old(T()), accountId)
      ensures r == VersionMismatch <==>
                Usable(old(T()), accountId) && old(accounts)[accountId].credentialVersion != expectedVersion
      ensures r == IdentityNotFound <==>
                && Usable(old(T()), accountId) && old(accounts)[accountId].credentialVersion == expectedVersion
                && !(Owns(old(T()), accountId, target) && Owns(old(T()), accountId, remaining))
      ensures r == FinalIdentity <==>
                && Usable(old(T()), accountId) && old(accounts)[accountId].credentialVersion == expectedVersion
                && Owns(old(T()), accountId, target) && target == remaining
      ensures r == AccountBlocked || r == VersionMismatch || r == IdentityNotFound || r == FinalIdentity || r == Unlinked
      ensures r != Unlinked ==> T() == old(T())
      ensures r == Unlinked ==>
                T() == old(T()).(identities := old(identities)[target := old(identities)[target].(unlinkedAt := Some(now))],
                                 accounts := old(accounts)[accountId := Account(None, expectedVersion + 1)])
    {
      hide Inv;
      TwoActive(T(), accountId, target, remaining);
      var abort := Run(UnlinkIdentity(accountId, expectedVersion, target, remaining, now));
      if abort.None? {
        return Unlinked;
      }
      if !IsUnblocked(T(), accountId) {
        return AccountBlocked;
      }
      if accounts[accountId].credentialVersion != expectedVersion {
        return VersionMismatch;
      }
      if !IsActive(T(), target, accountId) || !IsActive(T(), remaining, accountId) {
        return IdentityNotFound;
      }
      r := if |ActiveIdentities(T(), accountId)| < 2 || target == remaining then FinalIdentity else IdentityNotFound;
    }

    /** The loop over aliases, with its visited set and its depth limit. */
    method ResolveCanonicalAccount(initialAccountId: AccountId) returns (r: Option<AccountId>)
      ensures r == Canonical(T(), initialAccountId)
      ensures forall a :: r == Some(a) <==> Leads(T(), initialAccountId, a)
    {
      ResolutionIsChain(T(), initialAccountId);
      var accountId, visited := initialAccountId, {};
      for depth := 0 to MAX_ALIAS_DEPTH + 1
        invariant depth == 0 || depth <= MAX_ALIAS_DEPTH ==>
                    Canonical(T(), initialAccountId) == Resolve(T(), accountId, visited, MAX_ALIAS_DEPTH - depth)
        invariant depth == MAX_ALIAS_DEPTH + 1 ==> Canonical(T(), initialAccountId).None?
      {
        if accountId in visited || accountId !in accounts {
          return None;
        }
        visited := visited + {accountId};
        if accountId !in aliases {
          return Some(accountId);
        }
        accountId := aliases[accountId];
      }
      r := None;
    }

    method AuthorizeCredential(c: Credential) returns (authorized: bool)
      ensures authorized <==> Authorizes(T(), c)
      ensures authorized <==>
                && Owns(T(), c.accountId, c.identityId)
                && exists a :: Leads(T(), c.accountId, a) && Usable(T(), a) && accounts[a].credentialVersion == c.version
    {
      ResolutionIsChain(T(), c.accountId);
      var account := ResolveCanonicalAccount(c.accountId);
      if account.None? || !IsUnblocked(T(), account.value) || accounts[account.value].credentialVersion != c.version {
        return false;
      }
      authorized := IsActive(T(), c.identityId, c.accountId);
    }
  }

  // Another active identity has this issuer and subject.
  ghost predicate Linkable(t: Tables, issuer: string, subject: string) {
    exists i :: i in t.identities && t.identities[i].unlinkedAt == None
                && t.identities[i].issuer == issuer && t.identities[i].subject == subject
  }

  ghost predicate Takable(t: Tables, invitationId: InvitationId, tokenHash: string, now: int) {
    && invitationId in t.invitations && t.invitations[invitationId].status == Pending
    && t.invitations[invitationId].expiresAt > now && t.invitations[invitationId].tokenHash == tokenHash
  }

  lemma OnlyMemberIsLast(t: Tables, appId: AppId, target: AccountId)
    requires (appId, target) in t.members
    ensures |MembersOf(t, appId)| <= 1 <==> forall a :: (appId, a) in t.members ==> a == target
  {
    if |MembersOf(t, appId)| <= 1 {
      OnlyOne(MembersOf(t, appId), (appId, target));
      forall a | (appId, a) in t.members
        ensures a == target
      {
        assert (appId, a) in MembersOf(t, appId);
      }
    }
    if forall a :: (appId, a) in t.members ==> a == target {
      assert MembersOf(t, appId) == {(appId, target)};
    }
  }

  lemma TwoActive(t: Tables, accountId: AccountId, a: IdentityId, b: IdentityId)
    ensures IsActive(t, a, accountId) && IsActive(t, b, accountId) && a != b ==> |ActiveIdentities(t, accountId)| >= 2
  {
    if IsActive(t, a, accountId) && IsActive(t, b, accountId) && a != b {
      var rest := ActiveIdentities(t, accountId) - {a, b};
      assert ActiveIdentities(t, accountId) == rest + {a, b};
    }
  }

  lemma OnlyOne<T>(s: set<T>, x: T)
    requires x in s && |s| <= 1
    ensures s == {x}
  {
    assert |s - {x}| == |s| - 1;
  }
}
