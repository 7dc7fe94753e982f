/** Invitations: how accounts, company profiles and invitations change together.
    Users are keyed by their unique e-mail, profiles by (user, company), invitations by their token.
  */
module Invitations {
  import opened Basics

  datatype Scope = GLOBAL | COMPANY | INTERNAL
  datatype Role = Role(scope: Scope, legacy: string)

  datatype AccessStatus = AccessPending | AccessActive | AccessBlocked | AccessReadOnly | AccessDisabled

  /** `password` is None when the account has no usable password. */
  datatype User = User(
    empresa: Option<int>, role: string, firstName: string, lastName: string, phone: string, avatar: Option<string>,
    active: bool, verified: bool, access: AccessStatus, password: Option<string>)

  datatype ProfileStatus = ProfilePending | ProfileActive | ProfileBlocked | ProfileReadOnly | ProfileRemoved

  datatype Profile = Profile(
    role: Option<int>, companyAdmin: bool, status: ProfileStatus, activatedAt: Option<int>, blockedAt: Option<int>,
    blockReason: string)

  datatype InvitationStatus = Pending | Accepted | Expired | Revoked

  /** `transferFrom` and `requiresPassword` are the entries of the metadata that the code reads. */
  datatype Invitation = Invitation(
    email: string, empresa: int, role: Option<int>, user: Option<string>, status: InvitationStatus, companyAdmin: bool,
    expiresAt: int, acceptedAt: Option<int>, revokedAt: Option<int>,
    transferFrom: Option<int>, requiresPassword: Option<bool>)

  /** What the operations only read: roles, internal companies, and the two text functions of e-mails. */
  datatype World = World(
    roles: map<int, Role>, internal: set<int>, defaultRole: Option<int>,
    normalize: string -> string, fold: string -> string)

  datatype Db = Db(
    users: map<string, User>, profiles: map<(string, int), Profile>, invitations: map<int, Invitation>, nextToken: int)

  datatype Failure =
    | GlobalRole | InternalRoleOutside | CompanyRoleInside | OtherCompany
    | NoSuchInvitation | NotValid | NoEmail | EmailTaken | PasswordRequired

  datatype Result = Done(db: Db, token: int, user: string) | Failed(reason: Failure)

  const EMPRESA := "EMPRESA"

  function OrText(a: string, b: string): string {
    if a != "" then a else b
  }

  // ---------- Shared step ----------

  /** `ensure_user_profile`: update or create; what it does not name stays. */
  function EnsureProfile(db: Db, user: string, company: int, role: Option<int>, admin: bool, status: ProfileStatus, now: int): Db {
    var base := if (user, company) in db.profiles then db.profiles[(user, company)]
                else Profile(None, false, ProfilePending, None, None, "");
    db.(profiles := db.profiles[(user, company) := base.(
                      role := role, companyAdmin := admin, status := status,
                      activatedAt := if status == ProfileActive then Some(now) else None)])
  }

  // ---------- Creating ----------

  datatype Request = Request(
    email: string, company: int, role: Option<int>, admin: bool, givenTransfer: Option<int>, allowTransfer: bool,
    now: int, expiresAt: int)

  function ChosenRole(w: World, q: Request): Option<int> {
    if q.role.None? then w.defaultRole else q.role
  }

  /** A pending invitation to this company for this e-mail, up to case. */
  predicate PendingFor(w: World, inv: Invitation, email: string, company: int) {
    inv.status == Pending && inv.empresa == company && w.fold(inv.email) == w.fold(email)
  }

  function RevokePending(w: World, db: Db, email: string, company: int, now: int): Db {
    db.(invitations := map t | t in db.invitations ::
                         if PendingFor(w, db.invitations[t], email, company)
                         then db.invitations[t].(status := Revoked, revokedAt := Some(now)) else db.invitations[t])
  }

  function RoleFailure(w: World, role: Option<int>, company: int): Option<Failure> {
    if role.None? || role.value !in w.roles || w.roles[role.value].scope == GLOBAL then Some(GlobalRole)
    else if w.roles[role.value].scope == INTERNAL && company !in w.internal then Some(InternalRoleOutside)
    else if w.roles[role.value].scope == COMPANY && company in w.internal then Some(CompanyRoleInside)
    else None
  }

  function FreshUser(company: int, legacy: string): User {
    User(Some(company), OrText(legacy, EMPRESA), "", "", "", None, false, false, AccessPending, None)
  }

  function Create(w: World, db: Db, q: Request): Result {
    var email, role := w.normalize(q.email), ChosenRole(w, q);
    var failure := RoleFailure(w, role, q.company);
    if failure.Some? then Failed(failure.value)
    else
      var created := email !in db.users;
      var user := if created then FreshUser(q.company, w.roles[role.value].legacy) else db.users[email];
      var previous := if created then None else user.empresa;
      var moving := previous.Some? && previous.value != q.company;
      if moving && !q.allowTransfer then Failed(OtherCompany)
      else
        var db1 := RevokePending(w, db, email, q.company, q.now);
        var token := db.nextToken;
        var inv := Invitation(email, q.company, role, Some(email), Pending, q.admin, q.expiresAt, None, None,
                              if moving then previous else q.givenTransfer,
                              Some(created || user.password.None?));
        var db2 := db1.(users := db1.users[email := user], invitations := db1.invitations[token := inv],
                        nextToken := token + 1);
        Done(EnsureProfile(db2, email, q.company, role, q.admin, InvitedStatus(db, email, q.company, user), q.now),
             token, email)
  }

  /** A profile that is in use stays active; any other becomes pending. */
  function InvitedStatus(db: Db, email: string, company: int, user: User): ProfileStatus {
    if (email, company) in db.profiles && db.profiles[(email, company)].status == ProfileActive && user.active
    then ProfileActive else ProfilePending
  }

  // ---------- Accepting ----------

  datatype Answer = Answer(
    token: int, firstName: string, lastName: string, password: string, phone: string, avatar: Option<string>, now: int)

  const TRANSFERRED := "Transferido a otra empresa mediante invitación."

  function RemoveOthers(db: Db, user: string, company: int): Db {
    db.(profiles := map k | k in db.profiles ::
                      if k.0 == user && k.1 != company
                      then db.profiles[k].(status := ProfileRemoved, companyAdmin := false, blockedAt := None,
                                           blockReason := TRANSFERRED)
                      else db.profiles[k])
  }

  predicate IsTransfer(inv: Invitation) {
    inv.transferFrom.Some? && inv.transferFrom.value != inv.empresa
  }

  function LegacyOf(w: World, role: Option<int>): string {
    if role.Some? && role.value in w.roles then w.roles[role.value].legacy else ""
  }

  function Completed(w: World, inv: Invitation, user: User, a: Answer, requiresPassword: bool): User {
    user.(
      firstName := a.firstName, lastName := a.lastName, phone := OrText(a.phone, user.phone),
      avatar := if a.avatar.Some? then a.avatar else user.avatar,
      empresa := Some(inv.empresa), role := OrText(LegacyOf(w, inv.role), user.role),
      verified := true, active := true, access := AccessActive,
      password := if requiresPassword then Some(a.password) else user.password)
  }

  function Accept(w: World, db: Db, a: Answer): Result {
    if a.token !in db.invitations then Failed(NoSuchInvitation)
    else
      var inv := db.invitations[a.token];
      if inv.status != Pending || a.now >= inv.expiresAt then Failed(NotValid)
      else if inv.user.None? && inv.email == "" then Failed(NoEmail)
      else if inv.user.None? && w.normalize(inv.email) in db.users then Failed(EmailTaken)
      else
        var key := if inv.user.Some? then inv.user.value else w.normalize(inv.email);
        var user := if key in db.users then db.users[key] else FreshUser(inv.empresa, LegacyOf(w, inv.role));
        var db1 := if IsTransfer(inv) then RemoveOthers(db, key, inv.empresa) else db;
        var mustSet := if inv.requiresPassword.Some? then inv.requiresPassword.value else user.password.None?;
        if mustSet && a.password == "" then Failed(PasswordRequired)
        else
          Done(AcceptedDb(db1, a, inv, key, Completed(w, inv, user, a, mustSet)), a.token, key)
  }

  /** The account, its profile and the invitation as a successful accept writes them. */
  function AcceptedDb(db: Db, a: Answer, inv: Invitation, key: string, user: User): Db {
    var db2 := EnsureProfile(db.(users := db.users[key := user]), key, inv.empresa, inv.role, inv.companyAdmin,
                             ProfileActive, a.now);
    db2.(invitations := db2.invitations[a.token := inv.(status := Accepted, acceptedAt := Some(a.now), user := Some(key))])
  }

  // ---------- Revoking and sending again ----------

  /** The endpoint revokes an invitation whatever its status. */
  function Revoke(db: Db, t: int, now: int): Db {
    if t !in db.invitations then db
    else db.(invitations := db.invitations[t := db.invitations[t].(status := Revoked, revokedAt := Some(now))])
  }

  /** `global` says whether the caller may transfer accounts. */
  datatype Again = Again(token: int, global: bool, now: int, expiresAt: int)

  /** What sending an invitation again asks for. */
  function SameRequest(inv: Invitation, q: Again): Request {
    Request(inv.email, inv.empresa, inv.role, inv.companyAdmin, inv.transferFrom, inv.transferFrom.Some? && q.global,
            q.now, q.expiresAt)
  }

  function Resend(w: World, db: Db, q: Again): Result {
    if q.token !in db.invitations then Failed(NoSuchInvitation)
    else Create(w, Revoke(db, q.token, q.now), SameRequest(db.invitations[q.token], q))
  }

  // ---------- The service ----------

  class InvitationService {
    var users: map<string, User>
    var profiles: map<(string, int), Profile>
    var invitations: map<int, Invitation>
    var nextToken: int

    function Now(): Db
      reads this
    {
      Db(users, profiles, invitations, nextToken)
    }

    /** What the end of the transaction leaves after an exception. */
    method Rollback(db: Db)
      modifies this
      ensures Now() == db
    {
      users, profiles, invitations, nextToken := db.users, db.profiles, db.invitations, db.nextToken;
    }

    method EnsureUserProfile(user: string, company: int, role: Option<int>, admin: bool, status: ProfileStatus, now: int)
      modifies this`profiles
      ensures Now() == EnsureProfile(old(Now()), user, company, role, admin, status, now)
    {
      var profile := Profile(None, false, ProfilePending, None, None, "");
      if (user, company) in profiles {
        profile := profiles[(user, company)];
      }
      profiles := profiles[(user, company) := profile.(
                             role := role, companyAdmin := admin, status := status,
                             activatedAt := if status == ProfileActive then Some(now) else None)];
    }

    /** The bulk update that revokes what was pending. */
    method RevokePendingFor(w: World, email: string, company: int, now: int)
      modifies this`invitations
      ensures invitations == RevokePending(w, old(Now()), email, company, now).invitations
    {
      invitations := map t | t in invitations ::
                       if PendingFor(w, invitations[t], email, company)
                       then invitations[t].(status := Revoked, revokedAt := Some(now)) else invitations[t];
    }

    /** `create_invitation` */
    method CreateInvitation(w: World, q: Request) returns (r: Result)
      modifies this
      ensures r == Create(w, old(Now()), q)
      ensures Now() == if r.Done? then r.db else old(Now())
    {
      hide EnsureProfile, PendingFor, OrText, FreshUser;
      var start := Now();
      var email, role := w.normalize(q.email), ChosenRole(w, q);
      var failure := RoleFailure(w, role, q.company);
      if failure.Some? {
        return Failed(failure.value);
      }
      RevokePendingFor(w, email, q.company, q.now);
      var created := email !in users;
      if created {
        users := users[email := FreshUser(q.company, w.roles[role.value].legacy)];
      }
      var user := users[email];
      var previous := if created then None else user.empresa;
      var transfer := q.givenTransfer;
      if previous.Some? && previous.value != q.company {
        if !q.allowTransfer {
          Rollback(start);
          return Failed(OtherCompany);
        }
        transfer := previous;
      }
      var token := nextToken;
      nextToken := nextToken + 1;
      invitations := invitations[token := Invitation(email, q.company, role, Some(email), Pending, q.admin, q.expiresAt,
                                                     None, None, transfer, Some(created || user.password.None?))];
      var status := ProfilePending;
      if (email, q.company) in profiles && profiles[(email, q.company)].status == ProfileActive && user.active {
        status := ProfileActive;
      }
      assert status == InvitedStatus(start, email, q.company, user);
      assert users == start.users[email := user];
      hide InvitedStatus, ChosenRole, RevokePending;
      EnsureUserProfile(email, q.company, role, q.admin, status, q.now);
      r := Done(Now(), token, email);
    }

    /** The bulk update of a transfer. */
    method RemoveOtherProfiles(user: string, company: int)
      modifies this`profiles
      ensures Now() == RemoveOthers(old(Now()), user, company)
    {
      profiles := map k | k in profiles ::
                    if k.0 == user && k.1 != company
                    then profiles[k].(status := ProfileRemoved, companyAdmin := false, blockedAt := None,
                                      blockReason := TRANSFERRED)
                    else profiles[k];
    }

    /** The writes at the end of a successful accept. */
    method FinishAccept(a: Answer, inv: Invitation, key: string, user: User)
      modifies this
      ensures Now() == AcceptedDb(old(Now()), a, inv, key, user)
    {
      hide EnsureProfile;
      users := users[key := user];
      EnsureUserProfile(key, inv.empresa, inv.role, inv.companyAdmin, ProfileActive, a.now);
      invitations := invitations[a.token := inv.(status := Accepted, acceptedAt := Some(a.now), user := Some(key))];
    }

    /** `accept_invitation` */
    method AcceptInvitation(w: World, a: Answer) returns (r: Result)
      modifies this
      ensures r == Accept(w, old(Now()), a)
      ensures Now() == if r.Done? then r.db else old(Now())
    {
      hide RemoveOthers, AcceptedDb, OrText, LegacyOf, FreshUser;
      var start := Now();
      if a.token !in invitations {
        return Failed(NoSuchInvitation);
      }
      var inv := invitations[a.token];
      if inv.status != Pending || a.now >= inv.expiresAt {
        return Failed(NotValid);
      }
      var key := if inv.user.Some? then inv.user.value else w.normalize(inv.email);
      var user := FreshUser(inv.empresa, LegacyOf(w, inv.role));
      if inv.user.None? {
        if inv.email == "" {
          return Failed(NoEmail);
        }
        if key in users {
          return Failed(EmailTaken);
        }
      }
      if key in users {
        user := users[key];
      }
      if IsTransfer(inv) {
        RemoveOtherProfiles(key, inv.empresa);
      }
      ghost var db1 := if IsTransfer(inv) then RemoveOthers(start, key, inv.empresa) else start;
      assert Now() == db1;
      ghost var base := user;
      user := user.(firstName := a.firstName, lastName := a.lastName, phone := OrText(a.phone, user.phone));
      if a.avatar.Some? {
        user := user.(avatar := a.avatar);
      }
      user := user.(empresa := Some(inv.empresa), role := OrText(LegacyOf(w, inv.role), user.role),
                    verified := true, active := true, access := AccessActive);
      var requiresPassword := if inv.requiresPassword.Some? then inv.requiresPassword.value else user.password.None?;
      if requiresPassword {
        if a.password == "" {
          Rollback(start);
          return Failed(PasswordRequired);
        }
        user := user.(password := Some(a.password));
      }
      assert user == Completed(w, inv, base, a, requiresPassword);
      FinishAccept(a, inv, key, user);
      r := Done(Now(), a.token, key);
    }

    /** `UserInvitationViewSet.revoke` */
    method RevokeInvitation(t: int, now: int)
      modifies this`invitations
      ensures Now() == Revoke(old(Now()), t, now)
    {
      if t in invitations {
        invitations := invitations[t := invitations[t].(status := Revoked, revokedAt := Some(now))];
      }
    }

    /** `UserInvitationViewSet.resend`: no transaction spans its two writes, so when creating fails the old
        invitation stays revoked. */
    method ResendInvitation(w: World, q: Again) returns (r: Result)
      modifies this
      ensures r == Resend(w, old(Now()), q)
      ensures Now() == if r.Done? then r.db else Revoke(old(Now()), q.token, q.now)
    {
      hide Create;
      if q.token !in invitations {
        return Failed(NoSuchInvitation);
      }
      var inv := invitations[q.token];
      RevokeInvitation(q.token, q.now);
      r := CreateInvitation(w, SameRequest(inv, q));
    }
  }
}
