/** What a successful create or accept writes, row by row, and who becomes administrator of a company. */
module InvitationWrites {
  import opened Basics
  import opened Invitations
  import opened InvitationRuns

  function AskedRole(w: World, q: Request): Option<int> {
    if q.role == None then w.defaultRole else q.role
  }

  // ---------- When the calls succeed ----------

  /** A create succeeds exactly if the role fits the company and an account of another company may be moved. */
  lemma CreateSucceedsIff(w: World, db: Db, q: Request)
    ensures Create(w, db, q).Done? <==>
            && RoleFits(w, AskedRole(w, q), q.company)
            && (w.normalize(q.email) in db.users && db.users[w.normalize(q.email)].empresa !in {None, Some(q.company)} ==>
                  q.allowTransfer)
    ensures Create(w, db, q) == Failed(OtherCompany) <==>
            && RoleFits(w, AskedRole(w, q), q.company) && !q.allowTransfer && w.normalize(q.email) in db.users
            && db.users[w.normalize(q.email)].empresa !in {None, Some(q.company)}
    ensures var role := AskedRole(w, q);
            && (Create(w, db, q) == Failed(GlobalRole) <==> role.None? || role.value !in w.roles || w.roles[role.value].scope == GLOBAL)
            && (Create(w, db, q) == Failed(InternalRoleOutside) <==>
                  role.Some? && role.value in w.roles && w.roles[role.value].scope == INTERNAL && q.company !in w.internal)
            && (Create(w, db, q) == Failed(CompanyRoleInside) <==>
                  role.Some? && role.value in w.roles && w.roles[role.value].scope == COMPANY && q.company in w.internal)
  {
    hide EnsureProfile, RevokePending, InvitedStatus, OrText;
  }

  /** The invitation can still be used. */
  predicate Open(db: Db, a: Answer) {
    a.token in db.invitations && db.invitations[a.token].status == Pending && a.now < db.invitations[a.token].expiresAt
  }

  /** The account that an invitation is for. */
  function AccountOf(w: World, inv: Invitation): string {
    match inv.user
    case Some(u) => u
    case None => w.normalize(inv.email)
  }

  /** An invitation without an account needs an address that no account has. */
  predicate CanHaveAccount(w: World, db: Db, inv: Invitation) {
    inv.user == None ==> inv.email != "" && w.normalize(inv.email) !in db.users
  }

  predicate MustSetPassword(w: World, db: Db, inv: Invitation) {
    match inv.requiresPassword
    case Some(b) => b
    case None => AccountOf(w, inv) !in db.users || db.users[AccountOf(w, inv)].password == None
  }

  lemma AcceptSucceedsIff(w: World, db: Db, a: Answer)
    ensures Accept(w, db, a).Done? <==>
            && Open(db, a) && CanHaveAccount(w, db, db.invitations[a.token])
            && (MustSetPassword(w, db, db.invitations[a.token]) ==> a.password != "")
    ensures Accept(w, db, a) == Failed(PasswordRequired) <==>
            && Open(db, a) && CanHaveAccount(w, db, db.invitations[a.token])
            && MustSetPassword(w, db, db.invitations[a.token]) && a.password == ""
    ensures (Accept(w, db, a) == Failed(NoSuchInvitation) <==> a.token !in db.invitations)
            && (Accept(w, db, a) == Failed(NotValid) <==> a.token in db.invitations && !Open(db, a))
    ensures (Accept(w, db, a) == Failed(NoEmail) <==> Open(db, a) && db.invitations[a.token].user == None && db.invitations[a.token].email == "")
            && (Accept(w, db, a) == Failed(EmailTaken) <==>
                  && Open(db, a) && db.invitations[a.token].user == None && db.invitations[a.token].email != ""
                  && w.normalize(db.invitations[a.token].email) in db.users)
  {
    hide AcceptedDb, RemoveOthers, Completed, OrText, LegacyOf;
  }

  // ---------- Rows written by a create ----------

  /** The profile of account and company has the role and the administrator flag given, keeps its block data, and
      is activated now exactly if it is active; no other profile changes. */
  ghost predicate ProfileWritten(before: Db, after: Db, k: (string, int), role: Option<int>, admin: bool, status: ProfileStatus, now: int) {
    && k in after.profiles
    && (forall o :: o != k ==> (o in after.profiles <==> o in before.profiles))
    && (forall o :: o != k && o in before.profiles ==> after.profiles[o] == before.profiles[o])
    && var p := after.profiles[k];
       && p.role == role && p.companyAdmin == admin && p.status == status
       && p.activatedAt == (if status == ProfileActive then Some(now) else None)
       && (if k in before.profiles then p.blockedAt == before.profiles[k].blockedAt && p.blockReason == before.profiles[k].blockReason
           else p.blockedAt == None && p.blockReason == "")
  }

  /** The account is new and waits to be activated. */
  predicate IsNewAccount(w: World, user: User, company: int, role: Option<int>) {
    && user.empresa == Some(company) && !user.active && !user.verified && user.access == AccessPending && user.password == None
    && user.firstName == user.lastName == user.phone == "" && user.avatar == None
    && user.role == if role.Some? && role.value in w.roles && w.roles[role.value].legacy != "" then w.roles[role.value].legacy
                    else "EMPRESA"
  }

  /** The account, made if there is none and otherwise left as it is. */
  ghost predicate AccountKept(w: World, before: Db, after: Db, email: string, company: int, role: Option<int>) {
    && email in after.users
    && (forall u :: u != email ==> (u in after.users <==> u in before.users))
    && (forall u :: u in before.users ==> u in after.users && after.users[u] == before.users[u])
    && (email !in before.users ==> IsNewAccount(w, after.users[email], company, role))
  }

  lemma CreateWritesAccount(w: World, db: Db, q: Request)
    requires Create(w, db, q).Done?
    ensures Create(w, db, q).user == w.normalize(q.email)
    ensures AccountKept(w, db, Create(w, db, q).db, w.normalize(q.email), q.company, AskedRole(w, q))
  {
    hide PendingFor, InvitedStatus;
  }

  /** The profile is an administrator exactly if the request says so. It stays active only if it was and the account
      is active. */
  lemma CreateWritesProfile(w: World, db: Db, q: Request)
    requires Create(w, db, q).Done?
    ensures var k := (w.normalize(q.email), q.company);
            var active := k in db.profiles && db.profiles[k].status == ProfileActive && k.0 in db.users && db.users[k.0].active;
            ProfileWritten(db, Create(w, db, q).db, k, AskedRole(w, q), q.admin, if active then ProfileActive else ProfilePending, q.now)
  {
    hide RoleFailure, PendingFor, OrText;
  }

  /** The new invitation says what was asked, when it ends, from where an account would move and whether a password
      is missing; those that were pending for the address and company are revoked now, and no other changes. */
  lemma CreateWritesInvitations(w: World, db: Db, q: Request)
    requires Create(w, db, q).Done?
    ensures var r, email := Create(w, db, q), w.normalize(q.email);
            var known := email in db.users;
            var rows, inv := r.db.invitations, r.db.invitations[r.token];
            && r.token == db.nextToken && r.db.nextToken == db.nextToken + 1 && r.token in rows
            && inv.email == email && inv.user == Some(email) && inv.empresa == q.company && inv.role == AskedRole(w, q)
            && inv.status == Pending && inv.companyAdmin == q.admin && inv.expiresAt == q.expiresAt
            && inv.acceptedAt == None && inv.revokedAt == None
            && inv.transferFrom == (if known && db.users[email].empresa !in {None, Some(q.company)} then db.users[email].empresa
                                    else q.givenTransfer)
            && inv.requiresPassword == Some(!known || db.users[email].password == None)
            && forall t :: t != r.token ==>
                 && (t in rows <==> t in db.invitations)
                 && (t in rows ==>
                       var earlier := db.invitations[t];
                       rows[t] == if earlier.status == Pending && earlier.empresa == q.company && w.fold(earlier.email) == w.fold(email)
                                  then earlier.(status := Revoked, revokedAt := Some(q.now)) else earlier)
  {
    hide RoleFailure, InvitedStatus, OrText;
  }

  // ---------- Rows written by an accept ----------

  /** The account takes the name, company and role of the invitation and is active; phone, picture and role stay
      when nothing is given for them, and so does the password when none has to be set. */
  predicate AccountActivated(w: World, inv: Invitation, a: Answer, before: User, after: User, sets: bool) {
    && after.firstName == a.firstName && after.lastName == a.lastName
    && after.phone == (if a.phone == "" then before.phone else a.phone)
    && after.avatar == (if a.avatar == None then before.avatar else a.avatar)
    && after.empresa == Some(inv.empresa) && after.active && after.verified && after.access == AccessActive
    && after.role == (if inv.role.Some? && inv.role.value in w.roles && w.roles[inv.role.value].legacy != ""
                      then w.roles[inv.role.value].legacy else before.role)
    && after.password == if sets then Some(a.password) else before.password
  }

  lemma AcceptWritesAccount(w: World, db: Db, a: Answer)
    requires Accept(w, db, a).Done?
    ensures var r, inv := Accept(w, db, a), db.invitations[a.token];
            var users := r.db.users;
            && r.token == a.token && r.user == AccountOf(w, inv) && r.user in users
            && (forall u :: u != r.user ==> (u in users <==> u in db.users) && (u in users ==> users[u] == db.users[u]))
            && (if r.user in db.users then
                  AccountActivated(w, inv, a, db.users[r.user], users[r.user], MustSetPassword(w, db, inv))
                else
                  exists made :: IsNewAccount(w, made, inv.empresa, inv.role)
                                   && AccountActivated(w, inv, a, made, users[r.user], MustSetPassword(w, db, inv)))
  {
    var inv := db.invitations[a.token];
    var made := FreshUser(inv.empresa, LegacyOf(w, inv.role));
    assert IsNewAccount(w, made, inv.empresa, inv.role);
    hide IsNewAccount;
  }

  /** The profile in the company of the invitation is active now, with the role and the administrator flag of the
      invitation. A transfer removes the other profiles of the account; nothing else about profiles changes. */
  lemma AcceptWritesProfiles(w: World, db: Db, a: Answer)
    requires Accept(w, db, a).Done?
    ensures var r, inv := Accept(w, db, a), db.invitations[a.token];
            var k, profiles := (r.user, inv.empresa), r.db.profiles;
            && k in profiles && profiles[k].role == inv.role && profiles[k].companyAdmin == inv.companyAdmin
            && profiles[k].status == ProfileActive && profiles[k].activatedAt == Some(a.now)
            && (if k in db.profiles
                then profiles[k].blockedAt == db.profiles[k].blockedAt && profiles[k].blockReason == db.profiles[k].blockReason
                else profiles[k].blockedAt == None && profiles[k].blockReason == "")
            && forall o :: o != k ==>
                 && (o in profiles <==> o in db.profiles)
                 && (o in profiles ==>
                       profiles[o] == if o.0 == r.user && inv.transferFrom !in {None, Some(inv.empresa)}
                                      then db.profiles[o].(status := ProfileRemoved, companyAdmin := false, blockedAt := None,
                                                           blockReason := "Transferido a otra empresa mediante invitación.")
                                      else db.profiles[o])
  {
    var r, inv := Accept(w, db, a), db.invitations[a.token];
    assert IsTransfer(inv) <==> inv.transferFrom !in {None, Some(inv.empresa)};
    var db1 := if IsTransfer(inv) then RemoveOthers(db, r.user, inv.empresa) else db;
    RemovedProfiles(db, r.user, inv.empresa);
    assert r.db.profiles == EnsureProfile(db1, r.user, inv.empresa, inv.role, inv.companyAdmin, ProfileActive, a.now).profiles;
    hide Accept, RemoveOthers;
  }

  lemma RemovedProfiles(db: Db, u: string, company: int)
    ensures var out := RemoveOthers(db, u, company);
            && out.profiles.Keys == db.profiles.Keys
            && forall o :: o in db.profiles ==>
                 out.profiles[o] == if o.0 == u && o.1 != company
                                    then db.profiles[o].(status := ProfileRemoved, companyAdmin := false, blockedAt := None,
                                                         blockReason := "Transferido a otra empresa mediante invitación.")
                                    else db.profiles[o]
  {
  }

  /** Only the invitation accepted changes: it is accepted now, for the account. */
  lemma AcceptWritesInvitation(w: World, db: Db, a: Answer)
    requires Accept(w, db, a).Done?
    ensures var r, inv := Accept(w, db, a), db.invitations[a.token];
            && r.db.nextToken == db.nextToken && r.db.invitations.Keys == db.invitations.Keys
            && r.db.invitations[a.token] == inv.(status := Accepted, acceptedAt := Some(a.now), user := Some(r.user))
            && forall t :: t in db.invitations && t != a.token ==> r.db.invitations[t] == db.invitations[t]
  {
    hide Completed, OrText, LegacyOf;
  }

  // ---------- Rows written by a resend ----------

  /** A resend asks for what the invitation asked for; an account of another company is moved only if the invitation
      was a transfer and the caller may transfer. */
  lemma ResendByFields(w: World, db: Db, q: Again)
    requires Linked(db) && q.token in db.invitations
    ensures var inv, r := db.invitations[q.token], Resend(w, db, q);
            var email, role := w.normalize(inv.email), if inv.role == None then w.defaultRole else inv.role;
            var elsewhere := email in db.users && db.users[email].empresa !in {None, Some(inv.empresa)};
            && (r.Done? <==> RoleFits(w, role, inv.empresa) && (elsewhere ==> q.global && inv.transferFrom != None))
            && (r.Done? ==>
                  && q.token in r.db.invitations && r.token in r.db.invitations && r.token != q.token
                  && r.db.invitations[q.token] == inv.(status := Revoked, revokedAt := Some(q.now))
                  && r.db.invitations[r.token] ==
                     Invitation(email, inv.empresa, role, Some(email), Pending, inv.companyAdmin, q.expiresAt, None, None,
                                if elsewhere then db.users[email].empresa else inv.transferFrom,
                                Some(email !in db.users || db.users[email].password == None))
                  && (email, inv.empresa) in r.db.profiles
                  && r.db.profiles[(email, inv.empresa)].role == role
                  && r.db.profiles[(email, inv.empresa)].companyAdmin == inv.companyAdmin
                  && (r.db.profiles[(email, inv.empresa)].status == ProfileActive ==>
                        r.db.profiles[(email, inv.empresa)].activatedAt == Some(q.now)))
  {
    var inv, mid := db.invitations[q.token], Revoke(db, q.token, q.now);
    var request := SameRequest(inv, q);
    CreateSucceedsIff(w, mid, request);
    if Create(w, mid, request).Done? {
      CreateWritesInvitations(w, mid, request);
      CreateWritesProfile(w, mid, request);
    }
    hide Create, RoleFits;
  }

  // ---------- Administrators ----------

  /** The call asks for an administrator of the company. */
  predicate AsksAdmin(w: World, op: Op, k: (string, int)) {
    op.DoCreate? && op.q.admin && w.normalize(op.q.email) == k.0 && op.q.company == k.1
  }

  /** The invitation is pending and makes its account an administrator of the company. */
  predicate OffersAdmin(w: World, inv: Invitation, k: (string, int)) {
    inv.status == Pending && inv.companyAdmin && AccountOf(w, inv) == k.0 && inv.empresa == k.1
  }

  ghost predicate AdminOffered(w: World, db: Db, k: (string, int)) {
    exists t :: t in db.invitations && OffersAdmin(w, db.invitations[t], k)
  }

  predicate IsAdmin(db: Db, k: (string, int)) {
    k in db.profiles && db.profiles[k].companyAdmin
  }

  lemma StepMakesAdmin(w: World, db: Db, op: Op, k: (string, int))
    ensures IsAdmin(Step(w, db, op), k) ==> IsAdmin(db, k) || AsksAdmin(w, op, k) || (op.DoAccept? && AdminOffered(w, db, k))
  {
    match op {
      case DoCreate(q) =>
        if Create(w, db, q).Done? {
          CreateWritesProfile(w, db, q);
        }
      case DoAccept(a) =>
        if Accept(w, db, a).Done? {
          AcceptWritesProfiles(w, db, a);
          AcceptWritesAccount(w, db, a);
          AcceptSucceedsIff(w, db, a);
          if IsAdmin(Step(w, db, op), k) && !IsAdmin(db, k) {
            assert OffersAdmin(w, db.invitations[a.token], k);
          }
        }
      case DoRevoke(t, now) =>
    }
    hide Create, Accept, AccountActivated, IsNewAccount, MustSetPassword;
  }

  lemma StepOffersAdmin(w: World, db: Db, op: Op, k: (string, int))
    ensures AdminOffered(w, Step(w, db, op), k) ==> AdminOffered(w, db, k) || AsksAdmin(w, op, k)
  {
    var db' := Step(w, db, op);
    if t :| t in db'.invitations && OffersAdmin(w, db'.invitations[t], k) {
      match op {
        case DoCreate(q) =>
          if Create(w, db, q).Done? {
            CreateWritesInvitations(w, db, q);
          }
        case DoAccept(a) =>
          if Accept(w, db, a).Done? {
            AcceptWritesInvitation(w, db, a);
          }
        case DoRevoke(_, now) =>
      }
      hide Create, Accept;
      if !AsksAdmin(w, op, k) {
        assert t in db.invitations && OffersAdmin(w, db.invitations[t], k);
      }
    }
  }

  /** Over every run, an account is administrator of a company only if it was at the start, an invitation pending at
      the start granted it, or a create of the run asked for it; and so with every invitation still pending. */
  lemma {:induction false} RunsTraceAdmins(w: World, db: Db, ops: seq<Op>, n: nat, k: (string, int))
    requires n <= |ops|
    ensures IsAdmin(After(w, db, ops, n), k) ==>
              IsAdmin(db, k) || AdminOffered(w, db, k) || exists m :: 0 <= m < n && AsksAdmin(w, ops[m], k)
    ensures AdminOffered(w, After(w, db, ops, n), k) ==>
              AdminOffered(w, db, k) || exists m :: 0 <= m < n && AsksAdmin(w, ops[m], k)
  {
    hide Step, IsAdmin, AdminOffered, AsksAdmin;
    if n > 0 {
      RunsTraceAdmins(w, db, ops, n - 1, k);
      StepMakesAdmin(w, After(w, db, ops, n - 1), ops[n - 1], k);
      StepOffersAdmin(w, After(w, db, ops, n - 1), ops[n - 1], k);
    }
  }
}
