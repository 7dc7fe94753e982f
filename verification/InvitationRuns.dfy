/** What every run of creating, accepting, revoking and resending invitations keeps. */
module InvitationRuns {
  import opened Basics
  import opened Invitations

  // ---------- Runs ----------

  datatype Op = DoCreate(q: Request) | DoAccept(a: Answer) | DoRevoke(token: int, now: int)

  function Committed(r: Result, db: Db): Db {
    match r
    case Done(db', _, _) => db'
    case Failed(_) => db
  }

  function Step(w: World, db: Db, op: Op): Db {
    match op
    case DoCreate(q) => Committed(Create(w, db, q), db)
    case DoAccept(a) => Committed(Accept(w, db, a), db)
    case DoRevoke(t, now) => Revoke(db, t, now)
  }

  /** The tables after the first `n` operations; a failing call changes nothing. */
  function After(w: World, db: Db, ops: seq<Op>, n: nat): Db
    requires n <= |ops|
  {
    if n == 0 then db else Step(w, After(w, db, ops, n - 1), ops[n - 1])
  }

  /** A resend is a revocation and then a creation, whether or not the creation succeeds, so what holds of
      every run holds of runs with resends. */
  lemma ResendIsTwoSteps(w: World, db: Db, q: Again)
    requires q.token in db.invitations
    ensures var r, ops := Resend(w, db, q), [DoRevoke(q.token, q.now), DoCreate(SameRequest(db.invitations[q.token], q))];
            After(w, db, ops, 2) == if r.Done? then r.db else Revoke(db, q.token, q.now)
  {
    hide Create;
    var ops := [DoRevoke(q.token, q.now), DoCreate(SameRequest(db.invitations[q.token], q))];
    assert After(w, db, ops, 1) == Step(w, After(w, db, ops, 0), ops[0]);
  }

  /** Tokens are new, and every invitation names an account that exists. */
  predicate Linked(db: Db) {
    && (forall t :: t in db.invitations ==> t < db.nextToken)
    && (forall t :: t in db.invitations && db.invitations[t].user.Some? ==> db.invitations[t].user.value in db.users)
  }

  lemma StepKeepsLinked(w: World, db: Db, op: Op)
    requires Linked(db)
    ensures Linked(Step(w, db, op))
  {
    hide Completed, RoleFailure, OrText;
  }

  lemma {:induction false} RunsStayLinked(w: World, db: Db, ops: seq<Op>, n: nat)
    requires Linked(db) && n <= |ops|
    ensures Linked(After(w, db, ops, n))
  {
    hide Linked, Step;
    if n > 0 {
      RunsStayLinked(w, db, ops, n - 1);
      StepKeepsLinked(w, After(w, db, ops, n - 1), ops[n - 1]);
    }
  }

  // ---------- One pending invitation ----------

  predicate SameAddress(w: World, a: Invitation, b: Invitation) {
    a.status == Pending && b.status == Pending && a.empresa == b.empresa && w.fold(a.email) == w.fold(b.email)
  }

  ghost predicate OnePending(w: World, db: Db) {
    forall s, t :: BothPending(w, db, s, t) ==> s == t
  }

  predicate BothPending(w: World, db: Db, s: int, t: int) {
    s in db.invitations && t in db.invitations && SameAddress(w, db.invitations[s], db.invitations[t])
  }

  /** One call leaves two invitations pending for one address and company only if they were so before. */
  lemma StepAddsNoSecond(w: World, db: Db, op: Op, s: int, t: int)
    requires s != t && BothPending(w, Step(w, db, op), s, t)
    ensures BothPending(w, db, s, t)
  {
    hide Completed, RoleFailure;
  }

  /** No run leaves two invitations pending for one e-mail, up to case, and one company unless both were
      pending at its start. */
  lemma {:induction false} RunsKeepOnePending(w: World, db: Db, ops: seq<Op>, n: nat)
    requires n <= |ops|
    ensures forall s, t :: s != t && BothPending(w, After(w, db, ops, n), s, t) ==> BothPending(w, db, s, t)
    ensures OnePending(w, db) ==> OnePending(w, After(w, db, ops, n))
  {
    hide BothPending, Step;
    if n > 0 {
      RunsKeepOnePending(w, db, ops, n - 1);
      forall s, t | s != t && BothPending(w, After(w, db, ops, n), s, t)
        ensures BothPending(w, db, s, t)
      {
        StepAddsNoSecond(w, After(w, db, ops, n - 1), ops[n - 1], s, t);
      }
    }
  }

  // ---------- Roles ----------

  /** A role fits a company when its scope matches whether the company is internal; a global role never does. */
  predicate RoleFits(w: World, role: Option<int>, company: int) {
    role.Some? && role.value in w.roles
    && match w.roles[role.value].scope
       case GLOBAL => false
       case INTERNAL => company in w.internal
       case COMPANY => company !in w.internal
  }

  /** The role fits, or an invitation pending at the start promised it. */
  ghost predicate Offered(w: World, start: Db, role: Option<int>, company: int) {
    RoleFits(w, role, company)
    || exists t :: t in start.invitations && IsOffer(start.invitations[t], role, company)
  }

  predicate IsOffer(inv: Invitation, role: Option<int>, company: int) {
    inv.status == Pending && inv.role == role && inv.empresa == company
  }

  /** Where the role of a profile and the role of a pending invitation come from. */
  ghost predicate ProfileTraced(w: World, start: Db, db: Db, k: (string, int)) {
    k in db.profiles ==>
      || (k in start.profiles && db.profiles[k].role == start.profiles[k].role)
      || Offered(w, start, db.profiles[k].role, k.1)
  }

  ghost predicate InvitationTraced(w: World, start: Db, db: Db, t: int) {
    t in db.invitations && db.invitations[t].status == Pending ==> Offered(w, start, db.invitations[t].role, db.invitations[t].empresa)
  }

  ghost predicate RolesTraced(w: World, start: Db, db: Db) {
    (forall k :: ProfileTraced(w, start, db, k)) && forall t :: InvitationTraced(w, start, db, t)
  }

  /** A creation writes a role that fits; an accept writes the role its invitation offers. */
  lemma StepWritesProfile(w: World, db: Db, op: Op, k: (string, int))
    requires k in Step(w, db, op).profiles
    ensures var role := Step(w, db, op).profiles[k].role;
            || (k in db.profiles && db.profiles[k].role == role)
            || RoleFits(w, role, k.1)
            || (op.DoAccept? && op.a.token in db.invitations && IsOffer(db.invitations[op.a.token], role, k.1))
  {
    hide Completed, PendingFor, InvitedStatus, OrText;
  }

  lemma StepWritesInvitation(w: World, db: Db, op: Op, t: int)
    requires t in Step(w, db, op).invitations && Step(w, db, op).invitations[t].status == Pending
    ensures var inv := Step(w, db, op).invitations[t];
            RoleFits(w, inv.role, inv.empresa) || (t in db.invitations && IsOffer(db.invitations[t], inv.role, inv.empresa))
  {
    hide Completed, InvitedStatus, OrText;
  }

  lemma StepTracesRoles(w: World, start: Db, db: Db, op: Op)
    requires RolesTraced(w, start, db)
    ensures RolesTraced(w, start, Step(w, db, op))
  {
    var db' := Step(w, db, op);
    hide Step;
    forall t
      ensures InvitationTraced(w, start, db', t)
    {
      assert InvitationTraced(w, start, db, t);
      if t in db'.invitations && db'.invitations[t].status == Pending {
        StepWritesInvitation(w, db, op, t);
      }
    }
    forall k
      ensures ProfileTraced(w, start, db', k)
    {
      assert ProfileTraced(w, start, db, k);
      if k in db'.profiles {
        StepWritesProfile(w, db, op, k);
        if op.DoAccept? {
          assert InvitationTraced(w, start, db, op.a.token);
        }
      }
    }
  }

  /** Over every run, whatever the roles at its start, a profile either keeps the role it had or holds one that
      fits its company or was promised by an invitation pending at the start. */
  lemma {:induction false} RunsTraceRoles(w: World, db: Db, ops: seq<Op>, n: nat)
    requires n <= |ops|
    ensures RolesTraced(w, db, After(w, db, ops, n))
  {
    if n == 0 {
      forall t
        ensures InvitationTraced(w, db, db, t)
      {
        assert t in db.invitations && db.invitations[t].status == Pending ==>
                 IsOffer(db.invitations[t], db.invitations[t].role, db.invitations[t].empresa);
      }
    } else {
      hide RolesTraced, Step;
      RunsTraceRoles(w, db, ops, n - 1);
      StepTracesRoles(w, db, After(w, db, ops, n - 1), ops[n - 1]);
    }
  }

  /** The roles of pending invitations fit, as those of every invitation that `create_invitation` makes do. */
  predicate PendingFit(w: World, db: Db) {
    forall t :: t in db.invitations && db.invitations[t].status == Pending ==>
                  RoleFits(w, db.invitations[t].role, db.invitations[t].empresa)
  }

  /** If the roles of pending invitations fit at the start, they always do, and every profile whose role a run
      changes, or that it adds, has a role that fits its company; so if all roles fit, all still do. */
  lemma WrittenRolesFit(w: World, db: Db, ops: seq<Op>, n: nat)
    requires PendingFit(w, db) && n <= |ops|
    ensures var out := After(w, db, ops, n);
            && PendingFit(w, out)
            && (forall k :: k in out.profiles ==>
                  RoleFits(w, out.profiles[k].role, k.1) || (k in db.profiles && out.profiles[k].role == db.profiles[k].role))
            && ((forall k :: k in db.profiles ==> RoleFits(w, db.profiles[k].role, k.1)) ==>
                  forall k :: k in out.profiles ==> RoleFits(w, out.profiles[k].role, k.1))
  {
    var out := After(w, db, ops, n);
    RunsTraceRoles(w, db, ops, n);
    hide After, RoleFits;
    forall t | t in out.invitations && out.invitations[t].status == Pending
      ensures RoleFits(w, out.invitations[t].role, out.invitations[t].empresa)
    {
      assert InvitationTraced(w, db, out, t);
    }
    forall k | k in out.profiles
      ensures RoleFits(w, out.profiles[k].role, k.1) || (k in db.profiles && out.profiles[k].role == db.profiles[k].role)
    {
      assert ProfileTraced(w, db, out, k);
    }
  }

  // ---------- Companies ----------

  /** Only an accept moves an account: the one of its invitation, to the company of the invitation. */
  lemma StepMovesOnlyByAccept(w: World, db: Db, op: Op, u: string)
    requires u in db.users
    ensures var db' := Step(w, db, op);
            && u in db'.users
            && (db'.users[u].empresa != db.users[u].empresa ==>
                  && op.DoAccept? && Accept(w, db, op.a).Done? && Accept(w, db, op.a).user == u
                  && db'.users[u].empresa == Some(db.invitations[op.a.token].empresa))
  {
    hide RoleFailure, PendingFor;
  }

  /** If the company of an account differs at the end of a run, some successful accept of an invitation
      for that account moved it there. */
  lemma {:induction false} CompanyChangesOnlyByAccept(w: World, db: Db, ops: seq<Op>, n: nat, u: string) returns (k: nat)
    requires n <= |ops| && u in db.users
    ensures u in After(w, db, ops, n).users
    ensures After(w, db, ops, n).users[u].empresa != db.users[u].empresa ==>
              && k < n && ops[k].DoAccept?
              && Accept(w, After(w, db, ops, k), ops[k].a).Done? && Accept(w, After(w, db, ops, k), ops[k].a).user == u
              && After(w, db, ops, n).users[u].empresa == Some(After(w, db, ops, k).invitations[ops[k].a.token].empresa)
  {
    hide Step, Accept;
    k := 0;
    if n > 0 {
      k := CompanyChangesOnlyByAccept(w, db, ops, n - 1, u);
      var mid := After(w, db, ops, n - 1);
      StepMovesOnlyByAccept(w, mid, ops[n - 1], u);
      if Step(w, mid, ops[n - 1]).users[u].empresa != mid.users[u].empresa {
        k := n - 1;
      }
    }
  }

  // ---------- The history of an invitation ----------

  predicate Revokes(op: Op, t: int) {
    op.DoRevoke? && op.token == t
  }

  /** One call never deletes an invitation, and changes one that is not pending only by revoking it. */
  lemma StepKeepsHistory(w: World, db: Db, op: Op, t: int)
    requires Linked(db) && t in db.invitations
    ensures var db' := Step(w, db, op);
            && t in db'.invitations
            && (db.invitations[t].status != Pending && !Revokes(op, t) ==> db'.invitations[t] == db.invitations[t])
            && (Revokes(op, t) ==> db'.invitations[t] == db.invitations[t].(status := Revoked, revokedAt := Some(op.now)))
  {
    hide Completed, RoleFailure;
  }

  ghost predicate RevokedBetween(ops: seq<Op>, m: nat, n: nat, t: int)
    requires n <= |ops|
  {
    exists k :: m <= k < n && Revokes(ops[k], t)
  }

  /** Over a run no invitation disappears, and one that is no longer pending never is again. It stays as it is
      exactly as long as nobody revokes it; revoking overwrites the status of an accepted one too. */
  lemma {:induction false} RunsKeepHistory(w: World, db: Db, ops: seq<Op>, m: nat, n: nat, t: int)
    requires Linked(db) && m <= n <= |ops| && t in After(w, db, ops, m).invitations
    ensures var early, late := After(w, db, ops, m), After(w, db, ops, n);
            && t in late.invitations
            && (early.invitations[t].status != Pending ==>
                  var before, after := early.invitations[t], late.invitations[t];
                  if RevokedBetween(ops, m, n, t) then after == before.(status := Revoked, revokedAt := after.revokedAt)
                  else after == before)
    decreases n
  {
    hide Linked, Step;
    if m < n {
      RunsKeepHistory(w, db, ops, m, n - 1, t);
      RunsStayLinked(w, db, ops, n - 1);
      StepKeepsHistory(w, After(w, db, ops, n - 1), ops[n - 1], t);
      assert RevokedBetween(ops, m, n, t) <==> RevokedBetween(ops, m, n - 1, t) || Revokes(ops[n - 1], t);
    }
  }

  /** The `n`-th call of the run accepts the invitation `t`. */
  predicate Accepts(w: World, db: Db, ops: seq<Op>, n: nat, t: int)
    requires n < |ops|
  {
    ops[n].DoAccept? && ops[n].a.token == t && Accept(w, After(w, db, ops, n), ops[n].a).Done?
  }

  lemma AcceptFinishes(w: World, db: Db, ops: seq<Op>, n: nat, t: int)
    requires n < |ops| && Accepts(w, db, ops, n, t)
    ensures t in After(w, db, ops, n).invitations && After(w, db, ops, n).invitations[t].status == Pending
    ensures t in After(w, db, ops, n + 1).invitations && After(w, db, ops, n + 1).invitations[t].status == Accepted
  {
    hide Completed;
  }

  /** Once an invitation is revoked, accepted or expired, no later call accepts it. */
  lemma ClosedIsNotAccepted(w: World, db: Db, ops: seq<Op>, m: nat, n: nat, t: int)
    requires Linked(db) && m <= n < |ops|
    requires t in After(w, db, ops, m).invitations && After(w, db, ops, m).invitations[t].status != Pending
    ensures !Accepts(w, db, ops, n, t)
  {
    hide After, Accept;
    RunsKeepHistory(w, db, ops, m, n, t);
    if Accepts(w, db, ops, n, t) {
      AcceptFinishes(w, db, ops, n, t);
    }
  }

  /** In a run an invitation is accepted at most once, whatever else happens in between. */
  lemma AcceptedAtMostOnce(w: World, db: Db, ops: seq<Op>, m: nat, n: nat, t: int)
    requires Linked(db) && m < |ops| && n < |ops|
    requires Accepts(w, db, ops, m, t) && Accepts(w, db, ops, n, t)
    ensures m == n
  {
    hide After, Accept;
    AcceptFinishes(w, db, ops, m, t);
    AcceptFinishes(w, db, ops, n, t);
    if m < n {
      ClosedIsNotAccepted(w, db, ops, m + 1, n, t);
    }
    if n < m {
      ClosedIsNotAccepted(w, db, ops, n + 1, m, t);
    }
  }

  // ---------- Passwords ----------

  /** An invitation that asks for no password belongs to an account that has one. */
  predicate Credentials(db: Db) {
    forall t :: t in db.invitations && db.invitations[t].requiresPassword == Some(false) ==>
                  && db.invitations[t].user.Some? && HasPassword(db, db.invitations[t].user.value)
  }

  predicate HasPassword(db: Db, u: string) {
    u in db.users && db.users[u].password.Some?
  }

  lemma CreateKeepsCredentials(w: World, db: Db, q: Request)
    requires Credentials(db) && Create(w, db, q).Done?
    ensures Credentials(Create(w, db, q).db)
    ensures forall u :: HasPassword(db, u) ==> HasPassword(Create(w, db, q).db, u)
  {
    hide RoleFailure, PendingFor, InvitedStatus, OrText;
  }

  lemma AcceptKeepsCredentials(w: World, db: Db, a: Answer)
    requires Linked(db) && Credentials(db) && Accept(w, db, a).Done?
    ensures var r := Accept(w, db, a);
            && Credentials(r.db) && HasPassword(r.db, r.user) && r.db.users[r.user].active
            && forall u :: HasPassword(db, u) ==> HasPassword(r.db, u)
  {
    hide OrText, LegacyOf;
  }

  lemma StepKeepsCredentials(w: World, db: Db, op: Op)
    requires Linked(db) && Credentials(db)
    ensures Credentials(Step(w, db, op))
    ensures forall u :: HasPassword(db, u) ==> HasPassword(Step(w, db, op), u)
  {
    hide Create, Accept;
    match op {
      case DoCreate(q) =>
        if Create(w, db, q).Done? {
          CreateKeepsCredentials(w, db, q);
        }
      case DoAccept(a) =>
        if Accept(w, db, a).Done? {
          AcceptKeepsCredentials(w, db, a);
        }
      case DoRevoke(t, now) =>
    }
  }

  /** An accept leaves its account without a password exactly if the invitation waives one and there is none. */
  lemma NoPasswordIff(w: World, db: Db, a: Answer)
    requires Accept(w, db, a).Done?
    ensures var r, inv := Accept(w, db, a), db.invitations[a.token];
            !HasPassword(r.db, r.user) <==> inv.requiresPassword == Some(false) && !HasPassword(db, r.user)
  {
    hide OrText, LegacyOf;
  }

  /** Over a run no account loses its password, and every account that an accept activates has one. */
  lemma {:induction false} RunsKeepPasswords(w: World, db: Db, ops: seq<Op>, n: nat)
    requires Linked(db) && Credentials(db) && n <= |ops|
    ensures Credentials(After(w, db, ops, n))
    ensures forall u :: HasPassword(db, u) ==> HasPassword(After(w, db, ops, n), u)
    ensures forall k, t :: 0 <= k < n && Accepts(w, db, ops, k, t) ==>
                             var r := Accept(w, After(w, db, ops, k), ops[k].a);
                             HasPassword(r.db, r.user) && r.db.users[r.user].active
  {
    hide Linked, Step, Credentials, Accept, HasPassword;
    if n > 0 {
      RunsKeepPasswords(w, db, ops, n - 1);
      RunsStayLinked(w, db, ops, n - 1);
      var mid := After(w, db, ops, n - 1);
      StepKeepsCredentials(w, mid, ops[n - 1]);
      if ops[n - 1].DoAccept? && Accept(w, mid, ops[n - 1].a).Done? {
        AcceptKeepsCredentials(w, mid, ops[n - 1].a);
      }
      hide After;
    }
  }

  // ---------- What one call achieves ----------

  /** After creating, the new invitation is the one pending for that address and company, and the account
      keeps everything it had. */
  lemma CreateLeavesOnePending(w: World, db: Db, q: Request, t: int)
    requires Linked(db) && Create(w, db, q).Done?
    ensures var r := Create(w, db, q);
            && r.token !in db.invitations && r.token in r.db.invitations
            && (t in r.db.invitations ==>
                  (PendingFor(w, r.db.invitations[t], w.normalize(q.email), q.company) <==> t == r.token))
            && (r.user in db.users ==> r.db.users == db.users)
            && (r.db.invitations[r.token].requiresPassword ==
                Some(r.user !in db.users || db.users[r.user].password.None?))
  {
  }

  /** A transfer leaves the account active in the new company alone. */
  lemma TransferRemovesOthers(w: World, db: Db, a: Answer, company: int)
    requires Accept(w, db, a).Done? && IsTransfer(db.invitations[a.token])
    ensures var r := Accept(w, db, a);
            var own := db.invitations[a.token].empresa;
            && (r.user, own) in r.db.profiles && r.db.profiles[(r.user, own)].status == ProfileActive
            && (company != own && (r.user, company) in r.db.profiles ==>
                  r.db.profiles[(r.user, company)].status == ProfileRemoved
                  && !r.db.profiles[(r.user, company)].companyAdmin)
            && (forall k :: k in db.profiles && k.0 != r.user ==> k in r.db.profiles && r.db.profiles[k] == db.profiles[k])
  {
  }

  /** Reinviting an account with a password never forces a new one: accepting in time without one works
      and keeps the old password. */
  lemma ReinvitationKeepsPassword(w: World, db: Db, q: Request, a: Answer)
    requires Create(w, db, q).Done?
    requires w.normalize(q.email) in db.users && db.users[w.normalize(q.email)].password.Some?
    requires a.token == Create(w, db, q).token && a.password == "" && a.now < q.expiresAt
    ensures var r := Accept(w, Create(w, db, q).db, a);
            r.Done? && r.db.users[r.user].password == db.users[w.normalize(q.email)].password
            && r.db.users[r.user].empresa == Some(q.company)
  {
  }

  /** A new account cannot be activated without a password, and the attempt changes nothing. */
  lemma NewAccountNeedsPassword(w: World, db: Db, q: Request, a: Answer)
    requires Create(w, db, q).Done?
    requires w.normalize(q.email) !in db.users
    requires a.token == Create(w, db, q).token && a.password == "" && a.now < q.expiresAt
    ensures Accept(w, Create(w, db, q).db, a) == Failed(PasswordRequired)
    ensures Step(w, Create(w, db, q).db, DoAccept(a)) == Create(w, db, q).db
  {
  }
}
