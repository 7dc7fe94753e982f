/** In how many companies an account is active: the invitations alone do not keep it to one. */
module InvitationProfiles {
  import opened Basics
  import opened Invitations
  import opened InvitationRuns

  predicate ActiveIn(db: Db, u: string, company: int) {
    (u, company) in db.profiles && db.profiles[(u, company)].status == ProfileActive
  }

  ghost predicate OneActive(db: Db, u: string) {
    forall c, c' :: ActiveIn(db, u, c) && ActiveIn(db, u, c') ==> c == c'
  }

  /** Creating an invitation activates no profile, so it also keeps an account active in one company. */
  lemma CreateActivatesNothing(w: World, db: Db, q: Request, u: string)
    requires Create(w, db, q).Done?
    ensures forall c :: ActiveIn(Create(w, db, q).db, u, c) ==> ActiveIn(db, u, c)
    ensures OneActive(db, u) ==> OneActive(Create(w, db, q).db, u)
  {
    forall c | ActiveIn(Create(w, db, q).db, u, c)
      ensures ActiveIn(db, u, c)
    {
    }
    hide Create, ActiveIn;
  }

  /** An accept leaves its account active in one company exactly if it is a transfer or the account was
      active in no other company. */
  lemma AcceptLeavesOneActiveIff(w: World, db: Db, a: Answer)
    requires Accept(w, db, a).Done?
    ensures var r, inv := Accept(w, db, a), db.invitations[a.token];
            OneActive(r.db, r.user) <==> IsTransfer(inv) || forall c :: ActiveIn(db, r.user, c) ==> c == inv.empresa
  {
    var r, inv := Accept(w, db, a), db.invitations[a.token];
    AcceptedProfiles(w, db, a);
    assert ActiveIn(r.db, r.user, inv.empresa);
    hide Accept, ActiveIn;
  }

  lemma AcceptedProfiles(w: World, db: Db, a: Answer)
    requires Accept(w, db, a).Done?
    ensures var r, inv := Accept(w, db, a), db.invitations[a.token];
            forall c :: ActiveIn(r.db, r.user, c) <==> c == inv.empresa || (!IsTransfer(inv) && ActiveIn(db, r.user, c))
  {
    hide Completed;
  }

  const CLIENT: Role := Role(COMPANY, "EMPRESA")
  const WORLD: World := World(map[1 := CLIENT], {}, Some(1), (s: string) => s, (s: string) => s)

  /** An account at company 1 with a password and an active profile there. */
  function Employee(): Db {
    Db(map["u" := User(Some(1), "EMPRESA", "", "", "", None, true, true, AccessActive, Some("p"))],
       map[("u", 1) := Profile(Some(1), false, ProfileActive, None, None, "")], map[], 1)
  }

  function Invite(company: int): Request {
    Request("u", company, Some(1), false, None, true, 0, 9)
  }

  function Reply(token: int): Answer {
    Answer(token, "", "", "", "", None, 1)
  }

  function Story(): seq<Op> {
    [DoCreate(Invite(1)), DoCreate(Invite(2)), DoAccept(Reply(2)), DoAccept(Reply(1))]
  }

  /** Invitation `t` to `company` is pending for the account, which need not give a password. */
  predicate Waiting(db: Db, t: int, company: int, from: Option<int>) {
    t in db.invitations
    && var inv := db.invitations[t];
       inv == Invitation("u", company, Some(1), Some("u"), Pending, false, 9, None, None, from, Some(false))
  }

  /** The account belongs to `company`, and only the profiles of `actives` are active. */
  predicate Holder(db: Db, company: int) {
    "u" in db.users && db.users["u"].empresa == Some(company) && db.users["u"].password.Some? && db.users["u"].active
  }

  ghost predicate ActiveExactly(db: Db, actives: set<int>) {
    forall c :: ActiveIn(db, "u", c) <==> c in actives
  }

  lemma StoryCreates(db: Db, company: int)
    requires Holder(db, 1) && ActiveExactly(db, {1}) && company in {1, 2} && db.nextToken !in db.invitations
    ensures var db' := Step(WORLD, db, DoCreate(Invite(company)));
            && Holder(db', 1) && ActiveExactly(db', {1}) && db'.nextToken == db.nextToken + 1
            && Waiting(db', db.nextToken, company, if company == 1 then None else Some(1))
            && (forall t :: t in db.invitations && db.invitations[t].empresa != company ==>
                              t in db'.invitations && db'.invitations[t] == db.invitations[t])
            && forall t :: t in db'.invitations ==> t in db.invitations || t == db.nextToken
  {
    assert ActiveIn(db, "u", 1);
  }

  lemma StoryAccepts(db: Db, t: int, company: int, from: Option<int>, other: int)
    requires "u" in db.users && db.users["u"].password.Some? && Waiting(db, t, company, from)
    ensures Accept(WORLD, db, Reply(t)).Done? && Accept(WORLD, db, Reply(t)).user == "u"
    ensures var db' := Step(WORLD, db, DoAccept(Reply(t)));
            && "u" in db'.users && db'.users["u"].password.Some?
            && (other in db.invitations && other != t ==> other in db'.invitations && db'.invitations[other] == db.invitations[other])
            && forall c :: ActiveIn(db', "u", c) <==>
                             c == company || ((from.None? || from == Some(company)) && ActiveIn(db, "u", c))
  {
    AcceptedProfiles(WORLD, db, Reply(t));
  }

  lemma StorySteps(db: Db)
    ensures |Story()| == 4 && After(WORLD, db, Story(), 0) == db
    ensures After(WORLD, db, Story(), 1) == Step(WORLD, db, DoCreate(Invite(1)))
    ensures After(WORLD, db, Story(), 2) == Step(WORLD, After(WORLD, db, Story(), 1), DoCreate(Invite(2)))
    ensures After(WORLD, db, Story(), 3) == Step(WORLD, After(WORLD, db, Story(), 2), DoAccept(Reply(2)))
    ensures After(WORLD, db, Story(), 4) == Step(WORLD, After(WORLD, db, Story(), 3), DoAccept(Reply(1)))
  {
    hide Step;
  }

  /** Reinvited to its company, then invited elsewhere; the transfer is accepted first and the older
      invitation after it. */
  lemma TwoActiveProfiles()
    ensures Linked(Employee()) && OnePending(WORLD, Employee()) && PendingFit(WORLD, Employee()) && |Story()| == 4 && OneActive(Employee(), "u")
    ensures OneActive(After(WORLD, Employee(), Story(), 3), "u")
    ensures var end := After(WORLD, Employee(), Story(), 4);
            ActiveIn(end, "u", 1) && ActiveIn(end, "u", 2) && !OneActive(end, "u")
  {
    var d0 := Employee();
    assert Holder(d0, 1) && ActiveExactly(d0, {1}) && d0.nextToken == 1 && forall t :: t !in d0.invitations;
    StorySteps(d0);
    hide Employee, Step, Create, Accept, ActiveIn, After, Story;
    var d1, d2, d3 := After(WORLD, d0, Story(), 1), After(WORLD, d0, Story(), 2), After(WORLD, d0, Story(), 3);
    StoryCreates(d0, 1);
    StoryCreates(d1, 2);
    StoryAccepts(d2, 2, 2, Some(1), 1);
    StoryAccepts(d3, 1, 1, None, 2);
  }
}
