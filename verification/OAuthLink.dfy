/**
  * Signing in through an identity provider: `findOrLinkOAuthUser` looks the account up, else finds or creates a user
  * by e-mail address, else links the two, in up to five separate statements against two tables.
  *
  * A run is any interleaving of the statements of any number of calls with e-mail changes and other inserts; any
  * statement may fail. The two unique constraints (`users.email`, and provider and subject of `oauth_accounts`) and
  * the primary key of `users` are what the statements are refused by. The program never deletes a user.
  */
module OAuthLink {
  import opened Common

  /** What identifies the account at the provider. */
  datatype Account = Account(provider: string, subject: string)

  type Users = map<string, string>
  type Links = map<Account, string>

  ghost function Owner(users: Users, email: string): Option<string> {
    if u: string :| u in users && users[u] == email then Some(u) else None
  }

  ghost predicate EmailTaken(users: Users, email: string) {
    exists u :: u in users && users[u] == email
  }

  /** Where a call stands, named after the statement it executes next. */
  datatype Phase =
    | FindLink(account: Account, email: string)
    | Load(account: Account, user: string)
    | FindUser(account: Account, email: string)
    | Create(account: Account, email: string)
    | Reload(account: Account, user: string)
    | Link(account: Account, user: string)
    | SignedIn(account: Account, user: string)
    | Refused(account: Account)

  predicate Finished(p: Phase) {
    p.SignedIn? || p.Refused?
  }

  /** `Advance` executes a call's next statement, with `newId` as generated id and `ok` false on a database error. */
  datatype Event =
    | Begin(call: nat, account: Account, email: string)
    | Advance(call: nat, newId: string, ok: bool)
    | ChangeEmail(user: string, email: string)
    | AddUser(user: string, email: string)

  datatype State = State(users: Users, links: Links, calls: map<nat, Phase>)

  predicate Enabled(s: State, e: Event) {
    match e
    case Begin(call, _, _) => call !in s.calls
    case Advance(call, _, _) => call in s.calls && !Finished(s.calls[call])
    case _ => true
  }

  ghost function Next(s: State, p: Phase, newId: string, ok: bool): Phase
    requires !Finished(p)
  {
    match p
    case FindLink(a, email) => if ok && a in s.links then Load(a, s.links[a]) else FindUser(a, email)
    case Load(a, u) => if ok && u in s.users then SignedIn(a, u) else Refused(a)
    case FindUser(a, email) =>
      if !ok then Refused(a)
      else if Owner(s.users, email).Some? then Link(a, Owner(s.users, email).value)
      else Create(a, email)
    case Create(a, email) => if ok && Insertable(s.users, newId, email) then Reload(a, newId) else Refused(a)
    case Reload(a, u) => if ok && u in s.users then Link(a, u) else Refused(a)
    case Link(a, u) => if ok && a !in s.links then SignedIn(a, u) else Refused(a)
  }

  ghost predicate Insertable(users: Users, user: string, email: string) {
    user !in users && !EmailTaken(users, email)
  }

  ghost function Apply(s: State, e: Event): State
    requires Enabled(s, e)
  {
    match e
    case Begin(call, a, email) => s.(calls := s.calls[call := FindLink(a, email)])
    case Advance(call, newId, ok) =>
      var p := s.calls[call];
      var q := Next(s, p, newId, ok);
      State(if p.Create? && q.Reload? then s.users[newId := p.email] else s.users,
            if p.Link? && q.SignedIn? then s.links[p.account := p.user] else s.links,
            s.calls[call := q])
    case ChangeEmail(u, email) =>
      if u in s.users && !EmailTaken(s.users, email) then s.(users := s.users[u := email]) else s
    case AddUser(u, email) => if Insertable(s.users, u, email) then s.(users := s.users[u := email]) else s
  }

  ghost predicate IsRun(s: State, run: seq<Event>)
    decreases |run|, 0
  {
    run == [] || (IsRun(s, run[..|run| - 1]) && Enabled(Run(s, run[..|run| - 1]), run[|run| - 1]))
  }

  ghost function Run(s: State, run: seq<Event>): State
    requires IsRun(s, run)
    decreases |run|, 1
  {
    if run == [] then s else Apply(Run(s, run[..|run| - 1]), run[|run| - 1])
  }

  // ---------------------------------------------------------------------------------------------------------------
  // What every run keeps
  // ---------------------------------------------------------------------------------------------------------------

  predicate PhaseSound(users: Users, links: Links, p: Phase) {
    match p
    case Load(a, u) => a in links && links[a] == u
    case SignedIn(a, u) => a in links && links[a] == u
    case Reload(_, u) => u in users
    case Link(_, u) => u in users
    case _ => true
  }

  ghost predicate UniqueEmails(users: Users) {
    forall u, v :: u in users && v in users && users[u] == users[v] ==> u == v
  }

  ghost predicate LinksResolve(users: Users, links: Links) {
    forall a :: a in links ==> links[a] in users
  }

  ghost predicate Inv(s: State) {
    && UniqueEmails(s.users)
    && LinksResolve(s.users, s.links)
    && (forall call :: call in s.calls ==> PhaseSound(s.users, s.links, s.calls[call]))
  }

  /** No user and no link ever goes away, no link is ever redirected, and no call turns to another account. */
  ghost predicate Grows(s: State, t: State) {
    && (forall u :: u in s.users ==> u in t.users)
    && (forall a :: a in s.links ==> a in t.links && t.links[a] == s.links[a])
    && (forall call :: call in s.calls ==> call in t.calls && t.calls[call].account == s.calls[call].account)
    && (forall call :: call in s.calls && Finished(s.calls[call]) ==> t.calls[call] == s.calls[call])
  }

  lemma TablesStep(s: State, e: Event)
    requires Inv(s) && Enabled(s, e)
    ensures UniqueEmails(Apply(s, e).users) && LinksResolve(Apply(s, e).users, Apply(s, e).links)
    ensures Grows(s, Apply(s, e))
  {
    if e.Advance? {
      assert PhaseSound(s.users, s.links, s.calls[e.call]);
    }
  }

  lemma PhaseGrows(s: State, t: State, p: Phase)
    requires Grows(s, t) && PhaseSound(s.users, s.links, p)
    ensures PhaseSound(t.users, t.links, p)
  {
  }

  lemma InvStep(s: State, e: Event)
    requires Inv(s) && Enabled(s, e)
    ensures Inv(Apply(s, e)) && Grows(s, Apply(s, e))
  {
    TablesStep(s, e);
    var t := Apply(s, e);
    forall call | call in t.calls
      ensures PhaseSound(t.users, t.links, t.calls[call])
    {
      if e.Advance? && call == e.call {
        MoverSound(s, e);
      } else if call in s.calls {
        PhaseGrows(s, t, s.calls[call]);
      }
    }
  }

  lemma MoverSound(s: State, e: Event)
    requires Inv(s) && Enabled(s, e) && e.Advance?
    ensures PhaseSound(Apply(s, e).users, Apply(s, e).links, Apply(s, e).calls[e.call])
  {
    assert PhaseSound(s.users, s.links, s.calls[e.call]);
  }

  lemma {:induction false} InvAlways(s: State, run: seq<Event>)
    requires Inv(s) && IsRun(s, run)
    ensures Inv(Run(s, run)) && Grows(s, Run(s, run))
    decreases |run|
  {
    hide Apply, Enabled, UniqueEmails, LinksResolve, PhaseSound;
    if run == [] {
    } else {
      InvAlways(s, run[..|run| - 1]);
      InvStep(Run(s, run[..|run| - 1]), run[|run| - 1]);
    }
  }

  /**
    * Two sign-ins with the same provider and subject give the same user, whatever e-mail addresses they carried and
    * however their statements and the changes of addresses interleaved; that user exists.
    */
  lemma SameAccountSameUser(s: State, run: seq<Event>, c: nat, d: nat)
    requires Inv(s) && IsRun(s, run)
    requires c in Run(s, run).calls && Run(s, run).calls[c].SignedIn?
    requires d in Run(s, run).calls && Run(s, run).calls[d].SignedIn?
    requires Run(s, run).calls[c].account == Run(s, run).calls[d].account
    ensures Run(s, run).calls[c].user == Run(s, run).calls[d].user
    ensures Run(s, run).calls[c].user in Run(s, run).users
  {
    InvAlways(s, run);
    var t := Run(s, run);
    assert PhaseSound(t.users, t.links, t.calls[c]) && PhaseSound(t.users, t.links, t.calls[d]);
  }

  // ---------------------------------------------------------------------------------------------------------------
  // Calls for an account that is linked already
  // ---------------------------------------------------------------------------------------------------------------

  /** No statement of the call fails. */
  ghost predicate Undisturbed(run: seq<Event>, call: nat) {
    forall i :: 0 <= i < |run| && run[i].Advance? && run[i].call == call ==> run[i].ok
  }

  ghost predicate OnlyLoads(s: State, t: State, call: nat) {
    call in t.calls && t.calls[call].account in s.links ==>
      var p := t.calls[call];
      p.FindLink? || p == Load(p.account, s.links[p.account]) || p == SignedIn(p.account, s.links[p.account])
  }

  lemma {:induction false} LinkedCallOnlyLoads(s: State, run: seq<Event>, call: nat)
    requires Inv(s) && IsRun(s, run) && call !in s.calls && Undisturbed(run, call)
    ensures OnlyLoads(s, Run(s, run), call)
    decreases |run|
  {
    if run == [] {
    } else {
      var before, last := run[..|run| - 1], run[|run| - 1];
      LinkedCallOnlyLoads(s, before, call);
      InvAlways(s, before);
      var t := Run(s, before);
      if last.Advance? && last.call == call {
        assert last.ok;
        assert PhaseSound(t.users, t.links, t.calls[call]);
      }
    }
  }

  /**
    * A call that begins once the account is linked adds no rows, and if it ends it ends with the linked user, unless
    * one of its own statements fails.
    */
  lemma LinkedCallAddsNothing(s: State, run: seq<Event>, e: Event)
    requires Inv(s) && IsRun(s, run) && Enabled(Run(s, run), e) && e.Advance? && e.ok
    requires e.call !in s.calls && Undisturbed(run, e.call)
    requires Run(s, run).calls[e.call].account in s.links
    ensures var t, u := Run(s, run), Apply(Run(s, run), e);
            u.users == t.users && u.links == t.links &&
            (Finished(u.calls[e.call]) ==>
               u.calls[e.call] == SignedIn(t.calls[e.call].account, s.links[t.calls[e.call].account]))
  {
    LinkedCallOnlyLoads(s, run, e.call);
    InvAlways(s, run);
    var t := Run(s, run);
    assert PhaseSound(t.users, t.links, t.calls[e.call]);
  }

  // ---------------------------------------------------------------------------------------------------------------
  // Racing calls and the user that a call inserted
  // ---------------------------------------------------------------------------------------------------------------

  /** Step `k` is the call's statement at phase `p`. */
  ghost predicate StepAt(s: State, run: seq<Event>, k: nat, call: nat, p: Phase) {
    0 <= k < |run| && IsRun(s, run[..k]) && run[k].Advance? && run[k].call == call &&
    call in Run(s, run[..k]).calls && Run(s, run[..k]).calls[call] == p
  }

  /** Step `k` inserts user `u` for the call. */
  ghost predicate InsertsAt(s: State, run: seq<Event>, k: nat, call: nat, u: string, a: Account, email: string) {
    StepAt(s, run, k, call, Create(a, email)) && run[k].ok && run[k].newId == u &&
    Insertable(Run(s, run[..k]).users, u, email)
  }

  /** Step `k` inserts the link from `a` to `v`, for whichever call. */
  ghost predicate StepLinks(s: State, run: seq<Event>, k: nat, call: nat, a: Account, v: string) {
    StepAt(s, run, k, call, Link(a, v)) && run[k].ok && a !in Run(s, run[..k]).links
  }

  /** One of the call's two statements after the insert of the user, the reload and the insert of the link, failed. */
  ghost predicate FailsAt(s: State, run: seq<Event>, k: nat, call: nat, a: Account, u: string) {
    (StepAt(s, run, k, call, Reload(a, u)) || StepAt(s, run, k, call, Link(a, u))) && !run[k].ok
  }

  ghost predicate Fails(s: State, run: seq<Event>, call: nat, a: Account, u: string) {
    exists k: nat :: FailsAt(s, run, k, call, a, u)
  }

  /** Another call inserted the link from `a` to `v`. */
  ghost predicate OtherLinks(s: State, run: seq<Event>, call: nat, a: Account, v: string) {
    exists k: nat, other: nat :: other != call && StepLinks(s, run, k, other, a, v)
  }

  lemma StepPrefix(s: State, run: seq<Event>, k: nat, call: nat, p: Phase)
    requires run != [] && k < |run| - 1
    ensures StepAt(s, run[..|run| - 1], k, call, p) <==> StepAt(s, run, k, call, p)
  {
    if 0 <= k {
      assert run[..|run| - 1][..k] == run[..k];
    }
  }

  lemma {:induction false} FinishedStays(s: State, run: seq<Event>, k: nat, call: nat)
    requires IsRun(s, run) && k <= |run| && IsRun(s, run[..k])
    requires call in Run(s, run[..k]).calls && Finished(Run(s, run[..k]).calls[call])
    ensures call in Run(s, run).calls && Run(s, run).calls[call] == Run(s, run[..k]).calls[call]
    decreases |run|
  {
    if k == |run| {
      assert run[..k] == run;
    } else {
      var before := run[..|run| - 1];
      assert before[..k] == run[..k];
      FinishedStays(s, before, k, call);
    }
  }

  /** The state after step `k`. */
  lemma {:induction false} StepTaken(s: State, run: seq<Event>, k: nat)
    requires IsRun(s, run) && k < |run|
    ensures IsRun(s, run[..k]) && Enabled(Run(s, run[..k]), run[k]) && IsRun(s, run[..k + 1])
    ensures Run(s, run[..k + 1]) == Apply(Run(s, run[..k]), run[k])
    decreases |run|
  {
    hide Apply, Enabled;
    if k == |run| - 1 {
      assert run[..k + 1] == run;
    } else {
      var before := run[..|run| - 1];
      assert before[..k] == run[..k] && before[..k + 1] == run[..k + 1];
      StepTaken(s, before, k);
    }
  }

  /** A link that was inserted stays what it is, and its call is signed in. */
  lemma LinkOutcome(s: State, run: seq<Event>, k: nat, call: nat, a: Account, v: string)
    requires Inv(s) && IsRun(s, run) && StepLinks(s, run, k, call, a, v)
    ensures a in Run(s, run).links && Run(s, run).links[a] == v
    ensures call in Run(s, run).calls && Run(s, run).calls[call] == SignedIn(a, v)
  {
    hide Inv;
    StepTaken(s, run, k);
    FinishedStays(s, run, k + 1, call);
    InvAlways(s, run);
    var t := Run(s, run);
    assert PhaseSound(t.users, t.links, t.calls[call]) by { SoundCall(t, call); }
  }

  lemma SoundCall(t: State, call: nat)
    requires Inv(t) && call in t.calls
    ensures PhaseSound(t.users, t.links, t.calls[call])
  {
  }

  /** One link is inserted once. */
  lemma LinkedOnce(s: State, run: seq<Event>, k: nat, c: nat, v: string, l: nat, d: nat, w: string, a: Account)
    requires Inv(s) && IsRun(s, run) && StepLinks(s, run, k, c, a, v) && StepLinks(s, run, l, d, a, w)
    ensures c == d && v == w
  {
    hide Inv;
    if k < l {
      LinkedEarlier(s, run, k, c, v, l, a);
    } else if l < k {
      LinkedEarlier(s, run, l, d, w, k, a);
    }
  }

  lemma LinkedEarlier(s: State, run: seq<Event>, k: nat, c: nat, v: string, l: nat, a: Account)
    requires Inv(s) && IsRun(s, run) && StepLinks(s, run, k, c, a, v) && k < l < |run|
    ensures IsRun(s, run[..l]) && a in Run(s, run[..l]).links
  {
    hide Inv;
    StepTaken(s, run, l);
    assert run[..l][..k] == run[..k];
    LinkOutcome(s, run[..l], k, c, a, v);
  }

  lemma {:induction false} LinkedBySome(s: State, run: seq<Event>, a: Account)
    requires Inv(s) && IsRun(s, run) && a !in s.links && a in Run(s, run).links
    ensures exists k: nat, call: nat :: StepLinks(s, run, k, call, a, Run(s, run).links[a])
    decreases |run|
  {
    hide Inv;
    var before, last := run[..|run| - 1], run[|run| - 1];
    InvAlways(s, before);
    var t, v := Run(s, before), Run(s, run).links[a];
    if a in t.links {
      InvStep(t, last);
      LinkedBySome(s, before, a);
      var k: nat, call: nat :| StepLinks(s, before, k, call, a, v);
      assert before[..k] == run[..k];
      assert StepLinks(s, run, k, call, a, v);
    } else {
      assert StepLinks(s, run, |run| - 1, last.call, a, v);
    }
  }

  /**
    * From the moment a call has found no link, its own insert of the link is refused, on a working database, exactly
    * when another call has inserted that link in the meantime.
    */
  lemma LinkRefusedIffOvertaken(s: State, run: seq<Event>, call: nat, newId: string)
    requires Inv(s) && IsRun(s, run)
    requires call in s.calls && s.calls[call].account !in s.links && !Finished(s.calls[call])
    requires call in Run(s, run).calls && Run(s, run).calls[call].Link?
    ensures Enabled(Run(s, run), Advance(call, newId, true))
    ensures Apply(Run(s, run), Advance(call, newId, true)).calls[call].Refused? <==>
            exists v :: OtherLinks(s, run, call, s.calls[call].account, v)
  {
    hide Inv, StepLinks;
    InvAlways(s, run);
    var a := s.calls[call].account;
    if a in Run(s, run).links {
      LinkedBySome(s, run, a);
      var k: nat, c: nat :| StepLinks(s, run, k, c, a, Run(s, run).links[a]);
      LinkOutcome(s, run, k, c, a, Run(s, run).links[a]);
      assert OtherLinks(s, run, call, a, Run(s, run).links[a]);
    }
    if v :| OtherLinks(s, run, call, a, v) {
      var k: nat, other: nat :| other != call && StepLinks(s, run, k, other, a, v);
      LinkOutcome(s, run, k, other, a, v);
    }
  }

  lemma FailureRefuses(s: State, run: seq<Event>, k: nat, call: nat, a: Account, u: string)
    requires IsRun(s, run) && FailsAt(s, run, k, call, a, u)
    ensures call in Run(s, run).calls && Run(s, run).calls[call] == Refused(a)
  {
    StepTaken(s, run, k);
    FinishedStays(s, run, k + 1, call);
  }

  /** Where a call that inserted `u` can stand. */
  ghost predicate Outcome(s: State, run: seq<Event>, call: nat, a: Account, u: string, p: Phase) {
    match p
    case Reload(_, _) => p == Reload(a, u)
    case Link(_, _) => p == Link(a, u)
    case SignedIn(_, _) => p == SignedIn(a, u) && exists k: nat :: StepLinks(s, run, k, call, a, u)
    case Refused(_) => p == Refused(a) && (Fails(s, run, call, a, u) || a in s.links ||
                                           exists v :: OtherLinks(s, run, call, a, v))
    case _ => false
  }

  lemma OutcomeGrows(s: State, run: seq<Event>, call: nat, a: Account, u: string, p: Phase)
    requires run != [] && Outcome(s, run[..|run| - 1], call, a, u, p)
    ensures Outcome(s, run, call, a, u, p)
  {
    var before := run[..|run| - 1];
    if k: nat :| StepLinks(s, before, k, call, a, u) {
      StepPrefix(s, run, k, call, Link(a, u));
      assert before[..k] == run[..k];
      assert StepLinks(s, run, k, call, a, u);
    }
    if k: nat :| FailsAt(s, before, k, call, a, u) {
      StepPrefix(s, run, k, call, Reload(a, u));
      StepPrefix(s, run, k, call, Link(a, u));
      assert FailsAt(s, run, k, call, a, u);
    }
    if v :| OtherLinks(s, before, call, a, v) {
      var k: nat, other: nat :| other != call && StepLinks(s, before, k, other, a, v);
      StepPrefix(s, run, k, other, Link(a, v));
      assert before[..k] == run[..k];
      assert StepLinks(s, run, k, other, a, v);
      assert OtherLinks(s, run, call, a, v);
    }
  }

  /** One more statement of the call. */
  lemma OutcomeMoves(s: State, run: seq<Event>, call: nat, a: Account, u: string)
    requires run != [] && IsRun(s, run) && Inv(s)
    requires var before, last := run[..|run| - 1], run[|run| - 1];
             last.Advance? && last.call == call && call in Run(s, before).calls &&
             Outcome(s, before, call, a, u, Run(s, before).calls[call])
    ensures Outcome(s, run, call, a, u, Run(s, run).calls[call])
  {
    hide Inv, OtherLinks, Fails;
    var before, last := run[..|run| - 1], run[|run| - 1];
    InvAlways(s, before);
    var t := Run(s, before);
    SoundCall(t, call);
    var p := t.calls[call];
    assert StepAt(s, run, |run| - 1, call, p);
    if !last.ok {
      assert FailsAt(s, run, |run| - 1, call, a, u);
      assert Fails(s, run, call, a, u) by { ItFails(s, run, |run| - 1, call, a, u); }
    } else if p.Link? {
      if a in t.links && a !in s.links {
        LinkedBySome(s, before, a);
        var k: nat, other: nat :| StepLinks(s, before, k, other, a, t.links[a]);
        if other == call {
          LinkOutcome(s, before, k, call, a, t.links[a]);
        }
        StepPrefix(s, run, k, other, Link(a, t.links[a]));
        assert before[..k] == run[..k];
        ItLinks(s, run, k, other, call, a, t.links[a]);
      } else if a !in t.links {
        assert StepLinks(s, run, |run| - 1, call, a, u);
      }
    }
  }

  lemma ItFails(s: State, run: seq<Event>, k: nat, call: nat, a: Account, u: string)
    requires FailsAt(s, run, k, call, a, u)
    ensures Fails(s, run, call, a, u)
  {
  }

  lemma ItLinks(s: State, run: seq<Event>, k: nat, other: nat, call: nat, a: Account, v: string)
    requires other != call && StepLinks(s, run, k, other, a, v)
    ensures OtherLinks(s, run, call, a, v)
  {
  }

  lemma {:induction false} InsertedOutcome(s: State, run: seq<Event>, k: nat, call: nat, u: string, a: Account,
                                           email: string)
    requires Inv(s) && IsRun(s, run) && InsertsAt(s, run, k, call, u, a, email)
    ensures call in Run(s, run).calls && Outcome(s, run, call, a, u, Run(s, run).calls[call])
    decreases |run|
  {
    hide Inv, Outcome, Insertable;
    var before, last := run[..|run| - 1], run[|run| - 1];
    if k == |run| - 1 {
      assert run[..k] == before;
      assert Run(s, run).calls[call] == Reload(a, u);
      JustInserted(s, run, call, a, u);
    } else {
      assert before[..k] == run[..k];
      InsertedOutcome(s, before, k, call, u, a, email);
      if last.Advance? && last.call == call {
        OutcomeMoves(s, run, call, a, u);
      } else {
        OutcomeGrows(s, run, call, a, u, Run(s, before).calls[call]);
      }
    }
  }

  lemma JustInserted(s: State, run: seq<Event>, call: nat, a: Account, u: string)
    ensures Outcome(s, run, call, a, u, Reload(a, u))
  {
  }

  /**
    * The exact condition under which the account of a call is linked to the user that the call inserted, once the call
    * has finished: the call's reload and insert of the link worked and no other call inserted the account's link, or
    * another call linked the account to that very user.
    */
  lemma InsertedUserLinkedIff(s: State, run: seq<Event>, k: nat, call: nat, u: string, a: Account, email: string)
    requires Inv(s) && IsRun(s, run) && InsertsAt(s, run, k, call, u, a, email)
    requires call in Run(s, run).calls && Finished(Run(s, run).calls[call])
    ensures a in Run(s, run).links && Run(s, run).links[a] == u <==>
            OtherLinks(s, run, call, a, u) ||
            (a !in s.links && !Fails(s, run, call, a, u) && forall v :: !OtherLinks(s, run, call, a, v))
  {
    hide Inv, StepLinks, FailsAt;
    InsertedOutcome(s, run, k, call, u, a, email);
    var t := Run(s, run);
    if a in t.links && t.links[a] == u {
      NewUserUnlinked(s, run, k, call, u, a, email);
      LinkedBySome(s, run, a);
      var l: nat, c: nat :| StepLinks(s, run, l, c, a, u);
      if c == call {
        LinkOutcome(s, run, l, call, a, u);
        forall v ensures !OtherLinks(s, run, call, a, v) {
          if m: nat, other: nat :| other != call && StepLinks(s, run, m, other, a, v) {
            LinkedOnce(s, run, l, call, u, m, other, v, a);
          }
        }
        if m: nat :| FailsAt(s, run, m, call, a, u) {
          FailureRefuses(s, run, m, call, a, u);
        }
      } else {
        ItLinks(s, run, l, c, call, a, u);
      }
    }
    if l: nat, c: nat :| c != call && StepLinks(s, run, l, c, a, u) {
      LinkOutcome(s, run, l, c, a, u);
    }
    if l: nat :| StepLinks(s, run, l, call, a, u) {
      LinkOutcome(s, run, l, call, a, u);
    }
  }

  /** No link of the first state can lead to a user inserted later. */
  lemma NewUserUnlinked(s: State, run: seq<Event>, k: nat, call: nat, u: string, a: Account, email: string)
    requires Inv(s) && IsRun(s, run) && InsertsAt(s, run, k, call, u, a, email)
    requires a in Run(s, run).links && Run(s, run).links[a] == u
    ensures a !in s.links
  {
    InvAlways(s, run);
    InvAlways(s, run[..k]);
  }

  function Empty(): State {
    State(map[], map[], map[])
  }

  lemma RunSnoc(s: State, run: seq<Event>, e: Event)
    requires IsRun(s, run) && Enabled(Run(s, run), e)
    ensures IsRun(s, run + [e]) && Run(s, run + [e]) == Apply(Run(s, run), e)
  {
    assert (run + [e])[..|run + [e]| - 1] == run;
  }

  /** Two sign-ins for one account that carry different addresses take their first `n` statements in lockstep. */
  function Race(a: Account, email: string, other: string, u: string, v: string, n: nat): seq<Event> {
    if n == 0 then [Begin(0, a, email)] + [Begin(1, a, other)]
    else Race(a, email, other, u, v, n - 1) + [Advance(0, u, true)] + [Advance(1, v, true)]
  }

  ghost predicate Reaches(run: seq<Event>, s: State) {
    IsRun(Empty(), run) && Run(Empty(), run) == s
  }

  lemma Round(run: seq<Event>, s: State, t: State, e: Event, f: Event)
    requires Reaches(run, s) && Enabled(s, e) && Enabled(Apply(s, e), f) && Apply(Apply(s, e), f) == t
    ensures Reaches(run + [e] + [f], t)
  {
    RunSnoc(Empty(), run, e);
    RunSnoc(Empty(), run + [e], f);
  }

  /**
    * That every user inserted for a sign-in gets linked is false: when two first sign-ins for one account race with
    * different addresses, both insert a user, one insert of the link is refused, and that call's user stays unlinked.
    */
  lemma RaceLeavesUnlinkedUser(a: Account, email: string, other: string, u: string, v: string)
    requires email != other && u != v
    ensures Reaches(Race(a, email, other, u, v, 5),
                    State(map[u := email, v := other], map[a := u], map[0 := SignedIn(a, u), 1 := Refused(a)]))
  {
    hide Reaches, Race;
    RaceInserts(a, email, other, u, v);
    var e, f := Advance(0, u, true), Advance(1, v, true);
    var users := map[u := email, v := other];
    var s3 := State(users, map[], map[0 := Reload(a, u), 1 := Reload(a, v)]);
    var s4 := State(users, map[], map[0 := Link(a, u), 1 := Link(a, v)]);
    assert Apply(s3, e) == s3.(calls := map[0 := Link(a, u), 1 := Reload(a, v)]);
    Round(Race(a, email, other, u, v, 3), s3, s4, e, f);
    RaceStep(a, email, other, u, v, 4);
    var mid := State(users, map[a := u], map[0 := SignedIn(a, u), 1 := Link(a, v)]);
    assert Apply(s4, e) == mid;
    Round(Race(a, email, other, u, v, 4), s4, mid.(calls := map[0 := SignedIn(a, u), 1 := Refused(a)]), e, f);
    RaceStep(a, email, other, u, v, 5);
  }

  lemma RaceStep(a: Account, email: string, other: string, u: string, v: string, n: nat)
    requires n > 0
    ensures Race(a, email, other, u, v, n) ==
            Race(a, email, other, u, v, n - 1) + [Advance(0, u, true)] + [Advance(1, v, true)]
  {
  }

  lemma RaceInserts(a: Account, email: string, other: string, u: string, v: string)
    requires email != other && u != v
    ensures Reaches(Race(a, email, other, u, v, 3),
                    State(map[u := email, v := other], map[], map[0 := Reload(a, u), 1 := Reload(a, v)]))
  {
    hide Reaches, Race;
    RaceFinds(a, email, other, u, v);
    var e, f := Advance(0, u, true), Advance(1, v, true);
    var s2 := State(map[], map[], map[0 := Create(a, email), 1 := Create(a, other)]);
    var mid := State(map[u := email], map[], map[0 := Reload(a, u), 1 := Create(a, other)]);
    assert Apply(s2, e) == mid;
    var s3 := State(map[u := email, v := other], map[], map[0 := Reload(a, u), 1 := Reload(a, v)]);
    assert Apply(mid, f) == s3;
    Round(Race(a, email, other, u, v, 2), s2, s3, e, f);
    RaceStep(a, email, other, u, v, 3);
  }

  lemma RaceFinds(a: Account, email: string, other: string, u: string, v: string)
    ensures Reaches(Race(a, email, other, u, v, 2),
                    State(map[], map[], map[0 := Create(a, email), 1 := Create(a, other)]))
  {
    hide Reaches;
    var e, f := Advance(0, u, true), Advance(1, v, true);
    var s0 := State(map[], map[], map[0 := FindLink(a, email), 1 := FindLink(a, other)]);
    assert Reaches([], Empty()) by { Start(); }
    assert Apply(Apply(Empty(), Begin(0, a, email)), Begin(1, a, other)) == s0;
    Round([], Empty(), s0, Begin(0, a, email), Begin(1, a, other));
    assert [] + [Begin(0, a, email)] + [Begin(1, a, other)] == Race(a, email, other, u, v, 0);
    var s1 := State(map[], map[], map[0 := FindUser(a, email), 1 := FindUser(a, other)]);
    assert Apply(Apply(s0, e), f) == s1;
    Round(Race(a, email, other, u, v, 0), s0, s1, e, f);
    RaceStep(a, email, other, u, v, 1);
    var s2 := State(map[], map[], map[0 := Create(a, email), 1 := Create(a, other)]);
    assert Apply(Apply(s1, e), f) == s2;
    Round(Race(a, email, other, u, v, 1), s1, s2, e, f);
    RaceStep(a, email, other, u, v, 2);
  }

  lemma Start()
    ensures Reaches([], Empty())
  {
  }

  // ---------------------------------------------------------------------------------------------------------------
  // The call itself
  // ---------------------------------------------------------------------------------------------------------------

  function Rank(p: Phase): nat {
    match p
    case FindLink(_, _) => 5
    case FindUser(_, _) => 4
    case Create(_, _) => 3
    case Reload(_, _) => 2
    case Link(_, _) | Load(_, _) => 1
    case _ => 0
  }

  /** One call, numbered 0, that stands at `p`. */
  function At(users: Users, links: Links, p: Phase): (s: State)
    ensures 0 in s.calls
  {
    State(users, links, map[0 := p])
  }

  /** Call 0 executes its remaining statements with nothing in between; `ok(r)` says whether that of rank r works. */
  ghost function Solo(s: State, newId: string, ok: nat -> bool): (t: State)
    requires 0 in s.calls
    ensures 0 in t.calls && Finished(t.calls[0])
    decreases Rank(s.calls[0])
  {
    if Finished(s.calls[0]) then s else Solo(Apply(s, Advance(0, newId, ok(Rank(s.calls[0])))), newId, ok)
  }

  lemma {:induction false} SoloIsRun(s: State, run: seq<Event>, newId: string, ok: nat -> bool)
    requires IsRun(s, run) && 0 in Run(s, run).calls
    ensures exists all :: IsRun(s, all) && Run(s, all) == Solo(Run(s, run), newId, ok)
    decreases Rank(Run(s, run).calls[0])
  {
    var t := Run(s, run);
    if Finished(t.calls[0]) {
      assert IsRun(s, run) && Run(s, run) == Solo(t, newId, ok);
    } else {
      var e := Advance(0, newId, ok(Rank(t.calls[0])));
      RunSnoc(s, run, e);
      SoloIsRun(s, run + [e], newId, ok);
    }
  }

  lemma SoloStep(s: State, t: State, newId: string, ok: nat -> bool)
    requires 0 in s.calls && !Finished(s.calls[0]) && t == Apply(s, Advance(0, newId, ok(Rank(s.calls[0]))))
    ensures Solo(s, newId, ok) == Solo(t, newId, ok)
    ensures Finished(t.calls[0]) ==> Solo(s, newId, ok) == t
  {
  }

  lemma SoloFindLink(users: Users, links: Links, a: Account, email: string, newId: string, ok: nat -> bool)
    ensures Solo(At(users, links, FindLink(a, email)), newId, ok) ==
            if ok(5) && a in links
            then At(users, links, if ok(1) && links[a] in users then SignedIn(a, links[a]) else Refused(a))
            else Solo(At(users, links, FindUser(a, email)), newId, ok)
  {
    hide Solo;
    var s := At(users, links, FindLink(a, email));
    var t := Apply(s, Advance(0, newId, ok(5)));
    if ok(5) && a in links {
      assert t == At(users, links, Load(a, links[a]));
      var q := if ok(1) && links[a] in users then SignedIn(a, links[a]) else Refused(a);
      SoloStep(t, At(users, links, q), newId, ok);
    } else {
      assert t == At(users, links, FindUser(a, email));
    }
    SoloStep(s, t, newId, ok);
  }

  lemma SoloFindUser(users: Users, links: Links, a: Account, email: string, newId: string, ok: nat -> bool)
    ensures Solo(At(users, links, FindUser(a, email)), newId, ok) ==
            if !ok(4) then At(users, links, Refused(a))
            else if Owner(users, email).Some? then Solo(At(users, links, Link(a, Owner(users, email).value)), newId, ok)
            else Solo(At(users, links, Create(a, email)), newId, ok)
  {
    hide Solo;
    var s := At(users, links, FindUser(a, email));
    var t := Apply(s, Advance(0, newId, ok(4)));
    assert t == At(users, links, t.calls[0]);
    SoloStep(s, t, newId, ok);
  }

  lemma SoloCreate(users: Users, links: Links, a: Account, email: string, newId: string, ok: nat -> bool)
    ensures Solo(At(users, links, Create(a, email)), newId, ok) ==
            if !ok(3) || !Insertable(users, newId, email) then At(users, links, Refused(a))
            else if !ok(2) then At(users[newId := email], links, Refused(a))
            else Solo(At(users[newId := email], links, Link(a, newId)), newId, ok)
  {
    hide Solo;
    var s := At(users, links, Create(a, email));
    var t := Apply(s, Advance(0, newId, ok(3)));
    if ok(3) && Insertable(users, newId, email) {
      assert t == At(users[newId := email], links, Reload(a, newId));
      var q := if ok(2) then Link(a, newId) else Refused(a);
      SoloStep(t, At(users[newId := email], links, q), newId, ok);
    } else {
      assert t == At(users, links, Refused(a));
    }
    SoloStep(s, t, newId, ok);
  }

  lemma SoloLink(users: Users, links: Links, a: Account, u: string, newId: string, ok: nat -> bool)
    ensures Solo(At(users, links, Link(a, u)), newId, ok) ==
            if !ok(1) || a in links then At(users, links, Refused(a))
            else At(users, links[a := u], SignedIn(a, u))
  {
    hide Solo;
    var s := At(users, links, Link(a, u));
    var t := Apply(s, Advance(0, newId, ok(1)));
    assert t == if !ok(1) || a in links then At(users, links, Refused(a)) else At(users, links[a := u], SignedIn(a, u));
    SoloStep(s, t, newId, ok);
  }

  /**
    * A first sign-in, undisturbed and on a working database, links the user with the given address, or else a new user
    * with that address, and changes nothing besides.
    */
  lemma FirstSignInLinks(users: Users, links: Links, a: Account, email: string, newId: string, ok: nat -> bool)
    requires UniqueEmails(users) && a !in links && newId !in users && forall r :: ok(r)
    ensures forall u :: u in users && users[u] == email ==>
              Solo(At(users, links, FindLink(a, email)), newId, ok) == At(users, links[a := u], SignedIn(a, u))
    ensures !EmailTaken(users, email) ==>
              Solo(At(users, links, FindLink(a, email)), newId, ok) ==
              At(users[newId := email], links[a := newId], SignedIn(a, newId))
  {
    hide Solo, At;
    SoloFindLink(users, links, a, email, newId, ok);
    SoloFindUser(users, links, a, email, newId, ok);
    forall u | u in users && users[u] == email
      ensures Solo(At(users, links, FindLink(a, email)), newId, ok) == At(users, links[a := u], SignedIn(a, u))
    {
      assert Owner(users, email) == Some(u);
      SoloLink(users, links, a, u, newId, ok);
    }
    if !EmailTaken(users, email) {
      assert Owner(users, email).None?;
      SoloCreate(users, links, a, email, newId, ok);
      SoloLink(users[newId := email], links, a, newId, newId, ok);
    }
  }

  /** It takes no race: a call that inserts a user and then fails to read it back leaves that user unlinked as well. */
  lemma FailedReloadLeavesUnlinkedUser(users: Users, links: Links, a: Account, email: string, newId: string,
                                       ok: nat -> bool)
    requires a !in links && Insertable(users, newId, email) && forall r :: ok(r) <==> r != 2
    ensures Solo(At(users, links, FindLink(a, email)), newId, ok) == At(users[newId := email], links, Refused(a))
  {
    hide Solo, At;
    SoloFindLink(users, links, a, email, newId, ok);
    SoloFindUser(users, links, a, email, newId, ok);
    SoloCreate(users, links, a, email, newId, ok);
  }

  class Store {
    var users: Users
    var links: Links

    constructor ()
      ensures users == map[] && links == map[]
    {
      users, links := map[], map[];
    }

    method UserByEmail(email: string) returns (user: Option<string>)
      requires UniqueEmails(users)
      ensures user == Owner(users, email)
    {
      if u: string :| u in users && users[u] == email {
        return Some(u);
      }
      return None;
    }

    /**
      * The call of one sign-in with no other in between. What it leaves in the tables and what it returns are those of
      * the run of its statements, so everything proved of runs holds of it.
      */
    method FindOrLinkOAuthUser(a: Account, email: string, newId: string, ok: nat -> bool)
      returns (user: Option<string>)
      requires UniqueEmails(users)
      modifies this
      ensures Solo(At(old(users), old(links), FindLink(a, email)), newId, ok) ==
              At(users, links, if user.Some? then SignedIn(a, user.value) else Refused(a))
    {
      hide Solo, At, UniqueEmails;
      SoloFindLink(users, links, a, email, newId, ok);
      if ok(5) && a in links {
        user := if ok(1) && links[a] in users then Some(links[a]) else None;
        return;
      }
      SoloFindUser(users, links, a, email, newId, ok);
      if !ok(4) {
        return None;
      }
      var found := UserByEmail(email);
      if found.None? {
        SoloCreate(users, links, a, email, newId, ok);
        if !ok(3) || newId in users {
          return None;
        }
        users := users[newId := email];
        if !ok(2) {
          return None;
        }
        found := Some(newId);
      }
      SoloLink(users, links, a, found.value, newId, ok);
      if !ok(1) || a in links {
        return None;
      }
      links := links[a := found.value];
      return found;
    }
  }
}
