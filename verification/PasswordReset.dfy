/**
  * Resetting a password: `handleResetPassword` looks the token up, sets the password and deletes the user's tokens in
  * three statements without a transaction. A run is any interleaving of the statements of any number of calls with new
  * tokens and cleanups; any statement may fail, and a failure of the last one is only logged.
  */
module PasswordReset {
  import opened Common
  import opened AuthTables
  import Rows = ExpiringRows

  const RESET_TOKEN_TTL := 3_600_000

  /** Where a call stands, named after the statement it executes next, or how it ended. */
  datatype Phase =
    | Setting(user: string, password: string)
    | Deleting(user: string)
    | Succeeded(user: string)
    | Rejected
    | Failed

  predicate Finished(p: Phase) {
    p.Succeeded? || p.Rejected? || p.Failed?
  }

  /** `ok` is false when the database reports an error instead of executing the statement. */
  datatype Event =
    | Issue(id: string, token: Token, expires: int)
    | LookUp(call: nat, hash: string, password: string, now: int, ok: bool)
    | Set(call: nat, user: string, ok: bool)
    | Drop(call: nat, user: string, ok: bool)
    | CleanUp(now: int)

  datatype State = State(
    rows: Rows.Table<Token>, passwords: map<string, string>, calls: map<nat, Phase>, clock: int)

  predicate Enabled(s: State, e: Event) {
    match e
    case Issue(_, _, _) => true
    case LookUp(call, _, _, now, _) => call !in s.calls && s.clock <= now
    case Set(call, user, _) => call in s.calls && s.calls[call].Setting? && s.calls[call].user == user
    case Drop(call, user, _) => call in s.calls && s.calls[call] == Deleting(user)
    case CleanUp(now) => s.clock <= now
  }

  /** The statement that an event executes on the table of tokens, if it changes it. */
  ghost function StatementOf(e: Event): seq<Rows.Statement<Token>> {
    match e
    case Issue(id, token, expires) => [Rows.Insert(id, Rows.Row(token, expires))]
    case Drop(_, user, ok) => if ok then [DropUser(user)] else []
    case CleanUp(now) => [Rows.Clean(now)]
    case _ => []
  }

  ghost function RowsAfter(rows: Rows.Table<Token>, e: Event): Rows.Table<Token> {
    if StatementOf(e) == [] then rows else Rows.Execute(rows, StatementOf(e)[0], HashOf)
  }

  /** The phase of the call that an event belongs to. */
  ghost function PhaseAfter(s: State, e: Event): Phase
    requires Enabled(s, e) && (e.LookUp? || e.Set? || e.Drop?)
  {
    match e
    case LookUp(_, hash, password, now, ok) =>
      var user := FoundUser(s.rows, hash, now);
      if !ok then Failed else if user.None? then Rejected else Setting(user.value, password)
    case Set(_, user, ok) => if ok then Deleting(user) else Failed
    case Drop(_, user, _) => Succeeded(user)
  }

  ghost function Apply(s: State, e: Event): State
    requires Enabled(s, e)
  {
    State(RowsAfter(s.rows, e),
          if e.Set? && e.ok then s.passwords[e.user := s.calls[e.call].password] else s.passwords,
          if e.LookUp? || e.Set? || e.Drop? then s.calls[e.call := PhaseAfter(s, e)] else s.calls,
          if e.LookUp? || e.CleanUp? then e.now else s.clock)
  }

  function Start(passwords: map<string, string>, clock: int): State {
    State(map[], passwords, map[], clock)
  }

  ghost predicate IsRun(s: State, run: seq<Event>)
    decreases |run|, 0
  {
    run == [] || (IsRun(s, run[..|run| - 1]) && Enabled(After(s, run[..|run| - 1]), run[|run| - 1]))
  }

  ghost function After(s: State, run: seq<Event>): State
    requires IsRun(s, run)
    decreases |run|, 1
  {
    if run == [] then s else Apply(After(s, run[..|run| - 1]), run[|run| - 1])
  }

  // ---------------------------------------------------------------------------------------------------------------
  // The table and its history
  // ---------------------------------------------------------------------------------------------------------------

  ghost function History(run: seq<Event>): seq<Rows.Statement<Token>>
    decreases |run|
  {
    if run == [] then [] else History(run[..|run| - 1]) + StatementOf(run[|run| - 1])
  }

  lemma RowsStep(h: seq<Rows.Statement<Token>>, e: Event)
    ensures RowsAfter(Rows.Run(h, HashOf), e) == Rows.Run(h + StatementOf(e), HashOf)
  {
    hide Rows.Execute;
    var more := StatementOf(e);
    if more == [] {
      assert h + more == h;
    } else {
      assert (h + more)[..|h + more| - 1] == h;
    }
  }

  lemma CleanStep(h: seq<Rows.Statement<Token>>, e: Event, clock: int, later: int)
    requires Rows.CleanedUpTo(h, clock) && clock <= later && (e.CleanUp? ==> e.now <= later)
    ensures Rows.CleanedUpTo(h + StatementOf(e), later)
  {
  }

  lemma {:induction false} RowsFollowHistory(s: State, run: seq<Event>)
    requires IsRun(s, run) && s.rows == map[]
    ensures After(s, run).rows == Rows.Run(History(run), HashOf)
    ensures Rows.CleanedUpTo(History(run), After(s, run).clock)
    decreases |run|
  {
    hide RowsAfter, FoundUser, StatementOf, PhaseAfter;
    if run == [] {
    } else {
      hide Rows.Run, Rows.CleanedUpTo;
      var before, last := run[..|run| - 1], run[|run| - 1];
      RowsFollowHistory(s, before);
      RowsStep(History(before), last);
      CleanStep(History(before), last, After(s, before).clock, After(s, run).clock);
    }
  }

  /** A successful delete for the user comes after position i. */
  ghost predicate DroppedSince(run: seq<Event>, i: int, user: string) {
    exists j :: i < j < |run| && j >= 0 && run[j].Drop? && run[j].ok && run[j].user == user
  }

  predicate IssuedAt(run: seq<Event>, i: int, id: string, t: Token, expires: int) {
    0 <= i < |run| && run[i] == Issue(id, t, expires)
  }

  lemma {:induction false} IssuedIsInserted(run: seq<Event>, i: int, id: string, t: Token, expires: int)
    requires IssuedAt(run, i, id, t, expires)
    ensures exists h :: Rows.InsertAt(History(run), h, id, Rows.Row(t, expires))
    decreases |run|
  {
    var before, last := run[..|run| - 1], run[|run| - 1];
    var h := History(before);
    if i == |run| - 1 {
      assert Rows.InsertAt(History(run), |h|, id, Rows.Row(t, expires));
    } else {
      IssuedIsInserted(before, i, id, t, expires);
      var k :| Rows.InsertAt(h, k, id, Rows.Row(t, expires));
      assert History(run)[k] == h[k];
      assert Rows.InsertAt(History(run), k, id, Rows.Row(t, expires));
    }
  }

  /** In the history a token is present exactly when no successful delete for its user came after it. */
  lemma {:induction false} PresentIff(run: seq<Event>, i: int, id: string, t: Token, expires: int)
    requires IssuedAt(run, i, id, t, expires) && Rows.FreshIds(History(run), HashOf)
    ensures Rows.Present(History(run), id, Rows.Row(t, expires)) <==> !DroppedSince(run, i, t.user)
    decreases |run|
  {
    hide Rows.Present, Rows.FreshIds;
    var before, last := run[..|run| - 1], run[|run| - 1];
    var h, more, row := History(before), StatementOf(last), Rows.Row(t, expires);
    if i == |run| - 1 {
      Rows.PresentSnoc(h, more[0], id, row);
    } else {
      FreshBefore(h, more);
      PresentIff(before, i, id, t, expires);
      assert DroppedSince(run, i, t.user) <==>
             DroppedSince(before, i, t.user) || (last.Drop? && last.ok && last.user == t.user)
        by { DroppedSnoc(run, i, t.user); }
      if more == [] {
        assert h + more == h;
      } else {
        Rows.PresentSnoc(h, more[0], id, row);
        assert more == [more[0]];
        if more[0] == Rows.Insert(id, row) {
          IssuedIsInserted(before, i, id, t, expires);
          TwiceIsNotFresh(h, id, row);
        }
      }
    }
  }

  lemma DroppedSnoc(run: seq<Event>, i: int, user: string)
    requires 0 <= i < |run| - 1
    ensures var last := run[|run| - 1];
            DroppedSince(run, i, user) <==>
            DroppedSince(run[..|run| - 1], i, user) || (last.Drop? && last.ok && last.user == user)
  {
    var before, last := run[..|run| - 1], run[|run| - 1];
    if DroppedSince(before, i, user) {
      var j :| i < j < |before| && before[j].Drop? && before[j].ok && before[j].user == user;
      assert run[j] == before[j];
    }
    if DroppedSince(run, i, user) {
      var j :| i < j < |run| && run[j].Drop? && run[j].ok && run[j].user == user;
      assert j < |before| ==> before[j] == run[j];
    }
  }

  lemma FreshBefore(h: seq<Rows.Statement<Token>>, more: seq<Rows.Statement<Token>>)
    requires Rows.FreshIds(h + more, HashOf)
    ensures Rows.FreshIds(h, HashOf)
  {
    assert forall i :: 0 <= i < |h| ==> (h + more)[i] == h[i];
  }

  lemma TwiceIsNotFresh(h: seq<Rows.Statement<Token>>, id: string, row: Rows.Row<Token>)
    requires exists k :: Rows.InsertAt(h, k, id, row)
    ensures !Rows.FreshIds(h + [Rows.Insert(id, row)], HashOf)
  {
    var k :| Rows.InsertAt(h, k, id, row);
    var all := h + [Rows.Insert(id, row)];
    assert all[k] == h[k] && all[|h|] == Rows.Insert(id, row);
  }

  /** One hash belongs to one token only. */
  lemma OneTokenPerHash(h: seq<Rows.Statement<Token>>, a: string, x: Rows.Row<Token>, b: string, y: Rows.Row<Token>)
    requires Rows.FreshIds(h, HashOf) && x.data.hash == y.data.hash
    requires (exists k :: Rows.InsertAt(h, k, a, x)) && (exists k :: Rows.InsertAt(h, k, b, y))
    ensures a == b && x == y
  {
    var i :| Rows.InsertAt(h, i, a, x);
    var j :| Rows.InsertAt(h, j, b, y);
    assert SameHash(h[i].row.data, h[j].row.data);
  }

  predicate SameHash(t: Token, u: Token) {
    Rows.SameMark(HashOf, t, u)
  }

  // ---------------------------------------------------------------------------------------------------------------
  // When a token resets a password
  // ---------------------------------------------------------------------------------------------------------------

  /**
    * A lookup finds the user of a token exactly as long as the token has not expired and no delete for its user has
    * succeeded since it was issued.
    */
  lemma LookUpFindsIff(s: State, run: seq<Event>, i: int, id: string, t: Token, expires: int, e: Event)
    requires IsRun(s, run) && s.rows == map[] && Rows.FreshIds(History(run), HashOf)
    requires IssuedAt(run, i, id, t, expires)
    requires Enabled(After(s, run), e) && e.LookUp? && e.ok && e.hash == t.hash
    ensures PhaseAfter(After(s, run), e) ==
            if expires > e.now && !DroppedSince(run, i, t.user) then Setting(t.user, e.password) else Rejected
  {
    hide Rows.Run, Rows.FreshIds, Rows.CleanedUpTo, IsRun, After;
    RowsFollowHistory(s, run);
    var h, row := History(run), Rows.Row(t, expires);
    LaterIsCleaned(h, After(s, run).clock, e.now);
    FoundMeansActive(h, t.hash, e.now);
    PresentIff(run, i, id, t, expires);
    IssuedIsInserted(run, i, id, t, expires);
    forall u
      ensures ActiveToken(h, Token(u, t.hash), e.now) <==>
              u == t.user && Rows.Present(h, id, row) && expires > e.now
    {
      if ActiveToken(h, Token(u, t.hash), e.now) {
        var other: string, r: Rows.Row<Token> :|
          Rows.Present(h, other, r) && r.data == Token(u, t.hash) && r.expires > e.now;
        OneTokenPerHash(h, id, row, other, r);
      }
    }
    var found := FoundUser(After(s, run).rows, t.hash, e.now);
    if found.Some? {
      assert ActiveToken(h, Token(found.value, t.hash), e.now);
    } else {
      assert found != Some(t.user);
    }
  }

  lemma LaterIsCleaned(h: seq<Rows.Statement<Token>>, clock: int, now: int)
    requires Rows.CleanedUpTo(h, clock) && clock <= now
    ensures Rows.CleanedUpTo(h, now)
  {
  }

  /** The call has set the user's password. */
  ghost predicate DidSet(run: seq<Event>, call: nat, user: string) {
    exists m :: 0 <= m < |run| && run[m] == Set(call, user, true)
  }

  ghost predicate SetFailed(run: seq<Event>, call: nat) {
    exists m :: 0 <= m < |run| && run[m].Set? && run[m].call == call && !run[m].ok
  }

  ghost predicate PhaseFits(run: seq<Event>, call: nat, found: Phase, p: Phase) {
    match found
    case Setting(user, password) =>
      if DidSet(run, call, user) then p == Deleting(user) || p == Succeeded(user)
      else p == found || (p == Failed && SetFailed(run, call))
    case _ => p == found && forall user :: !DidSet(run, call, user)
  }

  lemma SetSnoc(run: seq<Event>, call: nat, user: string)
    requires run != []
    ensures DidSet(run, call, user) <==>
            DidSet(run[..|run| - 1], call, user) || run[|run| - 1] == Set(call, user, true)
    ensures SetFailed(run[..|run| - 1], call) ==> SetFailed(run, call)
    ensures run[|run| - 1].Set? && run[|run| - 1].call == call && !run[|run| - 1].ok ==> SetFailed(run, call)
  {
    var before, last := run[..|run| - 1], run[|run| - 1];
    if m :| 0 <= m < |before| && before[m] == Set(call, user, true) {
      assert run[m] == before[m];
    }
    if m :| 0 <= m < |before| && before[m].Set? && before[m].call == call && !before[m].ok {
      assert run[m] == before[m];
    }
    if m :| 0 <= m < |run| && run[m] == Set(call, user, true) {
      assert m < |before| ==> before[m] == run[m];
    }
  }

  /** What became of the call, from what its lookup at position k found. */
  lemma {:induction false} CallFollows(s: State, run: seq<Event>, k: nat)
    requires IsRun(s, run) && k < |run| && run[k].LookUp?
    ensures IsRun(s, run[..k]) && Enabled(After(s, run[..k]), run[k]) && run[k].call in After(s, run).calls
    ensures PhaseFits(run, run[k].call, PhaseAfter(After(s, run[..k]), run[k]), After(s, run).calls[run[k].call])
    decreases |run|
  {
    hide FoundUser, RowsAfter, DidSet, SetFailed;
    var before, last := run[..|run| - 1], run[|run| - 1];
    var call := run[k].call;
    if k == |run| - 1 {
      assert run[..k] == before;
      forall user ensures !DidSet(run, call, user) {
        NotYetSet(s, before, call, user);
        SetSnoc(run, call, user);
      }
    } else {
      assert before[..k] == run[..k];
      CallFollows(s, before, k);
      forall user {
        SetSnoc(run, call, user);
      }
    }
  }

  lemma {:induction false} NotYetSet(s: State, run: seq<Event>, call: nat, user: string)
    requires IsRun(s, run) && call !in After(s, run).calls
    ensures !DidSet(run, call, user)
    decreases |run|
  {
    hide FoundUser, RowsAfter, DidSet;
    if run == [] {
      assert !DidSet(run, call, user) by { NothingSet(call, user); }
    } else {
      NotYetSet(s, run[..|run| - 1], call, user);
      SetSnoc(run, call, user);
    }
  }

  lemma NothingSet(call: nat, user: string)
    ensures !DidSet([], call, user)
  {
  }

  /**
    * A call that presents a token, the first or any later one, resets its user's password exactly when the token has
    * not expired at the lookup and that lookup precedes every successful delete for the user made since the token was
    * issued, unless the lookup or the call's own statement that sets the password fails.
    */
  lemma ResetWorksIff(s: State, run: seq<Event>, i: int, id: string, t: Token, expires: int, k: nat)
    requires IsRun(s, run) && s.rows == map[] && Rows.FreshIds(History(run), HashOf)
    requires IssuedAt(run, i, id, t, expires)
    requires i < k < |run| && run[k].LookUp? && run[k].ok && run[k].hash == t.hash
    requires run[k].call in After(s, run).calls && Finished(After(s, run).calls[run[k].call])
    requires !SetFailed(run, run[k].call)
    ensures DidSet(run, run[k].call, t.user) <==> expires > run[k].now && !DroppedSince(run[..k], i, t.user)
    ensures DidSet(run, run[k].call, t.user) <==> After(s, run).calls[run[k].call].Succeeded?
  {
    hide IsRun, After, Rows.FreshIds, DidSet, SetFailed, DroppedSince, History;
    CallFollows(s, run, k);
    HistoryPrefix(run, k);
    FreshBefore(History(run[..k]), History(run)[|History(run[..k])|..]);
    assert IssuedAt(run[..k], i, id, t, expires);
    LookUpFindsIff(s, run[..k], i, id, t, expires, run[k]);
  }

  lemma {:induction false} HistoryPrefix(run: seq<Event>, k: nat)
    requires k <= |run|
    ensures History(run[..k]) <= History(run)
    ensures History(run) == History(run[..k]) + History(run)[|History(run[..k])|..]
    decreases |run|
  {
    if k == |run| {
      assert run[..k] == run;
    } else {
      var before := run[..|run| - 1];
      HistoryPrefix(before, k);
      assert before[..k] == run[..k];
    }
  }

  // ---------------------------------------------------------------------------------------------------------------
  // One token, two resets
  // ---------------------------------------------------------------------------------------------------------------

  ghost predicate Reaches(s: State, run: seq<Event>, t: State) {
    IsRun(s, run) && After(s, run) == t
  }

  lemma Extend(s: State, run: seq<Event>, t: State, e: Event)
    requires Reaches(s, run, t) && Enabled(t, e)
    ensures Reaches(s, run + [e], Apply(t, e))
  {
    assert (run + [e])[..|run + [e]| - 1] == run;
  }

  /** Two calls look the token up before either deletes it. */
  function Overlap(id: string, t: Token, now: int, first: string, second: string): seq<Event> {
    [Issue(id, t, now + 1)] + [LookUp(0, t.hash, first, now, true)] + [LookUp(1, t.hash, second, now, true)] +
    [Set(0, t.user, true)] + [Drop(0, t.user, true)] + [Set(1, t.user, true)] + [Drop(1, t.user, true)]
  }

  /**
    * That a token resets a password at most once is false even when every statement works: of two overlapping calls
    * both succeed, and the later one's password stays.
    */
  lemma OverlappingResetsBothSucceed(id: string, t: Token, now: int, first: string, second: string)
    ensures Reaches(Start(map[], now), Overlap(id, t, now, first, second),
                    State(map[], map[t.user := second], map[0 := Succeeded(t.user), 1 := Succeeded(t.user)], now))
  {
    hide Reaches, Rows.Refused;
    var s := Start(map[], now);
    var rows := map[id := Rows.Row(t, now + 1)];
    assert Reaches(s, [], s) by { AtStart(s); }
    assert RowsAfter(map[], Issue(id, t, now + 1)) == rows by { FirstRow(id, t, now + 1); }
    Extend(s, [], s, Issue(id, t, now + 1));
    var s1 := State(rows, map[], map[], now);
    assert [] + [Issue(id, t, now + 1)] == [Issue(id, t, now + 1)];
    assert FoundUser(rows, t.hash, now) == Some(t.user) by { OnlyRow(id, t, now); }
    BothFind(s, [Issue(id, t, now + 1)], id, t, now, first, second);
    var run := [Issue(id, t, now + 1)] + [LookUp(0, t.hash, first, now, true)] + [LookUp(1, t.hash, second, now, true)];
    var s3 := State(rows, map[], map[0 := Setting(t.user, first), 1 := Setting(t.user, second)], now);
    BothReset(s, run, id, t, now, first, second);
  }

  lemma AtStart(s: State)
    ensures Reaches(s, [], s)
  {
  }

  lemma FirstRow(id: string, t: Token, expires: int)
    ensures RowsAfter(map[], Issue(id, t, expires)) == map[id := Rows.Row(t, expires)]
  {
  }

  lemma OnlyRow(id: string, t: Token, now: int)
    ensures FoundUser(map[id := Rows.Row(t, now + 1)], t.hash, now) == Some(t.user)
  {
    var rows: Rows.Table<Token> := map[id := Rows.Row(t, now + 1)];
    assert id in rows && rows[id].data.hash == t.hash && rows[id].expires > now;
  }

  lemma BothFind(s: State, run: seq<Event>, id: string, t: Token, now: int, first: string, second: string)
    requires Reaches(s, run, State(map[id := Rows.Row(t, now + 1)], map[], map[], now))
    ensures Reaches(s, run + [LookUp(0, t.hash, first, now, true)] + [LookUp(1, t.hash, second, now, true)],
                    State(map[id := Rows.Row(t, now + 1)], map[],
                          map[0 := Setting(t.user, first), 1 := Setting(t.user, second)], now))
  {
    hide Reaches, FoundUser;
    OnlyRow(id, t, now);
    var e, f := LookUp(0, t.hash, first, now, true), LookUp(1, t.hash, second, now, true);
    var s1 := State(map[id := Rows.Row(t, now + 1)], map[], map[], now);
    Extend(s, run, s1, e);
    Extend(s, run + [e], Apply(s1, e), f);
    assert Apply(Apply(s1, e), f).calls == map[0 := Setting(t.user, first), 1 := Setting(t.user, second)];
  }

  lemma BothReset(s: State, run: seq<Event>, id: string, t: Token, now: int, first: string, second: string)
    requires Reaches(s, run, State(map[id := Rows.Row(t, now + 1)], map[],
                                   map[0 := Setting(t.user, first), 1 := Setting(t.user, second)], now))
    ensures Reaches(s, run + [Set(0, t.user, true)] + [Drop(0, t.user, true)] + [Set(1, t.user, true)] +
                       [Drop(1, t.user, true)],
                    State(map[], map[t.user := second], map[0 := Succeeded(t.user), 1 := Succeeded(t.user)], now))
  {
    hide Reaches, RowsAfter;
    Emptied(id, t, now, 0);
    Emptied(id, t, now, 1);
    var a, b, c, d := Set(0, t.user, true), Drop(0, t.user, true), Set(1, t.user, true), Drop(1, t.user, true);
    var rows: Rows.Table<Token> := map[id := Rows.Row(t, now + 1)];
    var s0 := State(rows, map[], map[0 := Setting(t.user, first), 1 := Setting(t.user, second)], now);
    var s1 := State(rows, map[t.user := first], map[0 := Deleting(t.user), 1 := Setting(t.user, second)], now);
    assert Apply(s0, a) == s1;
    Extend(s, run, s0, a);
    var s2 := State(map[], map[t.user := first], map[0 := Succeeded(t.user), 1 := Setting(t.user, second)], now);
    assert Apply(s1, b) == s2;
    Extend(s, run + [a], s1, b);
    var s3 := State(map[], map[t.user := second], map[0 := Succeeded(t.user), 1 := Deleting(t.user)], now);
    assert Apply(s2, c) == s3;
    Extend(s, run + [a] + [b], s2, c);
    Extend(s, run + [a] + [b] + [c], s3, d);
    var s4 := State(map[], map[t.user := second], map[0 := Succeeded(t.user), 1 := Succeeded(t.user)], now);
    assert Apply(s3, d) == s4;
  }

  /** The first delete empties the table of one row, the second finds nothing, and setting a password changes no row. */
  lemma Emptied(id: string, t: Token, now: int, call: nat)
    ensures RowsAfter(map[id := Rows.Row(t, now + 1)], Drop(call, t.user, true)) == map[]
    ensures RowsAfter(map[], Drop(call, t.user, true)) == map[]
    ensures forall rows :: RowsAfter(rows, Set(call, t.user, true)) == rows
  {
  }

  // ---------------------------------------------------------------------------------------------------------------
  // The handlers
  // ---------------------------------------------------------------------------------------------------------------

  datatype Status = Ok | BadRequest | InternalError

  class Passwords {
    var of: map<string, string>

    constructor ()
      ensures of == map[]
    {
      of := map[];
    }
  }

  /** What looking a user up by e-mail address gives. */
  datatype UserLookup = LookupError | NoUser | Found(user: string)

  /** `id` and `hash` are what the generators gave, `generated` whether there was a token to hash. */
  method HandleForgotPassword(tokens: ResetTokens, lookup: UserLookup, generated: bool, id: string, hash: string,
                              now: int)
    returns (status: Status)
    requires tokens.Valid()
    modifies tokens
    ensures tokens.Valid()
    ensures tokens.history == old(tokens.history) + if lookup.Found? && generated
                              then [Rows.Insert(id, Rows.Row(Token(lookup.user, hash), now + 3_600_000))] else []
    ensures lookup.LookupError? ==> status == InternalError
    ensures lookup.NoUser? ==> status == Ok
    ensures lookup.Found? && !generated ==> status == InternalError
    ensures lookup.Found? && generated ==>
              var row := Rows.Row(Token(lookup.user, hash), now + 3_600_000);
              status == if Rows.Refused(old(tokens.rows), id, row, HashOf) then InternalError else Ok
    ensures lookup.Found? && generated && Rows.FreshIds(tokens.history, HashOf) ==> status == Ok
  {
    if lookup.LookupError? {
      return InternalError;
    }
    if lookup.Found? {
      if !generated {
        return InternalError;
      }
      var ok := tokens.CreateResetToken(id, lookup.user, hash, now + RESET_TOKEN_TTL);
      return if ok then Ok else InternalError;
    }
    return Ok;
  }

  /** Which of a call's statements work. */
  datatype Faults = Faults(lookUp: bool, update: bool, drop: bool)

  /** Call 0 executes its statements with nothing in between. */
  ghost function Alone(s: State, hash: string, password: string, now: int, works: Faults): (t: State)
    requires s.calls == map[] && s.clock <= now
    ensures 0 in t.calls && Finished(t.calls[0])
  {
    var s1 := Apply(s, LookUp(0, hash, password, now, works.lookUp));
    if !s1.calls[0].Setting? then s1
    else
      var s2 := Apply(s1, Set(0, s1.calls[0].user, works.update));
      if s2.calls[0].Deleting? then Apply(s2, Drop(0, s2.calls[0].user, works.drop)) else s2
  }

  lemma AloneIsRun(s: State, hash: string, password: string, now: int, works: Faults)
    requires s.calls == map[] && s.clock <= now
    ensures exists run :: Reaches(s, run, Alone(s, hash, password, now, works))
  {
    hide Reaches, FoundUser, RowsAfter;
    AtStart(s);
    var e := LookUp(0, hash, password, now, works.lookUp);
    Extend(s, [], s, e);
    var run, t := [] + [e], Apply(s, e);
    if t.calls[0].Setting? {
      var f := Set(0, t.calls[0].user, works.update);
      Extend(s, run, t, f);
      run, t := run + [f], Apply(t, f);
      if t.calls[0].Deleting? {
        var g := Drop(0, t.calls[0].user, works.drop);
        Extend(s, run, t, g);
        run, t := run + [g], Apply(t, g);
      }
    }
    assert t == Alone(s, hash, password, now, works);
    assert Reaches(s, run, t);
  }

  /** The generators gave no value twice, and the clock has not gone back. */
  ghost predicate Usable(history: seq<Rows.Statement<Token>>, now: int) {
    Rows.FreshIds(history, HashOf) && Rows.CleanedUpTo(history, now)
  }

  function StatusOf(p: Phase): Status
    requires Finished(p)
  {
    match p case Succeeded(_) => Ok case Rejected => BadRequest case Failed => InternalError
  }

  /**
    * The call with nothing in between; `hash` is the hash of the token. Tables and answer are those of the run of its
    * statements, so everything proved of runs holds of it.
    */
  method HandleResetPassword(tokens: ResetTokens, passwords: Passwords, token: string, hash: string,
                             newPassword: string, now: int, works: Faults)
    returns (status: Status)
    requires tokens.Valid()
    modifies tokens, passwords
    ensures tokens.Valid()
    ensures token == "" || newPassword == "" ==>
              status == BadRequest && tokens.rows == old(tokens.rows) && passwords.of == old(passwords.of)
    ensures token != "" && newPassword != "" ==>
              var t := Alone(State(old(tokens.rows), old(passwords.of), map[], now), hash, newPassword, now, works);
              tokens.rows == t.rows && passwords.of == t.passwords && status == StatusOf(t.calls[0])
    ensures token != "" && newPassword != "" && !works.lookUp ==> status == InternalError
    ensures status == InternalError ==> !works.lookUp || !works.update
    ensures status == Ok ==> exists id :: id in old(tokens.rows) && old(tokens.rows)[id].data.hash == hash &&
                                          old(tokens.rows)[id].expires > now && works.update
    ensures Usable(old(tokens.history), now) && token != "" && newPassword != "" && works.lookUp ==>
              (status == BadRequest <==> forall u :: !ActiveToken(old(tokens.history), Token(u, hash), now))
    ensures Usable(old(tokens.history), now) && token != "" && newPassword != "" && works.lookUp && works.update ==>
              forall u :: ActiveToken(old(tokens.history), Token(u, hash), now) ==>
                status == Ok && passwords.of == old(passwords.of)[u := newPassword] &&
                tokens.history == old(tokens.history) + if works.drop then [DropUser(u)] else []
    ensures status != Ok ==> tokens.history == old(tokens.history) && passwords.of == old(passwords.of)
  {
    if token == "" || newPassword == "" {
      return BadRequest;
    }
    if !works.lookUp {
      return InternalError;
    }
    var found := tokens.ActiveResetTokenUser(hash, now);
    if found.None? {
      return BadRequest;
    }
    if !works.update {
      return InternalError;
    }
    passwords.of := passwords.of[found.value := newPassword];
    if works.drop {
      DropIsLast(tokens.history, found.value);
      tokens.DeleteResetTokensByUser(found.value);
    }
    return Ok;
  }

  lemma DropIsLast(history: seq<Rows.Statement<Token>>, user: string)
    ensures Rows.Run(history + [DropUser(user)], HashOf) ==
            Rows.Execute(Rows.Run(history, HashOf), DropUser(user), HashOf)
  {
    assert (history + [DropUser(user)])[..|history|] == history;
  }
}
