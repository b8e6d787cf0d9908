/**
  * The two tables of expiring rows as the store uses them. Each table keeps the history of its statements as ghost
  * state, and its lookups are specified by that history alone. Statements are taken to succeed unless a constraint
  * refuses them; what a failing statement does to a password reset is in `PasswordReset`.
  */
module AuthTables {
  import opened Common
  import opened ExpiringRows

  const CHALLENGE_TTL := 300_000

  datatype Token = Token(user: string, hash: string)

  /** Column `token_hash` is unique. */
  function HashOf(t: Token): Option<string> {
    Some(t.hash)
  }

  datatype Challenge = Challenge(session: string, user: Option<string>, kind: string)

  /** Challenges have no unique column besides their identifier. */
  function NoMark(c: Challenge): Option<string> {
    None
  }

  ghost predicate ActiveToken(history: seq<Statement<Token>>, t: Token, now: int) {
    exists id: string, row: Row<Token> :: Present(history, id, row) && row.data == t && row.expires > now
  }

  ghost function DropUser(user: string): Statement<Token> {
    Delete((id: string, t: Token) => t.user == user)
  }

  ghost function DropId(id: string): Statement<Challenge> {
    Delete((other: string, c: Challenge) => other == id)
  }

  lemma {:induction false} HashesUnique(history: seq<Statement<Token>>)
    ensures forall a, b :: (a in Run(history, HashOf) && b in Run(history, HashOf) &&
                            Run(history, HashOf)[a].data.hash == Run(history, HashOf)[b].data.hash) ==> a == b
    decreases |history|
  {
    if history == [] {
    } else {
      HashesUnique(history[..|history| - 1]);
      var rows, last := Run(history[..|history| - 1], HashOf), history[|history| - 1];
      if last.Insert? && !Refused(rows, last.id, last.row, HashOf) {
        assert forall other :: other in rows ==> !SameMark(HashOf, rows[other].data, last.row.data);
      }
    }
  }

  lemma VisibleMatches(history: seq<Statement<Token>>, t: Token, now: int)
    requires FreshIds(history, HashOf) && CleanedUpTo(history, now)
    ensures ActiveToken(history, t, now) <==>
            exists id :: id in Visible(Run(history, HashOf), now) && Visible(Run(history, HashOf), now)[id].data == t
  {
    hide Run, Present, FreshIds, CleanedUpTo;
    var seen := Visible(Run(history, HashOf), now);
    if id :| id in seen && seen[id].data == t {
      VisibleMeansHistory(history, HashOf, now, id, seen[id]);
    }
    if id: string, row: Row<Token> :| Present(history, id, row) && row.data == t && row.expires > now {
      VisibleMeansHistory(history, HashOf, now, id, row);
    }
  }

  /** The user that the lookup by hash gives. */
  ghost function FoundUser(rows: Table<Token>, hash: string, now: int): Option<string> {
    if id :| id in rows && rows[id].data.hash == hash && rows[id].expires > now then Some(rows[id].data.user) else None
  }

  /** That is the user of an active token with the hash, and no one if there is none. */
  lemma FoundMeansActive(history: seq<Statement<Token>>, hash: string, now: int)
    requires FreshIds(history, HashOf) && CleanedUpTo(history, now)
    ensures forall u :: FoundUser(Run(history, HashOf), hash, now) == Some(u) <==>
                        ActiveToken(history, Token(u, hash), now)
  {
    hide ActiveToken, FreshIds, CleanedUpTo, Run;
    HashesUnique(history);
    var rows := Run(history, HashOf);
    forall u
      ensures FoundUser(rows, hash, now) == Some(u) <==> ActiveToken(history, Token(u, hash), now)
    {
      VisibleMatches(history, Token(u, hash), now);
      if id :| id in rows && rows[id].data.hash == hash && rows[id].expires > now {
        assert id in Visible(rows, now);
      }
    }
  }

  class ResetTokens {
    var rows: Table<Token>
    ghost var history: seq<Statement<Token>>

    ghost predicate Valid()
      reads this
    {
      rows == Run(history, HashOf)
    }

    constructor ()
      ensures Valid() && history == []
    {
      rows, history := map[], [];
    }

    method CreateResetToken(id: string, user: string, hash: string, expires: int) returns (ok: bool)
      requires Valid()
      modifies this
      ensures Valid() && history == old(history) + [Insert(id, Row(Token(user, hash), expires))]
      ensures ok <==> !Refused(old(rows), id, Row(Token(user, hash), expires), HashOf)
      ensures ok <==> id !in old(rows) && forall other :: other in old(rows) ==> old(rows)[other].data.hash != hash
      ensures rows == if ok then old(rows)[id := Row(Token(user, hash), expires)] else old(rows)
      ensures FreshIds(history, HashOf) ==> ok
    {
      var row := Row(Token(user, hash), expires);
      ghost var before := history;
      history := history + [Insert(id, row)];
      if FreshIds(history, HashOf) {
        TokenAccepted(before, id, row);
      }
      assert forall other :: other in rows ==>
        (SameMark(HashOf, rows[other].data, row.data) <==> rows[other].data.hash == hash);
      if id in rows || (exists other :: other in rows && rows[other].data.hash == hash) {
        assert Refused(rows, id, row, HashOf);
        return false;
      }
      rows := rows[id := row];
      return true;
    }

    /** The user of the token with this hash: the one it was created for, as long as it is active. */
    method ActiveResetTokenUser(hash: string, now: int) returns (user: Option<string>)
      requires Valid()
      ensures user == FoundUser(rows, hash, now)
      ensures forall u :: user == Some(u) <==>
                exists id :: id in rows && rows[id].data == Token(u, hash) && rows[id].expires > now
      ensures FreshIds(history, HashOf) && CleanedUpTo(history, now) ==>
                forall u :: user == Some(u) <==> ActiveToken(history, Token(u, hash), now)
    {
      hide ActiveToken, FreshIds, CleanedUpTo, Run;
      HashesUnique(history);
      if FreshIds(history, HashOf) && CleanedUpTo(history, now) {
        FoundMeansActive(history, hash, now);
      }
      if id :| id in rows && rows[id].data.hash == hash && rows[id].expires > now {
        assert rows[id].data == Token(rows[id].data.user, hash);
        return Some(rows[id].data.user);
      }
      return None;
    }

    method DeleteResetTokensByUser(user: string)
      requires Valid()
      modifies this
      ensures Valid() && history == old(history) + [DropUser(user)]
      ensures rows == map id | id in old(rows) && old(rows)[id].data.user != user :: old(rows)[id]
    {
      rows := map id | id in rows && rows[id].data.user != user :: rows[id];
      history := history + [DropUser(user)];
    }

    method DeleteExpiredResetTokens(now: int) returns (deleted: int)
      requires Valid()
      modifies this
      ensures Valid() && history == old(history) + [Clean(now)]
      ensures rows == map id | id in old(rows) && old(rows)[id].expires >= now :: old(rows)[id]
      ensures deleted == |old(rows)| - |rows|
    {
      var kept: Table<Token> := map id | id in rows && !(rows[id].expires < now) :: rows[id];
      deleted := |rows| - |kept|;
      rows := kept;
      history := history + [Clean(now)];
    }
  }

  lemma TokenAccepted(history: seq<Statement<Token>>, id: string, row: Row<Token>)
    requires FreshIds(history + [Insert(id, row)], HashOf)
    ensures !Refused(Run(history, HashOf), id, row, HashOf)
  {
    var s := Insert(id, row);
    assert forall i :: 0 <= i < |history| ==> (history + [s])[i] == history[i];
    PresentRows(history);
    FreshIsAccepted(Run(history, HashOf), history, s, HashOf);
  }

  /** Every row of the table comes from the history, whatever the cleanups. */
  lemma {:induction false} PresentRows(history: seq<Statement<Token>>)
    requires FreshIds(history, HashOf)
    ensures forall id :: id in Run(history, HashOf) ==> Present(history, id, Run(history, HashOf)[id])
    decreases |history|
  {
    hide Present;
    if history == [] {
    } else {
      var front, last := history[..|history| - 1], history[|history| - 1];
      assert front + [last] == history;
      assert forall i :: 0 <= i < |front| ==> history[i] == front[i];
      PresentRows(front);
      var rows, after := Run(front, HashOf), Run(history, HashOf);
      if last.Insert? {
        FreshIsAccepted(rows, front, last, HashOf);
      }
      forall id | id in after
        ensures Present(history, id, after[id])
      {
        PresentSnoc(front, last, id, after[id]);
      }
    }
  }

  /** Once the tokens of its user have been deleted, a token never works again, whatever happens afterwards. */
  lemma UsedTokenStaysDead(history: seq<Statement<Token>>, t: Token, later: seq<Statement<Token>>, now: int, at: int)
    requires ActiveToken(history, t, now)
    requires FreshIds(history + [DropUser(t.user)] + later, HashOf)
    ensures forall u :: !ActiveToken(history + [DropUser(t.user)] + later, Token(u, t.hash), at)
  {
    var whole := history + [DropUser(t.user)] + later;
    var id: string, row: Row<Token> :| Present(history, id, row) && row.data == t && row.expires > now;
    var i :| InsertAt(history, i, id, row) && NotDeletedSince(history, i, id, row.data);
    assert whole[i] == history[i] && whole[|history|] == DropUser(t.user);
    forall j, other, r | InsertAt(whole, j, other, r) && r.data.hash == t.hash
      ensures !NotDeletedSince(whole, j, other, r.data)
    {
      assert SameMark(HashOf, whole[i].row.data, whole[j].row.data);
      assert i == j;
    }
  }

  // ---------------------------------------------------------------------------------------------------------------
  // Challenges
  // ---------------------------------------------------------------------------------------------------------------

  ghost predicate ActiveChallenge(history: seq<Statement<Challenge>>, id: string, c: Challenge, now: int) {
    exists expires: int :: Present(history, id, Row(c, expires)) && expires > now
  }

  class Challenges {
    var rows: Table<Challenge>
    ghost var history: seq<Statement<Challenge>>

    ghost predicate Valid()
      reads this
    {
      rows == Run(history, NoMark)
    }

    constructor ()
      ensures Valid() && history == []
    {
      rows, history := map[], [];
    }

    /** An empty user is stored as no user at all. */
    method SaveChallenge(id: string, user: string, kind: string, session: string, now: int) returns (ok: bool)
      requires Valid()
      modifies this
      ensures var c := Challenge(session, if user == "" then None else Some(user), kind);
              Valid() && history == old(history) + [Insert(id, Row(c, now + 300_000))] &&
              rows == if ok then old(rows)[id := Row(c, now + 300_000)] else old(rows)
      ensures ok <==> id !in old(rows)
    {
      var row := Row(Challenge(session, if user == "" then None else Some(user), kind), now + CHALLENGE_TTL);
      assert Refused(rows, id, row, NoMark) <==> id in rows;
      history := history + [Insert(id, row)];
      if id in rows {
        return false;
      }
      rows := rows[id := row];
      return true;
    }

    /**
      * Gives the session that was saved under this identifier and kind, for this user if one is asked for, unless the
      * challenge has expired or been deleted. `decodes` tells which stored sessions can be read back.
      */
    method LoadChallenge(id: string, kind: string, user: string, now: int, decodes: string -> bool)
      returns (session: Option<string>)
      requires Valid()
      ensures forall s :: session == Some(s) <==>
                && id in rows && rows[id].data.session == s && rows[id].data.kind == kind && rows[id].expires > now
                && (user == "" || rows[id].data.user == Some(user)) && decodes(s)
      ensures FreshIds(history, NoMark) && CleanedUpTo(history, now) ==>
                forall s :: session == Some(s) <==>
                  decodes(s) && exists owner: Option<string> ::
                    ActiveChallenge(history, id, Challenge(s, owner, kind), now) && (user == "" || owner == Some(user))
    {
      hide Run, Present, FreshIds, CleanedUpTo;
      if FreshIds(history, NoMark) && CleanedUpTo(history, now) {
        forall row: Row<Challenge> {
          VisibleMeansHistory(history, NoMark, now, id, row);
        }
      }
      if id !in rows || rows[id].data.kind != kind || !(rows[id].expires > now) {
        return None;
      }
      var row := rows[id];
      if user != "" && (row.data.user.None? || row.data.user.value != user) {
        return None;
      }
      assert row == Row(Challenge(row.data.session, row.data.user, kind), row.expires);
      if !decodes(row.data.session) {
        return None;
      }
      return Some(row.data.session);
    }

    method DeleteChallenge(id: string)
      requires Valid()
      modifies this
      ensures Valid() && history == old(history) + [DropId(id)]
      ensures rows == old(rows) - {id}
    {
      rows := map other | other in rows && other != id :: rows[other];
      history := history + [DropId(id)];
    }

    method DeleteExpiredChallenges(now: int) returns (deleted: int)
      requires Valid()
      modifies this
      ensures Valid() && history == old(history) + [Clean(now)]
      ensures rows == map id | id in old(rows) && old(rows)[id].expires >= now :: old(rows)[id]
      ensures deleted == |old(rows)| - |rows|
    {
      var kept: Table<Challenge> := map id | id in rows && !(rows[id].expires < now) :: rows[id];
      deleted := |rows| - |kept|;
      rows := kept;
      history := history + [Clean(now)];
    }
  }
}
