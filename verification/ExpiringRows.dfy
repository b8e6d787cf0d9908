/**
  * Rows with an expiry time: WebAuthn challenges and password reset tokens. A lookup only sees rows with
  * `expires_at > now`; a background job deletes those with `expires_at < now`. Times are milliseconds.
  *
  * What a table answers is compared with the history of its statements: a row is found exactly when it was inserted,
  * has not expired, and no delete has named it since. The history ignores the cleanup altogether.
  */
module ExpiringRows {
  import opened Common

  datatype Row<T> = Row(data: T, expires: int)

  type Table<T> = map<string, Row<T>>

  /** One statement: `Delete` removes the rows its condition names, `Clean` those that have expired. */
  datatype Statement<!T> =
    | Insert(id: string, row: Row<T>)
    | Delete(named: (string, T) -> bool)
    | Clean(now: int)

  /** `unique` gives the value of a second unique column, if the table has one. */
  ghost predicate Refused<T(!new)>(rows: Table<T>, id: string, row: Row<T>, unique: T -> Option<string>) {
    id in rows || exists other :: other in rows && SameMark(unique, rows[other].data, row.data)
  }

  predicate SameMark<T>(unique: T -> Option<string>, a: T, b: T) {
    unique(a).Some? && unique(a) == unique(b)
  }

  ghost function Execute<T(!new)>(rows: Table<T>, s: Statement<T>, unique: T -> Option<string>): Table<T> {
    match s
    case Insert(id, row) => if Refused(rows, id, row, unique) then rows else rows[id := row]
    case Delete(named) => map id | id in rows && !named(id, rows[id].data) :: rows[id]
    case Clean(now) => map id | id in rows && !(rows[id].expires < now) :: rows[id]
  }

  ghost function Run<T(!new)>(history: seq<Statement<T>>, unique: T -> Option<string>): Table<T>
    decreases |history|
  {
    if history == [] then map[]
    else Execute(Run(history[..|history| - 1], unique), history[|history| - 1], unique)
  }

  /** What any lookup at `now` can see. */
  function Visible<T>(rows: Table<T>, now: int): Table<T> {
    map id | id in rows && rows[id].expires > now :: rows[id]
  }

  // ---------------------------------------------------------------------------------------------------------------
  // What the history says
  // ---------------------------------------------------------------------------------------------------------------

  predicate InsertAt<T(==)>(history: seq<Statement<T>>, i: int, id: string, row: Row<T>) {
    0 <= i < |history| && history[i].Insert? && history[i].id == id && history[i].row == row
  }

  predicate NotDeletedSince<T>(history: seq<Statement<T>>, i: int, id: string, data: T) {
    forall j :: i < j < |history| && j >= 0 && history[j].Delete? ==> !history[j].named(id, data)
  }

  ghost predicate Present<T>(history: seq<Statement<T>>, id: string, row: Row<T>) {
    exists i :: InsertAt(history, i, id, row) && NotDeletedSince(history, i, id, row.data)
  }

  /** No identifier and no value of the second unique column is inserted twice. */
  ghost predicate FreshIds<T>(history: seq<Statement<T>>, unique: T -> Option<string>) {
    forall i, j :: 0 <= i < j < |history| && history[i].Insert? && history[j].Insert? ==>
      history[i].id != history[j].id && !SameMark(unique, history[i].row.data, history[j].row.data)
  }

  /** The clock: no cleanup has run at a later time than `now`. */
  ghost predicate CleanedUpTo<T>(history: seq<Statement<T>>, now: int) {
    forall i :: 0 <= i < |history| && history[i].Clean? ==> history[i].now <= now
  }

  ghost predicate Agrees<T(!new)>(rows: Table<T>, history: seq<Statement<T>>, now: int) {
    && (forall id :: id in rows ==> Present(history, id, rows[id]))
    && (forall id, row :: Present(history, id, row) && row.expires > now ==> id in rows && rows[id] == row)
  }

  lemma PresentSnoc<T(!new)>(front: seq<Statement<T>>, s: Statement<T>, id: string, row: Row<T>)
    ensures Present(front + [s], id, row) <==>
            (s == Insert(id, row)) || (Present(front, id, row) && !(s.Delete? && s.named(id, row.data)))
  {
    var history := front + [s];
    if s == Insert(id, row) {
      assert InsertAt(history, |front|, id, row) && NotDeletedSince(history, |front|, id, row.data);
    }
    if Present(front, id, row) && !(s.Delete? && s.named(id, row.data)) {
      var i :| InsertAt(front, i, id, row) && NotDeletedSince(front, i, id, row.data);
      assert InsertAt(history, i, id, row) && NotDeletedSince(history, i, id, row.data);
    }
    if Present(history, id, row) && s != Insert(id, row) {
      var i :| InsertAt(history, i, id, row) && NotDeletedSince(history, i, id, row.data);
      assert history[i] == front[i];
      assert forall j :: i < j < |front| ==> history[j] == front[j];
      assert InsertAt(front, i, id, row) && NotDeletedSince(front, i, id, row.data);
      assert history[|front|] == s;
    }
  }

  /** A fresh insert clashes with nothing that was inserted before, so it is never refused. */
  lemma FreshIsAccepted<T(!new)>(rows: Table<T>, front: seq<Statement<T>>, s: Statement<T>, unique: T -> Option<string>)
    requires s.Insert? && FreshIds(front + [s], unique)
    requires forall id :: id in rows ==> Present(front, id, rows[id])
    ensures !Refused(rows, s.id, s.row, unique)
    ensures forall row :: !Present(front, s.id, row)
  {
    var history := front + [s];
    forall id, row | Present(front, id, row)
      ensures id != s.id && !SameMark(unique, row.data, s.row.data)
    {
      var i :| InsertAt(front, i, id, row) && NotDeletedSince(front, i, id, row.data);
      assert history[i] == front[i] && history[|front|] == s;
    }
  }

  lemma AgreesStep<T(!new)>(rows: Table<T>, front: seq<Statement<T>>, s: Statement<T>, unique: T -> Option<string>,
                            now: int)
    requires Agrees(rows, front, now) && FreshIds(front + [s], unique) && (s.Clean? ==> s.now <= now)
    ensures Agrees(Execute(rows, s, unique), front + [s], now)
  {
    hide Present, Refused, FreshIds;
    var history, after := front + [s], Execute(rows, s, unique);
    if s.Insert? {
      FreshIsAccepted(rows, front, s, unique);
    }
    forall id | id in after
      ensures Present(history, id, after[id])
    {
      PresentSnoc(front, s, id, after[id]);
    }
    forall id, row | Present(history, id, row) && row.expires > now
      ensures id in after && after[id] == row
    {
      PresentSnoc(front, s, id, row);
    }
  }

  lemma {:induction false} RunAgrees<T(!new)>(history: seq<Statement<T>>, unique: T -> Option<string>, now: int)
    requires FreshIds(history, unique) && CleanedUpTo(history, now)
    ensures Agrees(Run(history, unique), history, now)
    decreases |history|
  {
    hide Agrees, Execute;
    if history == [] {
      NothingAgrees(history, now);
    } else {
      var front, last := history[..|history| - 1], history[|history| - 1];
      assert front + [last] == history;
      RunAgrees(front, unique, now);
      AgreesStep(Run(front, unique), front, last, unique, now);
    }
  }

  lemma NothingAgrees<T(!new)>(history: seq<Statement<T>>, now: int)
    requires history == []
    ensures Agrees(map[], history, now)
  {
  }

  /**
    * Whenever the clock does not go back and identifiers are fresh, a lookup at `now` sees a row exactly when the row
    * was inserted, expires after `now`, and no delete has named it since.
    */
  lemma VisibleMeansHistory<T(!new)>(history: seq<Statement<T>>, unique: T -> Option<string>, now: int,
                                     id: string, row: Row<T>)
    requires FreshIds(history, unique) && CleanedUpTo(history, now)
    ensures id in Visible(Run(history, unique), now) && Visible(Run(history, unique), now)[id] == row <==>
            Present(history, id, row) && row.expires > now
  {
    RunAgrees(history, unique, now);
  }

  // ---------------------------------------------------------------------------------------------------------------
  // Cleanup is unobservable
  // ---------------------------------------------------------------------------------------------------------------

  /** The history without its cleanups. */
  function Uncleaned<T>(history: seq<Statement<T>>): seq<Statement<T>>
    decreases |history|
  {
    if history == [] then []
    else
      var last := history[|history| - 1];
      Uncleaned(history[..|history| - 1]) + if last.Clean? then [] else [last]
  }

  lemma {:induction false} UncleanedPresent<T(!new)>(history: seq<Statement<T>>, id: string, row: Row<T>)
    ensures Present(Uncleaned(history), id, row) <==> Present(history, id, row)
    decreases |history|
  {
    hide Present;
    if history == [] {
      assert Uncleaned(history) == history;
    } else {
      var front, last := history[..|history| - 1], history[|history| - 1];
      assert front + [last] == history;
      UncleanedPresent(front, id, row);
      PresentSnoc(front, last, id, row);
      if last.Clean? {
        assert Uncleaned(history) == Uncleaned(front);
      } else {
        PresentSnoc(Uncleaned(front), last, id, row);
      }
    }
  }

  lemma {:induction false} UncleanedFrom<T(!new)>(history: seq<Statement<T>>, j: nat)
    requires j < |Uncleaned(history)|
    ensures exists i :: 0 <= i < |history| && history[i] == Uncleaned(history)[j]
    ensures !Uncleaned(history)[j].Clean?
    decreases |history|
  {
    var front, last := history[..|history| - 1], history[|history| - 1];
    if j < |Uncleaned(front)| {
      UncleanedFrom(front, j);
      var i :| 0 <= i < |front| && front[i] == Uncleaned(front)[j];
      assert history[i] == Uncleaned(history)[j];
    } else {
      assert history[|history| - 1] == Uncleaned(history)[j];
    }
  }

  lemma {:induction false} UncleanedFresh<T(!new)>(history: seq<Statement<T>>, unique: T -> Option<string>)
    requires FreshIds(history, unique)
    ensures FreshIds(Uncleaned(history), unique)
    decreases |history|
  {
    if history == [] {
    } else {
      var front, last := history[..|history| - 1], history[|history| - 1];
      assert forall i :: 0 <= i < |front| ==> history[i] == front[i];
      UncleanedFresh(front, unique);
      var kept, all := Uncleaned(front), Uncleaned(history);
      forall i, j | 0 <= i < j < |all| && all[i].Insert? && all[j].Insert?
        ensures all[i].id != all[j].id && !SameMark(unique, all[i].row.data, all[j].row.data)
      {
        assert all[i] == kept[i];
        if j == |kept| {
          UncleanedFrom(front, i);
          var k :| 0 <= k < |front| && front[k] == kept[i];
          assert history[k] == all[i] && history[|history| - 1] == all[j];
        } else {
          assert all[j] == kept[j];
        }
      }
    }
  }

  /** Running the cleanup any number of times, at any points of a run, changes nothing that a later lookup can see. */
  lemma CleanupUnobservable<T(!new)>(history: seq<Statement<T>>, unique: T -> Option<string>, now: int)
    requires FreshIds(history, unique) && CleanedUpTo(history, now)
    ensures Visible(Run(history, unique), now) == Visible(Run(Uncleaned(history), unique), now)
  {
    hide Run, Present;
    var plain := Uncleaned(history);
    UncleanedFresh(history, unique);
    forall j | 0 <= j < |plain|
      ensures !plain[j].Clean?
    {
      UncleanedFrom(history, j);
    }
    RunAgrees(history, unique, now);
    RunAgrees(plain, unique, now);
    var a, b := Visible(Run(history, unique), now), Visible(Run(plain, unique), now);
    forall id | id in a
      ensures id in b && b[id] == a[id]
    {
      UncleanedPresent(history, id, a[id]);
    }
    forall id | id in b
      ensures id in a
    {
      UncleanedPresent(history, id, b[id]);
    }
  }

  /** With a reused identifier it is observable: the second insert goes through only if the expired row is gone. */
  lemma ReusedIdShowsCleanup<T(!new)>(id: string, a: T, b: T, unique: T -> Option<string>)
    requires unique(a) == None
    ensures var history := [Insert(id, Row(a, 1)), Clean(2), Insert(id, Row(b, 4))];
            id in Visible(Run(history, unique), 3) && id !in Visible(Run(Uncleaned(history), unique), 3)
  {
    var x, y, z := Insert(id, Row(a, 1)), Clean(2), Insert(id, Row(b, 4));
    var history: seq<Statement<T>> := [x, y, z];
    assert history[..2] == [x, y] && [x, y][..1] == [x] && [x][..0] == [];
    assert Run([x], unique) == map[id := Row(a, 1)];
    assert Run([x, y], unique) == map[];
    assert Run(history, unique) == map[id := Row(b, 4)];
    assert Uncleaned([x]) == [x] && Uncleaned([x, y]) == [x] && Uncleaned(history) == [x, z];
    assert [x, z][..1] == [x];
    assert Run([x, z], unique) == map[id := Row(a, 1)];
  }
}
