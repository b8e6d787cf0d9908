/**
  * Schema migrations: `Migrate` applies, in file name order, every migration whose version is not recorded yet, each
  * in a transaction that also records the version. A run may stop at any statement, and is simply started again.
  */
module Migrations {
  import opened Common
  import opened Text
  import opened Decimal

  // ---------------------------------------------------------------------------------------------------------------
  // Versions
  // ---------------------------------------------------------------------------------------------------------------

  const MAX_INT := 0x7fff_ffff_ffff_ffff

  /** `strconv.Atoi` on 64 bits: an optional sign, then at least one digit, within the range of an integer. */
  function Atoi(s: string): Option<int> {
    var signed := s != "" && (s[0] == '+' || s[0] == '-');
    var body := if signed then s[1..] else s;
    if body == "" || !Digits(body) then None
    else
      var n: int := if signed && s[0] == '-' then 0 - Value(body) else Value(body);
      if -MAX_INT - 1 <= n <= MAX_INT then Some(n) else None
  }

  function TrimSuffix(s: string, suffix: string): string {
    if |suffix| <= |s| && s[|s| - |suffix|..] == suffix then s[..|s| - |suffix|] else s
  }

  /** The part before the first `c`, or all of it. */
  function Before(s: string, c: char): string {
    if s == "" || s[0] == c then "" else [s[0]] + Before(s[1..], c)
  }

  function ParseMigrationVersion(name: string): Option<int> {
    Atoi(Before(TrimSuffix(name, ".sql"), '_'))
  }

  lemma {:induction false} BeforeFirst(d: string, c: char, rest: string)
    requires c !in d
    ensures Before(d + [c] + rest, c) == d
  {
    if d == "" {
      assert d + [c] + rest == [c] + rest;
    } else {
      BeforeFirst(d[1..], c, rest);
      assert (d + [c] + rest)[1..] == d[1..] + [c] + rest;
    }
  }

  lemma TrimKeeps(d: string, rest: string, suffix: string)
    requires '_' !in suffix
    ensures exists cut: string :: TrimSuffix(d + ['_'] + rest, suffix) == d + ['_'] + cut
  {
    var name := d + ['_'] + rest;
    var n := |name| - |suffix|;
    if 0 <= n && name[n..] == suffix {
      assert forall i :: n <= i < |name| ==> name[i] == suffix[i - n];
      assert name[|d|] == '_';
      assert name[..n] == d + ['_'] + rest[..n - |d| - 1];
    } else {
      assert TrimSuffix(name, suffix) == d + ['_'] + rest;
    }
  }

  /** A name that starts with digits and an underscore has the number before the underscore as its version. */
  lemma ParsesPrefix(d: string, rest: string)
    requires d != "" && Digits(d) && Value(d) < 0x8000_0000_0000_0000
    ensures ParseMigrationVersion(d + ['_'] + rest) == Some(Value(d))
    ensures ParseMigrationVersion(['-'] + d + ['_'] + rest) == Some(0 - Value(d))
    ensures ParseMigrationVersion(d + ".sql") == Some(Value(d))
  {
    hide TrimSuffix, Value, Before;
    ParsesBefore(d, rest);
    assert (['-'] + d)[1..] == d;
    ParsesBefore(['-'] + d, rest);
    TrimSame(d, ".sql");
    BeforeNone(d, '_');
  }

  lemma TrimSame(d: string, suffix: string)
    ensures TrimSuffix(d + suffix, suffix) == d
  {}

  lemma {:induction false} BeforeNone(d: string, c: char)
    requires c !in d
    ensures Before(d, c) == d
  {
    if d != "" {
      BeforeNone(d[1..], c);
      assert d == [d[0]] + d[1..];
    }
  }

  lemma ParsesBefore(d: string, rest: string)
    requires '_' !in d
    ensures ParseMigrationVersion(d + ['_'] + rest) == Atoi(d)
  {
    hide TrimSuffix, Atoi;
    TrimKeeps(d, rest, ".sql");
    var cut: string :| TrimSuffix(d + ['_'] + rest, ".sql") == d + ['_'] + cut;
    BeforeFirst(d, '_', cut);
  }

  /** What precedes the underscore must be a number: not empty, and digits only after an optional sign. */
  lemma NoNumberNoVersion(d: string, rest: string, i: nat)
    requires '_' !in d
    requires d == "" || (i < |d| && !('0' <= d[i] <= '9') && (i > 0 || (d[0] != '+' && d[0] != '-')))
    ensures ParseMigrationVersion(d + ['_'] + rest) == None
  {
    hide ParseMigrationVersion, Value;
    ParsesBefore(d, rest);
    if d != "" {
      var body := if d[0] == '+' || d[0] == '-' then d[1..] else d;
      if i > 0 {
        assert d[1..][i - 1] == d[i];
      }
      assert !Digits(body);
    }
  }

  lemma {:induction false} LessPrefix(s: string, t: string, x: string, y: string)
    requires |s| == |t| && Less(s, t)
    ensures Less(s + x, t + y)
  {
    if s[0] == t[0] {
      LessPrefix(s[1..], t[1..], x, y);
      assert (s + x)[1..] == s[1..] + x && (t + y)[1..] == t[1..] + y;
    }
  }

  lemma {:induction false} LessSnoc(s: string, t: string, a: char, b: char)
    requires |s| == |t|
    requires Less(s, t) || (s == t && a < b)
    ensures Less(s + [a], t + [b])
  {
    if s == "" {
      assert s + [a] == [a] && t + [b] == [b];
    } else if s[0] == t[0] {
      LessSnoc(s[1..], t[1..], a, b);
      assert (s + [a])[1..] == s[1..] + [a] && (t + [b])[1..] == t[1..] + [b];
    }
  }

  lemma {:induction false} ValueOrder(d: string, e: string)
    requires |d| == |e| && Digits(d) && Digits(e)
    ensures Value(d) < Value(e) ==> Less(d, e)
    ensures Value(d) == Value(e) ==> d == e
  {
    if d == "" {
    } else {
      var n := |d| - 1;
      ValueOrder(d[..n], e[..n]);
      assert d == d[..n] + [d[n]] && e == e[..n] + [e[n]];
      if Value(d) < Value(e) {
        LessSnoc(d[..n], e[..n], d[n], e[n]);
      }
    }
  }

  /** Names whose numbers are padded to one width sort by version, whatever follows the underscore. */
  lemma PaddedNamesSortByVersion(d: string, e: string, x: string, y: string)
    requires d != "" && |d| == |e| && Digits(d) && Digits(e)
    requires Value(d) < 0x8000_0000_0000_0000 && Value(e) < 0x8000_0000_0000_0000
    ensures var v, w := ParseMigrationVersion(d + ['_'] + x), ParseMigrationVersion(e + ['_'] + y);
            v.Some? && w.Some? && (v.value < w.value ==> Less(d + ['_'] + x, e + ['_'] + y))
  {
    hide ParseMigrationVersion, Less, Value;
    ParsesPrefix(d, x);
    ParsesPrefix(e, y);
    ValueOrder(d, e);
    if Value(d) < Value(e) {
      LessPrefix(d, e, ['_'] + x, ['_'] + y);
      assert d + (['_'] + x) == d + ['_'] + x && e + (['_'] + y) == e + ['_'] + y;
    }
  }

  /** Without padding they need not: version 10 sorts before version 9. */
  lemma UnpaddedNamesSortOtherwise(x: string, y: string)
    ensures ParseMigrationVersion("9" + ['_'] + x) == Some(9) && ParseMigrationVersion("10" + ['_'] + y) == Some(10)
    ensures Less("10" + ['_'] + y, "9" + ['_'] + x)
  {
    assert Value("") == 0 && "9"[..0] == "" && "1"[..0] == "" && "10"[..1] == "1";
    assert Value("9") == 9 && Value("1") == 1 && Value("10") == 10;
    ParsesPrefix("9", x);
    ParsesPrefix("10", y);
  }

  // ---------------------------------------------------------------------------------------------------------------
  // One run
  // ---------------------------------------------------------------------------------------------------------------

  /** The scripts whose effects the database holds, in the order they were committed, and the recorded versions. */
  datatype Db = Db(schema: seq<string>, recorded: set<int>)

  datatype Statement = Prepare | ReadFile | BeginTx | Script | Record | Commit

  /** Whether a statement works when it is executed for a given file; `Prepare` covers those before the first file. */
  type Faults = (Statement, string) -> bool

  predicate FileWorks(works: Faults, name: string) {
    works(ReadFile, name) && works(BeginTx, name) && works(Script, name) && works(Record, name) && works(Commit, name)
  }

  datatype Outcome = Outcome(db: Db, ok: bool)

  /** The run from here on, given the versions recorded when it began. */
  function Continue(db: Db, applied: set<int>, names: seq<string>, works: Faults): Outcome
    decreases |names|
  {
    if names == [] then Outcome(db, true)
    else
      var name := names[0];
      match ParseMigrationVersion(name)
      case None => Outcome(db, false)
      case Some(v) =>
        if v in applied then Continue(db, applied, names[1..], works)
        else if !FileWorks(works, name) || v in db.recorded then Outcome(db, false)
        else Continue(Db(db.schema + [name], db.recorded + {v}), applied, names[1..], works)
  }

  function Migrated(db: Db, names: seq<string>, works: Faults): Outcome {
    if works(Prepare, "") then Continue(db, db.recorded, names, works) else Outcome(db, false)
  }

  class Database {
    var schema: seq<string>
    var recorded: set<int>

    constructor ()
      ensures State() == Db([], {})
    {
      schema, recorded := [], {};
    }

    function State(): Db
      reads this
    {
      Db(schema, recorded)
    }

    /** One transaction: the script and the record of its version are published together or not at all. */
    method Apply(name: string, version: int, works: Faults) returns (ok: bool)
      modifies this
      ensures ok == (works(ReadFile, name) && works(BeginTx, name) && works(Script, name) && works(Record, name) &&
                     works(Commit, name) && version !in old(recorded))
      ensures State() ==
              if ok then Db(old(schema) + [name], old(recorded) + {version}) else Db(old(schema), old(recorded))
    {
      if !works(ReadFile, name) || !works(BeginTx, name) {
        return false;
      }
      var tx := State();
      if !works(Script, name) {
        return false;
      }
      tx := tx.(schema := tx.schema + [name]);
      if !works(Record, name) || version in tx.recorded {
        return false;
      }
      tx := tx.(recorded := tx.recorded + {version});
      if !works(Commit, name) {
        return false;
      }
      schema, recorded := tx.schema, tx.recorded;
      return true;
    }

    method Migrate(names: seq<string>, works: Faults) returns (ok: bool)
      modifies this
      ensures Outcome(State(), ok) == Migrated(old(State()), names, works)
    {
      if !works(Prepare, "") {
        return false;
      }
      var applied := recorded;
      var i := 0;
      while i < |names|
        invariant 0 <= i <= |names|
        invariant Continue(State(), applied, names[i..], works) == Continue(old(State()), applied, names, works)
      {
        assert names[i..][1..] == names[i + 1..];
        var version := ParseMigrationVersion(names[i]);
        if version.None? {
          return false;
        }
        if version.value !in applied {
          var done := Apply(names[i], version.value, works);
          if !done {
            return false;
          }
        }
        i := i + 1;
      }
      return true;
    }
  }

  // ---------------------------------------------------------------------------------------------------------------
  // Every run on every list
  // ---------------------------------------------------------------------------------------------------------------

  function VersionsOf(names: seq<string>): set<int> {
    set name | name in names && ParseMigrationVersion(name).Some? :: ParseMigrationVersion(name).value
  }

  /** Every name has a version and no two have the same. */
  predicate Distinct(names: seq<string>) {
    && (forall i :: 0 <= i < |names| ==> ParseMigrationVersion(names[i]).Some?)
    && (forall i, j :: 0 <= i < j < |names| ==> ParseMigrationVersion(names[i]) != ParseMigrationVersion(names[j]))
  }

  /** The recorded versions are exactly those of the committed migrations, and none was committed twice. */
  ghost predicate Sound(db: Db) {
    Distinct(db.schema) && db.recorded == VersionsOf(db.schema)
  }

  lemma CommitSound(db: Db, name: string, v: int)
    requires Sound(db) && ParseMigrationVersion(name) == Some(v) && v !in db.recorded
    ensures Sound(Db(db.schema + [name], db.recorded + {v}))
  {
    hide ParseMigrationVersion;
    var schema := db.schema + [name];
    assert forall i :: 0 <= i < |db.schema| ==> db.schema[i] in db.schema && schema[i] == db.schema[i];
    assert forall n :: n in schema <==> n in db.schema || n == name;
    assert VersionsOf(schema) == VersionsOf(db.schema) + {v};
  }

  lemma {:induction false} ContinueSound(db: Db, applied: set<int>, names: seq<string>, works: Faults)
    requires Sound(db) && applied <= db.recorded
    ensures var r := Continue(db, applied, names, works);
            Sound(r.db) && db.schema <= r.db.schema && db.recorded <= r.db.recorded &&
            (r.ok ==> VersionsOf(names) <= r.db.recorded && forall n :: n in names ==> ParseMigrationVersion(n).Some?)
    decreases |names|
  {
    hide ParseMigrationVersion, Sound, FileWorks;
    if names == [] {
    } else {
      var name := names[0];
      assert forall n :: n in names <==> n == name || n in names[1..];
      match ParseMigrationVersion(name)
      case None =>
      case Some(v) =>
        if v in applied {
          ContinueSound(db, applied, names[1..], works);
        } else if FileWorks(works, name) && v !in db.recorded {
          CommitSound(db, name, v);
          ContinueSound(Db(db.schema + [name], db.recorded + {v}), applied, names[1..], works);
        }
    }
  }

  /**
    * Whatever the list and wherever a run stops: what was committed stays, the recorded versions are exactly those of
    * the committed migrations, none is committed twice, and a run that reports success leaves every version recorded.
    */
  lemma RunKeepsSound(db: Db, names: seq<string>, works: Faults)
    requires Sound(db)
    ensures var r := Migrated(db, names, works);
            Sound(r.db) && db.schema <= r.db.schema && db.recorded <= r.db.recorded &&
            (r.ok ==> VersionsOf(names) <= r.db.recorded)
  {
    ContinueSound(db, db.recorded, names, works);
  }

  // ---------------------------------------------------------------------------------------------------------------
  // Restarted runs on one list
  // ---------------------------------------------------------------------------------------------------------------

  /** The database is where a run on `names` that stops after the first `k` migrations leaves it. */
  ghost predicate PrefixDone(db: Db, names: seq<string>, k: nat) {
    k <= |names| && db == Db(names[..k], VersionsOf(names[..k]))
  }

  lemma {:induction false} SkipApplied(db: Db, names: seq<string>, i: nat, k: nat, works: Faults)
    requires Distinct(names) && i <= k && PrefixDone(db, names, k)
    ensures Continue(db, db.recorded, names[i..], works) == Continue(db, db.recorded, names[k..], works)
    decreases k - i
  {
    hide ParseMigrationVersion;
    if i < k {
      assert names[..k][i] == names[i] && names[i] in names[..k];
      assert names[i..][1..] == names[i + 1..];
      SkipApplied(db, names, i + 1, k, works);
    }
  }

  lemma NextIsNew(names: seq<string>, k: nat)
    requires Distinct(names) && k < |names|
    ensures ParseMigrationVersion(names[k]).value !in VersionsOf(names[..k])
    ensures names[..k] + [names[k]] == names[..k + 1]
    ensures VersionsOf(names[..k]) + {ParseMigrationVersion(names[k]).value} == VersionsOf(names[..k + 1])
  {
    hide ParseMigrationVersion;
    assert names[..k + 1] == names[..k] + [names[k]];
    assert forall n :: n in names[..k + 1] <==> n in names[..k] || n == names[k];
  }

  lemma {:induction false} ContinueFrom(names: seq<string>, k: nat, applied: set<int>, works: Faults) returns (m: nat)
    requires Distinct(names) && k <= |names| && applied <= VersionsOf(names[..k])
    ensures var r := Continue(Db(names[..k], VersionsOf(names[..k])), applied, names[k..], works);
            k <= m && PrefixDone(r.db, names, m) && (r.ok <==> m == |names|)
    ensures (forall i :: k <= i < |names| ==> FileWorks(works, names[i])) ==> m == |names|
    decreases |names| - k
  {
    hide ParseMigrationVersion, FileWorks, VersionsOf;
    m := k;
    if k < |names| {
      NextIsNew(names, k);
      assert names[k..][1..] == names[k + 1..];
      if FileWorks(works, names[k]) {
        m := ContinueFrom(names, k + 1, applied, works);
      }
    }
  }

  /**
    * Restarting a run on the same list picks up where the last one stopped: the committed migrations are again the
    * first ones of the list, at least as many as before, and all of them exactly when the run reports success, which
    * it does if nothing fails.
    */
  lemma RunExtendsPrefix(db: Db, names: seq<string>, k: nat, works: Faults)
    requires Distinct(names) && PrefixDone(db, names, k)
    ensures var r := Migrated(db, names, works);
            exists m :: k <= m && PrefixDone(r.db, names, m) &&
                        (r.ok ==> m == |names|) && (works(Prepare, "") && m == |names| ==> r.ok)
    ensures works(Prepare, "") && (forall i :: 0 <= i < |names| ==> FileWorks(works, names[i])) ==>
              Migrated(db, names, works) == Outcome(Db(names, VersionsOf(names)), true)
  {
    hide VersionsOf, FileWorks, Continue, Distinct;
    if works(Prepare, "") {
      SkipApplied(db, names, 0, k, works);
      assert names[0..] == names;
      var m := ContinueFrom(names, k, db.recorded, works);
      assert PrefixDone(Migrated(db, names, works).db, names, m);
      assert m == |names| ==> names[..m] == names;
    } else {
      assert PrefixDone(Migrated(db, names, works).db, names, k);
    }
  }

  /** Any number of runs on one list, each with its own failures, from an empty database. */
  function Restarted(names: seq<string>, runs: seq<Faults>): Db
    decreases |runs|
  {
    if runs == [] then Db([], {}) else Migrated(Restarted(names, runs[..|runs| - 1]), names, runs[|runs| - 1]).db
  }

  /** However often a run is started and wherever it fails, the database holds a prefix of the list, so recorded. */
  lemma {:induction false} RestartsKeepPrefix(names: seq<string>, runs: seq<Faults>)
    requires Distinct(names)
    ensures exists k: nat :: PrefixDone(Restarted(names, runs), names, k)
    decreases |runs|
  {
    hide Migrated, Distinct;
    if runs == [] {
      assert names[..0] == [];
      assert PrefixDone(Restarted(names, runs), names, 0);
    } else {
      RestartsKeepPrefix(names, runs[..|runs| - 1]);
      var k: nat :| PrefixDone(Restarted(names, runs[..|runs| - 1]), names, k);
      var db, works := Restarted(names, runs[..|runs| - 1]), runs[|runs| - 1];
      RunExtendsPrefix(db, names, k, works);
      var m: nat :| PrefixDone(Migrated(db, names, works).db, names, m);
      assert Restarted(names, runs) == Migrated(db, names, works).db;
    }
  }

  // ---------------------------------------------------------------------------------------------------------------
  // Lists that can never be completed
  // ---------------------------------------------------------------------------------------------------------------

  ghost predicate AllWork(works: Faults) {
    forall s, name :: works(s, name)
  }

  lemma {:induction false} CompletesFrom(names: seq<string>, k: nat, works: Faults)
    requires AllWork(works) && k <= |names| && Distinct(names[..k])
    ensures Continue(Db(names[..k], VersionsOf(names[..k])), {}, names[k..], works).ok <==> Distinct(names)
    decreases |names| - k
  {
    hide ParseMigrationVersion;
    if k == |names| {
      assert names[..k] == names;
    } else {
      var name := names[k];
      assert names[k..][1..] == names[k + 1..];
      assert names[..k + 1] == names[..k] + [name];
      assert forall n :: n in names[..k + 1] <==> n in names[..k] || n == name;
      if ParseMigrationVersion(name).None? {
      } else if ParseMigrationVersion(name).value in VersionsOf(names[..k]) {
        var n :| n in names[..k] && ParseMigrationVersion(n) == ParseMigrationVersion(name);
        var i :| 0 <= i < k && names[i] == n;
      } else {
        assert VersionsOf(names[..k + 1]) == VersionsOf(names[..k]) + {ParseMigrationVersion(name).value};
        CompletesFrom(names, k + 1, works);
      }
    }
  }

  /**
    * On an empty database and with nothing failing, a run succeeds exactly when every file name has a version and no
    * two names share one.
    */
  lemma FirstRunSucceedsIff(names: seq<string>, works: Faults)
    requires AllWork(works)
    ensures Migrated(Db([], {}), names, works).ok <==> Distinct(names)
  {
    hide ParseMigrationVersion, Continue;
    assert names[..0] == [] && names[0..] == names;
    assert VersionsOf(names[..0]) == {};
    CompletesFrom(names, 0, works);
  }

  lemma {:induction false} ContinueExecutes(db: Db, applied: set<int>, names: seq<string>, works: Faults)
    requires applied <= db.recorded && Continue(db, applied, names, works).ok
    ensures var r := Continue(db, applied, names, works);
            && (forall n :: n in names && VersionIn(n, applied) ==> (n in r.db.schema <==> n in db.schema))
            && (forall n :: n in names && !VersionIn(n, applied) ==> n in r.db.schema)
            && (forall n :: n in db.schema ==> n in r.db.schema)
    ensures forall n :: VersionIn(n, applied) && n in Continue(db, applied, names, works).db.schema ==> n in db.schema
    decreases |names|
  {
    hide ParseMigrationVersion, FileWorks;
    if names != [] {
      var name := names[0];
      var v := ParseMigrationVersion(name).value;
      assert forall n :: n in names <==> n == name || n in names[1..];
      if v in applied {
        ContinueExecutes(db, applied, names[1..], works);
      } else {
        var grown := Db(db.schema + [name], db.recorded + {v});
        assert forall n :: n in grown.schema <==> n in db.schema || n == name;
        ContinueExecutes(grown, applied, names[1..], works);
      }
    }
  }

  predicate VersionIn(name: string, versions: set<int>) {
    ParseMigrationVersion(name).Some? && ParseMigrationVersion(name).value in versions
  }

  /**
    * A run that reports success has executed every script of the list, now or earlier, exactly when the scripts whose
    * versions were recorded before the run are those that had been executed.
    */
  lemma SuccessExecutesAllIff(db: Db, names: seq<string>, works: Faults)
    requires Sound(db) && Migrated(db, names, works).ok
    ensures (forall n :: n in names ==> n in Migrated(db, names, works).db.schema) <==>
            (forall n :: n in names && VersionIn(n, db.recorded) ==> n in db.schema)
  {
    ContinueExecutes(db, db.recorded, names, works);
  }

  /**
    * With a shared version the failure does not last: the second run reports success although one of the two scripts
    * was never executed.
    */
  lemma SharedVersionIsSkipped(x: string, y: string, v: int, works: Faults)
    requires x != y && ParseMigrationVersion(x) == Some(v) && ParseMigrationVersion(y) == Some(v) && AllWork(works)
    ensures Migrated(Db([], {}), [x, y], works) == Outcome(Db([x], {v}), false)
    ensures Migrated(Db([x], {v}), [x, y], works) == Outcome(Db([x], {v}), true)
  {
    hide ParseMigrationVersion;
    var rest := [x, y][1..];
    assert rest == [y] && rest[1..] == [];
    var db := Db([x], {v});
    assert Continue(db, {}, rest, works) == Outcome(db, false);
    assert Continue(db, {v}, rest, works) == Outcome(db, true);
    assert [] + [x] == [x] && {} + {v} == {v};
    assert FileWorks(works, x);
    var start := Db([], {});
    assert Continue(start, {}, [x, y], works) ==
           Continue(Db(start.schema + [x], start.recorded + {v}), {}, rest, works);
  }
}
