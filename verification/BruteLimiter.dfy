/**
 The brute-force limiter: a bounded table of recent failures per key, pruned in place and swept, and the
 unbounded limiter that it stands for.

 Times are integers counted from Go's zero time; clock readings are later than that and, in the order in
 which the mutex is taken, never decrease.
 */
module BruteLimiter {

  const MAX_ENTRIES: nat := 100
  const ZERO_TIME: int := 0

  /** A reading of the clock. */
  type Clock = t: int | t > ZERO_TIME witness 1

  datatype Policy = Policy(max: int, window: int, lockout: int)

  datatype Attempts = Attempts(failures: seq<int>, lockedUntil: int)

  /** A key of the table: the hexadecimal digest that signInLimitKey computes. */
  datatype Key = Key(digest: string)

  type Table = map<Key, Attempts>

  // ---------------------------------------------------------------- one entry

  /** The failures later than a cutoff, in order. */
  function Fresh(failures: seq<int>, cutoff: int): seq<int> {
    if failures == [] then []
    else
      var n := |failures| - 1;
      var rest := Fresh(failures[..n], cutoff);
      if failures[n] > cutoff then rest + [failures[n]] else rest
  }

  lemma FreshAppend(failures: seq<int>, t: int, cutoff: int)
    ensures Fresh(failures + [t], cutoff) ==
            if t > cutoff then Fresh(failures, cutoff) + [t] else Fresh(failures, cutoff)
  {
    assert (failures + [t])[..|failures|] == failures;
  }

  class SignInAttempts {
    ghost const key: Key   // the key under which this entry is stored
    var failures: seq<int>
    var lockedUntil: int

    constructor (ghost key: Key)
      ensures this.key == key && Value() == Attempts([], ZERO_TIME)
    {
      this.key := key;
      failures, lockedUntil := [], ZERO_TIME;
    }

    ghost function Value(): Attempts
      reads this
    {
      Attempts(failures, lockedUntil)
    }

    /** Compacts the failures in place. */
    method Prune(now: int, window: int)
      modifies this`failures
      ensures failures == Fresh(old(failures), now - window)
    {
      hide Fresh;
      var cutoff := now - window;
      ghost var was := failures;
      var n := 0;
      assert Fresh(was[..0], cutoff) == [] by { FreshEmpty(cutoff); }
      for i := 0 to |failures|
        invariant n <= i && |failures| == |was|
        invariant failures[..n] == Fresh(was[..i], cutoff)
        invariant failures[i..] == was[i..]
      {
        var t := failures[i];
        assert t == failures[i..][0] == was[i];
        assert was[..i + 1] == was[..i] + [t];
        FreshAppend(was[..i], t, cutoff);
        ghost var before := failures;
        if t > cutoff {
          failures := failures[n := t];
          assert failures[..n + 1] == before[..n] + [t];
          n := n + 1;
        }
        assert failures[i + 1..] == before[i..][1..];
      }
      assert was[..|was|] == was;
      failures := failures[..n];
    }

    /** The tail of `fail`: prune, append, and lock when there are too many. */
    method Note(p: Policy, now: int) returns (wait: int)
      modifies this
      ensures Value() == Recorded(p, old(Value()), now)
      ensures failures == Fresh(old(failures), now - p.window) + [now]
      ensures lockedUntil == if |failures| >= p.max then now + p.lockout else old(lockedUntil)
      ensures wait == if |failures| >= p.max then p.lockout else 0
    {
      hide Fresh;
      Prune(now, p.window);
      failures := failures + [now];
      if |failures| >= p.max {
        lockedUntil := now + p.lockout;
        return p.lockout;
      }
      return 0;
    }
  }

  lemma FreshEmpty(cutoff: int)
    ensures Fresh([], cutoff) == []
  {}

  // ---------------------------------------------------------------- the table

  predicate Stale(a: Attempts, now: int, window: int) {
    && a.lockedUntil < now
    && (a.failures == [] || a.failures[|a.failures| - 1] + window < now)
  }

  function Swept(table: Table, now: int, window: int): Table {
    map key | key in table && !Stale(table[key], now, window) :: table[key]
  }

  /** The remaining lockout of a key: 0 if it may proceed. */
  function Wait(table: Table, key: Key, now: int): (wait: int)
    ensures wait >= 0
  {
    if key in table && table[key].lockedUntil - now > 0 then table[key].lockedUntil - now else 0
  }

  datatype FailResult = FailResult(table: Table, wait: int, recorded: bool)

  /** The table in which a failure is recorded: swept if the table is full. */
  function Room(p: Policy, table: Table, now: int): Table {
    if |table| >= MAX_ENTRIES then Swept(table, now, p.window) else table
  }

  predicate HasRoom(p: Policy, table: Table, key: Key, now: int) {
    key in Room(p, table, now) || |Room(p, table, now)| < MAX_ENTRIES
  }

  function Recorded(p: Policy, a: Attempts, now: int): Attempts {
    var failures := Fresh(a.failures, now - p.window) + [now];
    Attempts(failures, if |failures| >= p.max then now + p.lockout else a.lockedUntil)
  }

  /** What `fail` does to the table, what it returns, and whether it recorded anything. */
  function FailStep(p: Policy, table: Table, key: Key, now: int): FailResult {
    var room := Room(p, table, now);
    if !HasRoom(p, table, key, now) then FailResult(room, 0, false)
    else
      var a := if key in room then room[key] else Attempts([], ZERO_TIME);
      var a' := Recorded(p, a, now);
      FailResult(room[key := a'], if |a'.failures| >= p.max then p.lockout else 0, true)
  }

  // ---------------------------------------------------------------- the limiter object

  class Limiter {
    const policy: Policy
    var entries: map<Key, SignInAttempts>
    ghost var table: Table                  // the entries as values
    ghost var objects: set<SignInAttempts>  // every entry object this limiter has used

    ghost predicate Valid()
      reads this, objects
    {
      && (forall key :: key in table <==> key in entries)
      && (forall key :: key in entries ==>
            && entries[key] in objects
            && entries[key].key == key
            && entries[key].failures == table[key].failures
            && entries[key].lockedUntil == table[key].lockedUntil)
    }

    constructor (policy: Policy)
      ensures Valid() && table == map[] && this.policy == policy && objects == {}
    {
      this.policy := policy;
      entries, table, objects := map[], map[], {};
    }

    method Blocked(key: Key, now: int) returns (wait: int)
      requires Valid()
      ensures wait == Wait(table, key, now)
      ensures key in table && table[key].lockedUntil > now ==> wait == table[key].lockedUntil - now
      ensures key !in table || table[key].lockedUntil <= now ==> wait == 0
    {
      if key !in entries { return 0; }
      var rem := entries[key].lockedUntil - now;
      wait := if rem > 0 then rem else 0;
    }

    method Sweep(now: int)
      requires Valid()
      modifies this`entries, this`table
      ensures Valid() && table == Swept(old(table), now, policy.window)
      ensures forall k :: k in table <==>
                k in old(table) &&
                (var a := old(table)[k];
                 a.lockedUntil >= now || (a.failures != [] && a.failures[|a.failures| - 1] + policy.window >= now))
    {
      hide Swept, Stale, Fresh;
      ghost var was, all := table, entries;
      var keys := entries.Keys;
      while keys != {}
        invariant forall k :: k in keys ==> k in entries
        invariant forall k :: k in entries ==> k in all && entries[k] == all[k]
        invariant forall k :: k in all ==> (k in entries <==> k in keys || !Stale(was[k], now, policy.window))
        decreases |keys|
      {
        var key :| key in keys;
        keys := keys - {key};
        var e := entries[key];
        var stale := e.lockedUntil < now &&
                     (|e.failures| == 0 || e.failures[|e.failures| - 1] + policy.window < now);
        StaleIs(was[key], now, policy.window);
        if stale {
          entries := entries - {key};
        }
      }
      SweptIs(was, now, policy.window);
      table := Swept(was, now, policy.window);
    }

    method Fail(key: Key, now: int) returns (wait: int)
      requires Valid()
      modifies this, objects
      ensures Valid() && fresh(objects - old(objects))
      ensures FailResult(table, wait, HasRoom(policy, old(table), key, now)) == FailStep(policy, old(table), key, now)
      ensures var room := if |old(table)| >= 100 then Swept(old(table), now, policy.window) else old(table);
              if key !in room && |room| >= 100 then table == room && wait == 0
              else
                && key in table && table - {key} == room - {key}
                && table[key].failures ==
                   Fresh(if key in room then room[key].failures else [], now - policy.window) + [now]
                && (if |table[key].failures| >= policy.max
                    then wait == policy.lockout && table[key].lockedUntil == now + policy.lockout
                    else wait == 0 && table[key].lockedUntil == if key in room then room[key].lockedUntil else 0)
    {
      hide Recorded, Swept, Valid, Fresh;
      SizesAgree();
      if |entries| >= MAX_ENTRIES {
        Sweep(now);
      }
      SizesAgree();
      KeysAgree(key);
      if key !in entries {
        if |entries| >= MAX_ENTRIES { return 0; }
        Track(key);
      }
      wait := Note(key, now);
    }

    /** A new entry for a key that has none. */
    method Track(key: Key)
      requires Valid() && key !in entries
      modifies this`entries, this`table, this`objects
      ensures Valid() && key in entries && fresh(objects - old(objects))
      ensures table == old(table)[key := Attempts([], ZERO_TIME)]
    {
      var e := new SignInAttempts(key);
      entries, table, objects := entries[key := e], table[key := Attempts([], ZERO_TIME)], objects + {e};
    }

    /** Records a failure in an entry that exists. */
    method Note(key: Key, now: int) returns (wait: int)
      requires Valid() && key in entries
      modifies this`table, objects
      ensures Valid() && key in old(table)
      ensures table == old(table)[key := Recorded(policy, old(table)[key], now)]
      ensures table[key].failures == Fresh(old(table)[key].failures, now - policy.window) + [now]
      ensures table[key].lockedUntil ==
              if |table[key].failures| >= policy.max then now + policy.lockout else old(table)[key].lockedUntil
      ensures wait == if |table[key].failures| >= policy.max then policy.lockout else 0
    {
      hide Recorded, Fresh;
      var e := entries[key];
      assert e.Value() == table[key];
      wait := e.Note(policy, now);
      table := table[key := e.Value()];
    }

    lemma SizesAgree()
      requires Valid()
      ensures |table| == |entries|
    {
      SameSize(table, entries);
    }

    lemma KeysAgree(key: Key)
      requires Valid()
      ensures key in table <==> key in entries
    {}

    method Reset(key: Key)
      requires Valid()
      modifies this`entries, this`table
      ensures Valid() && table == old(table) - {key}
    {
      entries, table := entries - {key}, table - {key};
    }

    method Hit(key: Key, now: int) returns (wait: int)
      requires Valid()
      modifies this, objects
      ensures Valid() && fresh(objects - old(objects))
      ensures FailResult(table, wait, HasRoom(policy, old(table), key, now)) == FailStep(policy, old(table), key, now)
    {
      wait := Fail(key, now);
    }
  }

  lemma SameSize<T>(a: map<Key, T>, b: map<Key, SignInAttempts>)
    requires forall key :: key in a <==> key in b
    ensures |a| == |b|
  {
    assert a.Keys == b.Keys;
    assert |a.Keys| == |b.Keys|;
  }

  lemma StaleIs(a: Attempts, now: int, window: int)
    ensures Stale(a, now, window) <==>
            a.lockedUntil < now &&
            (|a.failures| == 0 || a.failures[|a.failures| - 1] + window < now)
  {}

  lemma SweptIs(table: Table, now: int, window: int)
    ensures forall k :: k in Swept(table, now, window) <==> k in table && !Stale(table[k], now, window)
    ensures forall k :: k in Swept(table, now, window) <==>
              k in table &&
              (var a := table[k];
               a.lockedUntil >= now || (a.failures != [] && a.failures[|a.failures| - 1] + window >= now))
    ensures forall k :: k in Swept(table, now, window) ==> Swept(table, now, window)[k] == table[k]
  {}
}
