/**
 The guards in front of sign-in, passkey and password-reset requests, and what they guarantee when many
 requests are between their check and their record at the same time.
 */
module SignInGuard {
  import opened BruteLimiter
  import opened Common
  import IdealLimiter

  const MINUTE: int := 60 * 1000 * 1000 * 1000
  const IDENTIFIER_MAX_FAILURES: int := 5
  const IP_MAX_FAILURES: int := 10
  const FAILURE_WINDOW: int := 15 * MINUTE
  const LOCKOUT: int := 15 * MINUTE

  const REQUEST_LIMIT_MAX: int := IP_MAX_FAILURES
  const REQUEST_LIMIT_WINDOW: int := FAILURE_WINDOW
  const REQUEST_LIMIT_LOCKOUT: int := LOCKOUT

  const IP_POLICY: Policy := Policy(IP_MAX_FAILURES, FAILURE_WINDOW, LOCKOUT)
  const ID_POLICY: Policy := Policy(IDENTIFIER_MAX_FAILURES, FAILURE_WINDOW, LOCKOUT)
  const REQUEST_POLICY: Policy := Policy(REQUEST_LIMIT_MAX, REQUEST_LIMIT_WINDOW, REQUEST_LIMIT_LOCKOUT)

  // ---------------------------------------------------------------- the guard

  /** What the user lookup and the password check say during one sign-in. */
  datatype Verdict = LookupFailed | NoSuchUser | VerifyFailed | WrongPassword | Correct

  class Guard {
    const ip: Limiter
    const id: Limiter

    ghost predicate Valid()
      reads ip, id, ip.objects, id.objects
    {
      && ip != id && ip.objects !! id.objects
      && ip.Valid() && id.Valid()
      && ip.policy == IP_POLICY && id.policy == ID_POLICY
    }

    constructor ()
      ensures Valid() && ip.table == map[] && id.table == map[]
      ensures fresh(ip) && fresh(id)
      ensures ip.policy == Policy(10, 900_000_000_000, 900_000_000_000)
      ensures id.policy == Policy(5, 900_000_000_000, 900_000_000_000)
    {
      ip := new Limiter(IP_POLICY);
      id := new Limiter(ID_POLICY);
    }

    /** The wait of the first limiter that blocks, 0 if none does. */
    method Check(ipKey: Key, idKey: Key, ipNow: int, idNow: int) returns (wait: int)
      requires Valid()
      ensures var first := Wait(ip.table, ipKey, ipNow);
              wait == if first > 0 then first else Wait(id.table, idKey, idNow)
    {
      wait := ip.Blocked(ipKey, ipNow);
      if wait > 0 { return; }
      wait := id.Blocked(idKey, idNow);
    }

    method RecordFailure(ipKey: Key, idKey: Key, ipNow: int, idNow: int)
      requires Valid()
      modifies ip, id, ip.objects, id.objects
      ensures Valid()
      ensures fresh(ip.objects - old(ip.objects)) && fresh(id.objects - old(id.objects))
      ensures ip.table == FailStep(IP_POLICY, old(ip.table), ipKey, ipNow).table
      ensures id.table == FailStep(ID_POLICY, old(id.table), idKey, idNow).table
    {
      hide FailStep, Swept, Fresh;
      var _ := ip.Fail(ipKey, ipNow);
      var _ := id.Fail(idKey, idNow);
    }

    method Clear(ipKey: Key, idKey: Key)
      requires Valid()
      modifies ip, id
      ensures Valid() && ip.objects == old(ip.objects) && id.objects == old(id.objects)
      ensures ip.table == old(ip.table) - {ipKey} && id.table == old(id.table) - {idKey}
    {
      ip.Reset(ipKey);
      id.Reset(idKey);
    }

    /**
     signInWithPassword, at four clock readings. A request with a missing field, a blocked one and one whose
     lookup or verification broke down leave the limiters as they are; a wrong password and an unknown user
     count against both keys alike; a correct one clears both, whether or not its session can be created.
     */
    method SignInWithPassword(missing: bool, ipKey: Key, idKey: Key, verdict: Verdict, session: bool,
                              ipCheck: int, idCheck: int, ipFail: int, idFail: int)
      returns (status: int)
      requires Valid()
      modifies ip, id, ip.objects, id.objects
      ensures Valid()
      ensures var blocked := Wait(old(ip.table), ipKey, ipCheck) > 0 || Wait(old(id.table), idKey, idCheck) > 0;
              status == if missing then 400
                        else if blocked then 429
                        else match verdict
                          case LookupFailed => 500 case VerifyFailed => 500
                          case NoSuchUser => 401 case WrongPassword => 401
                          case Correct => if session then 200 else 500
      ensures var cleared := !missing && status != 429 && verdict.Correct?;
              && ip.table == (if status == 401 then FailStep(IP_POLICY, old(ip.table), ipKey, ipFail).table
                              else if cleared then old(ip.table) - {ipKey} else old(ip.table))
              && id.table == (if status == 401 then FailStep(ID_POLICY, old(id.table), idKey, idFail).table
                              else if cleared then old(id.table) - {idKey} else old(id.table))
    {
      hide FailStep, Swept, Fresh, Wait;
      if missing { return 400; }
      var wait := Check(ipKey, idKey, ipCheck, idCheck);
      WaitNonNegative(ip.table, ipKey, ipCheck);
      if wait > 0 { return 429; }
      if verdict.LookupFailed? { return 500; }
      if verdict.NoSuchUser? {
        RecordFailure(ipKey, idKey, ipFail, idFail);
        return 401;
      }
      if verdict.VerifyFailed? { return 500; }
      if verdict.WrongPassword? {
        RecordFailure(ipKey, idKey, ipFail, idFail);
        return 401;
      }
      Clear(ipKey, idKey);
      return if session then 200 else 500;
    }
  }

  lemma WaitNonNegative(table: Table, key: Key, now: int)
    ensures Wait(table, key, now) >= 0
  {}

  /** requestGuard.limit: a request that is not blocked is counted as a hit. */
  method Limit(l: Limiter, ipKey: Key, checkNow: int, hitNow: int) returns (wait: int)
    requires l.Valid()
    modifies l, l.objects
    ensures l.Valid()
    ensures wait == Wait(old(l.table), ipKey, checkNow)
    ensures l.table == if wait > 0 then old(l.table) else FailStep(l.policy, old(l.table), ipKey, hitNow).table
  {
    hide FailStep, Swept, Fresh;
    wait := l.Blocked(ipKey, checkNow);
    if wait > 0 { return; }
    WaitNonNegative(l.table, ipKey, checkNow);
    var _ := l.Hit(ipKey, hitNow);
  }

  // ---------------------------------------------------------------- concurrent requests

  /**
   What happens on one limiter. A request is in flight from its admitted check to its record, to the clear
   after a success, or to its abandonment; a check may also be refused for another reason, such as the other
   limiter of the guard.
   */
  datatype Event =
    | Check(key: Key, now: int, admitted: bool)
    | Record(key: Key, now: int)
    | Clear(key: Key)
    | Abandon(key: Key)

  /** A limiter with the number of requests in flight for the key under study. */
  datatype Sys = Sys(table: Table, flying: int)

  /** An event that can happen, with at most c requests in flight for the key. */
  predicate Possible(p: Policy, c: int, key: Key, s: Sys, e: Event) {
    match e
    case Check(k, now, admitted) => admitted ==> Wait(s.table, k, now) == 0 && (k == key ==> s.flying < c)
    case Record(k, _) => k == key ==> s.flying > 0
    case Clear(k) => k == key ==> s.flying > 0
    case Abandon(k) => k == key ==> s.flying > 0
  }

  function Next(p: Policy, key: Key, s: Sys, e: Event): Sys {
    var mine := if e.key == key then 1 else 0;
    match e
    case Check(_, _, admitted) => s.(flying := s.flying + if admitted then mine else 0)
    case Record(k, now) => Sys(FailStep(p, s.table, k, now).table, s.flying - mine)
    case Clear(k) => Sys(s.table - {k}, s.flying - mine)
    case Abandon(_) => s.(flying := s.flying - mine)
  }

  function ClockAfter(e: Event, clock: int): int {
    if e.Check? || e.Record? then e.now else clock
  }

  /** A schedule that can happen from a state, at clock readings that never decrease. */
  predicate IsRun(p: Policy, c: int, key: Key, s: Sys, es: seq<Event>, clock: int)
    decreases |es|
  {
    es != [] ==>
      && Possible(p, c, key, s, es[0])
      && clock <= ClockAfter(es[0], clock)
      && IsRun(p, c, key, Next(p, key, s, es[0]), es[1..], ClockAfter(es[0], clock))
  }

  /** No success clears the key between times a and b. */
  predicate NoClear(key: Key, es: seq<Event>, a: int, b: int, clock: int)
    decreases |es|
  {
    es != [] ==>
      && (es[0] == Clear(key) ==> clock < a || clock > b)
      && NoClear(key, es[1..], a, b, ClockAfter(es[0], clock))
  }

  predicate Counts(p: Policy, key: Key, s: Sys, e: Event, a: int, b: int) {
    e.Record? && e.key == key && a <= e.now <= b && FailStep(p, s.table, key, e.now).recorded
  }

  /** The number of failures recorded for the key at times from a to b. */
  function RecordedBetween(p: Policy, key: Key, s: Sys, es: seq<Event>, a: int, b: int): nat
    decreases |es|
  {
    if es == [] then 0
    else (if Counts(p, key, s, es[0], a, b) then 1 else 0)
         + RecordedBetween(p, key, Next(p, key, s, es[0]), es[1..], a, b)
  }

  // ---------------------------------------------------------------- the invariant

  /** The last r failures of the entry are no earlier than a. */
  predicate RecentTail(f: seq<int>, r: int, a: int) {
    r <= |f| && forall i :: 0 <= i < |f| && i >= |f| - r ==> f[i] >= a
  }

  /** r failures have been counted so far. */
  predicate Tally(p: Policy, c: int, key: Key, s: Sys, r: int, a: int, b: int) {
    && 0 <= r && 0 <= s.flying <= c
    && (r >= 1 ==> key in s.table && RecentTail(s.table[key].failures, r, a))
    && (r >= 1 && r >= p.max ==> s.table[key].lockedUntil > b && r + s.flying <= p.max + c - 1)
  }

  lemma {:induction false} FreshKeepsTail(f: seq<int>, r: nat, a: int, cutoff: int)
    requires RecentTail(f, r, a) && cutoff < a
    ensures RecentTail(Fresh(f, cutoff), r, a)
  {
    if r > 0 {
      var n := |f| - 1;
      assert f[n] >= a;
      assert f[..n] + [f[n]] == f;
      FreshKeepsTail(f[..n], r - 1, a, cutoff);
    }
  }

  /** An entry with a failure since a survives every sweep up to b. */
  lemma SweepKeeps(p: Policy, table: Table, key: Key, r: int, a: int, now: int)
    requires r >= 1 && key in table && RecentTail(table[key].failures, r, a)
    requires now < a + p.window
    ensures key in Room(p, table, now) && Room(p, table, now)[key] == table[key]
  {
    var f := table[key].failures;
    assert f[|f| - 1] >= a;
  }

  /** A failure for another key leaves this entry alone. */
  lemma OtherFails(p: Policy, table: Table, key: Key, other: Key, r: int, a: int, now: int)
    requires r >= 1 && key in table && RecentTail(table[key].failures, r, a)
    requires now < a + p.window && other != key
    ensures var t := FailStep(p, table, other, now).table; key in t && t[key] == table[key]
  {
    hide Recorded, Room;
    SweepKeeps(p, table, key, r, a, now);
  }

  /** A recorded failure lengthens the tail; with max of them the key is locked beyond b. */
  lemma OwnFails(p: Policy, table: Table, key: Key, r: int, a: int, b: int, now: int)
    requires 0 <= r && (r >= 1 ==> key in table && RecentTail(table[key].failures, r, a))
    requires a <= now <= b < a + p.window <= a + p.lockout
    ensures var f := FailStep(p, table, key, now);
            && (f.recorded ==> key in f.table && RecentTail(f.table[key].failures, r + 1, a))
            && (f.recorded && r + 1 >= p.max ==> f.table[key].lockedUntil > b)
            && (r >= 1 ==> f.recorded)
  {
    hide Fresh, Room;
    var f := FailStep(p, table, key, now);
    if f.recorded {
      if r >= 1 {
        SweepKeeps(p, table, key, r, a, now);
        FreshKeepsTail(table[key].failures, r, a, now - p.window);
      }
    } else if r >= 1 {
      SweepKeeps(p, table, key, r, a, now);
    }
  }

  predicate NothingCountedYet(r: int, clock: int, a: int) {
    clock < a ==> r == 0
  }

  lemma TallyStep(p: Policy, c: int, key: Key, s: Sys, e: Event, r: int, a: int, b: int, clock: int)
    requires a <= b < a + p.window <= a + p.lockout && p.max >= 1
    requires Tally(p, c, key, s, r, a, b) && NothingCountedYet(r, clock, a)
    requires Possible(p, c, key, s, e) && clock <= ClockAfter(e, clock) <= b
    requires e == Clear(key) ==> clock < a
    ensures var r' := if Counts(p, key, s, e, a, b) then r + 1 else r;
            Tally(p, c, key, Next(p, key, s, e), r', a, b) && NothingCountedYet(r', ClockAfter(e, clock), a)
  {
    hide FailStep, Fresh, RecentTail;
    if e.Record? {
      if e.key == key {
        if e.now >= a {
          OwnFails(p, s.table, key, r, a, b, e.now);
        }
      } else if r >= 1 {
        OtherFails(p, s.table, key, e.key, r, a, e.now);
      }
    }
  }

  lemma {:induction false} NoneAfterwards(p: Policy, c: int, key: Key, s: Sys, es: seq<Event>, a: int, b: int,
                                          clock: int)
    requires IsRun(p, c, key, s, es, clock) && clock > b
    ensures RecordedBetween(p, key, s, es, a, b) == 0
    decreases |es|
  {
    hide FailStep, Possible, Next;
    if es != [] {
      NoneAfterwards(p, c, key, Next(p, key, s, es[0]), es[1..], a, b, ClockAfter(es[0], clock));
    }
  }

  lemma {:induction false} TallyRun(p: Policy, c: int, key: Key, s: Sys, es: seq<Event>, r: int, a: int, b: int,
                                    clock: int)
    requires a <= b < a + p.window <= a + p.lockout && p.max >= 1 && c >= 1
    requires Tally(p, c, key, s, r, a, b) && NothingCountedYet(r, clock, a) && clock <= b
    requires IsRun(p, c, key, s, es, clock) && NoClear(key, es, a, b, clock)
    ensures r + RecordedBetween(p, key, s, es, a, b) <= p.max + c - 1
    decreases |es|
  {
    hide FailStep, Possible, Next, Counts, RecentTail;
    if es != [] {
      var e, s', clock' := es[0], Next(p, key, s, es[0]), ClockAfter(es[0], clock);
      if clock' > b {
        LateNotCounted(p, key, s, e, a, b, clock);
        NoneAfterwards(p, c, key, s', es[1..], a, b, clock');
      } else {
        TallyStep(p, c, key, s, e, r, a, b, clock);
        TallyRun(p, c, key, s', es[1..], if Counts(p, key, s, e, a, b) then r + 1 else r, a, b, clock');
      }
    }
  }

  lemma LateNotCounted(p: Policy, key: Key, s: Sys, e: Event, a: int, b: int, clock: int)
    requires ClockAfter(e, clock) > b
    ensures !Counts(p, key, s, e, a, b)
  {}

  /**
   With checks and records as separate steps of any number of requests, at most c of them in flight for a
   key and no success in between: an interval shorter than the window holds at most max + c - 1 recorded
   failures of the key, whatever happens to other keys and whatever was recorded before.
   */
  lemma InFlightBound(p: Policy, c: int, key: Key, s: Sys, es: seq<Event>, a: int, b: int, clock: int)
    requires p.max >= 1 && p.window <= p.lockout
    requires c >= 1 && 0 <= s.flying <= c
    requires a <= b && b - a < p.window && clock <= b
    requires IsRun(p, c, key, s, es, clock) && NoClear(key, es, a, b, clock)
    ensures RecordedBetween(p, key, s, es, a, b) <= p.max + c - 1
  {
    hide IsRun, NoClear, RecordedBetween;
    TallyRun(p, c, key, s, es, 0, a, b, clock);
  }

  /** The sign-in limiters: fifteen minutes, in nanoseconds, five failures for an identifier and ten for an address. */
  lemma SignInBound(c: int, key: Key, s: Sys, es: seq<Event>, a: int, b: int, clock: int)
    requires c >= 1 && 0 <= s.flying <= c
    requires a <= b && b - a < 900_000_000_000 && clock <= b
    ensures IsRun(ID_POLICY, c, key, s, es, clock) && NoClear(key, es, a, b, clock) ==>
              RecordedBetween(ID_POLICY, key, s, es, a, b) <= 5 + c - 1
    ensures IsRun(IP_POLICY, c, key, s, es, clock) && NoClear(key, es, a, b, clock) ==>
              RecordedBetween(IP_POLICY, key, s, es, a, b) <= 10 + c - 1
  {
    hide IsRun, NoClear, RecordedBetween;
    if IsRun(ID_POLICY, c, key, s, es, clock) && NoClear(key, es, a, b, clock) {
      InFlightBound(ID_POLICY, c, key, s, es, a, b, clock);
    }
    if IsRun(IP_POLICY, c, key, s, es, clock) && NoClear(key, es, a, b, clock) {
      InFlightBound(IP_POLICY, c, key, s, es, a, b, clock);
    }
  }

  /**
   Requests of one key that are limited one after the other, which is at most one in flight: any half-open
   interval as long as the window counts at most the maximum. Nothing ever clears a request limiter.
   */
  lemma RequestBound(key: Key, s: Sys, es: seq<Event>, start: int, clock: int)
    requires 0 <= s.flying <= 1 && clock < start + REQUEST_LIMIT_WINDOW
    requires IsRun(REQUEST_POLICY, 1, key, s, es, clock)
    requires forall i :: 0 <= i < |es| ==> !es[i].Clear?
    ensures REQUEST_POLICY == Policy(10, 900_000_000_000, 900_000_000_000)
    ensures RecordedBetween(REQUEST_POLICY, key, s, es, start, start + 900_000_000_000 - 1) <= 10
  {
    hide IsRun, RecordedBetween;
    NeverCleared(key, es, start, start + REQUEST_LIMIT_WINDOW - 1, clock);
    InFlightBound(REQUEST_POLICY, 1, key, s, es, start, start + REQUEST_LIMIT_WINDOW - 1, clock);
  }

  // ---------------------------------------------------------------- admitted requests

  /** The number of requests of the key that are admitted at times from a to b. */
  function AdmittedBetween(key: Key, es: seq<Event>, a: int, b: int): nat
    decreases |es|
  {
    if es == [] then 0
    else (if Admits(key, es[0], a, b) then 1 else 0) + AdmittedBetween(key, es[1..], a, b)
  }

  predicate Admits(key: Key, e: Event, a: int, b: int) {
    e.Check? && e.key == key && e.admitted && a <= e.now <= b
  }

  /** Whenever the key is recorded from a to b, the table has it, or has room for it. */
  predicate Tracked(p: Policy, key: Key, s: Sys, es: seq<Event>, a: int, b: int)
    decreases |es|
  {
    es != [] ==>
      && (es[0].Record? && es[0].key == key && a <= es[0].now <= b ==> CanTrack(s.table, key))
      && Tracked(p, key, Next(p, key, s, es[0]), es[1..], a, b)
  }

  predicate CanTrack(table: Table, key: Key) {
    key in table || |table| < MAX_ENTRIES
  }

  /** Then it is recorded: a full table is swept first, and if that takes the key it makes room. */
  lemma TrackedIsRecorded(p: Policy, table: Table, key: Key, now: int)
    requires CanTrack(table, key) && |table| <= MAX_ENTRIES
    ensures FailStep(p, table, key, now).recorded
  {
    hide Stale, Recorded;
    if |table| >= MAX_ENTRIES {
      var swept := Swept(table, now, p.window);
      if key !in swept {
        SubsetSize(swept.Keys, table.Keys - {key});
      }
    }
  }

  lemma StaysBounded(p: Policy, key: Key, s: Sys, e: Event)
    requires |s.table| <= MAX_ENTRIES
    ensures |Next(p, key, s, e).table| <= MAX_ENTRIES
  {
    hide FailStep;
    if e.Record? {
      IdealLimiter.StepBounded(p, s.table, IdealLimiter.Fail(e.key, e.now));
    } else if e.Clear? {
      SubsetSize((s.table - {e.key}).Keys, s.table.Keys);
    }
  }

  /** Besides the tally: each of the n requests admitted so far has been recorded or is in flight. */
  predicate AdmittedTally(p: Policy, c: int, s: Sys, r: int, n: int, a: int, clock: int) {
    n <= r + s.flying && n <= p.max + c - 1 && (clock < a ==> n == 0) && |s.table| <= MAX_ENTRIES
  }

  lemma AdmittedStep(p: Policy, c: int, key: Key, s: Sys, e: Event, r: int, n: int, a: int, b: int, clock: int)
    requires a <= b < a + p.window <= a + p.lockout && p.max >= 1
    requires Tally(p, c, key, s, r, a, b) && AdmittedTally(p, c, s, r, n, a, clock)
    requires Possible(p, c, key, s, e) && clock <= ClockAfter(e, clock) <= b
    requires e != Clear(key) || clock < a
    requires e != Abandon(key)
    requires e.Record? && e.key == key && a <= e.now <= b ==> CanTrack(s.table, key)
    ensures var r' := if Counts(p, key, s, e, a, b) then r + 1 else r;
            var n' := if Admits(key, e, a, b) then n + 1 else n;
            AdmittedTally(p, c, Next(p, key, s, e), r', n', a, ClockAfter(e, clock))
  {
    hide FailStep, RecentTail;
    StaysBounded(p, key, s, e);
    if e.Record? && e.key == key && a <= e.now {
      TrackedIsRecorded(p, s.table, key, e.now);
    }
  }

  lemma {:induction false} NoneAdmittedAfterwards(p: Policy, c: int, key: Key, s: Sys, es: seq<Event>, a: int, b: int,
                                                  clock: int)
    requires IsRun(p, c, key, s, es, clock) && clock > b
    ensures AdmittedBetween(key, es, a, b) == 0
    decreases |es|
  {
    hide FailStep, Possible, Next;
    if es != [] {
      NoneAdmittedAfterwards(p, c, key, Next(p, key, s, es[0]), es[1..], a, b, ClockAfter(es[0], clock));
    }
  }

  lemma {:induction false} AdmittedRun(p: Policy, c: int, key: Key, s: Sys, es: seq<Event>, r: int, n: int,
                                       a: int, b: int, clock: int)
    requires a <= b < a + p.window <= a + p.lockout && p.max >= 1 && c >= 1
    requires Tally(p, c, key, s, r, a, b) && NothingCountedYet(r, clock, a) && clock <= b
    requires AdmittedTally(p, c, s, r, n, a, clock)
    requires IsRun(p, c, key, s, es, clock) && NoClear(key, es, a, b, clock) && Tracked(p, key, s, es, a, b)
    requires forall i :: 0 <= i < |es| ==> es[i] != Abandon(key)
    ensures n + AdmittedBetween(key, es, a, b) <= p.max + c - 1
    decreases |es|
  {
    hide FailStep, Possible, Next, Counts, RecentTail, CanTrack;
    if es != [] {
      var e, s', clock' := es[0], Next(p, key, s, es[0]), ClockAfter(es[0], clock);
      if clock' > b {
        NoneAdmittedAfterwards(p, c, key, s', es[1..], a, b, clock');
      } else {
        var r' := if Counts(p, key, s, e, a, b) then r + 1 else r;
        var n' := if Admits(key, e, a, b) then n + 1 else n;
        TallyStep(p, c, key, s, e, r, a, b, clock);
        AdmittedStep(p, c, key, s, e, r, n, a, b, clock);
        AdmittedRun(p, c, key, s', es[1..], r', n', a, b, clock');
      }
    }
  }

  /**
   Requests of one tracked key that are limited one after the other: any half-open interval as long as the
   window admits at most the maximum of them. Every admitted request is recorded in the end.
   */
  lemma AdmittedBound(key: Key, s: Sys, es: seq<Event>, start: int, clock: int)
    requires 0 <= s.flying <= 1 && clock < start + REQUEST_LIMIT_WINDOW && |s.table| <= MAX_ENTRIES
    requires IsRun(REQUEST_POLICY, 1, key, s, es, clock)
    requires forall i :: 0 <= i < |es| ==> !es[i].Clear? && es[i] != Abandon(key)
    requires Tracked(REQUEST_POLICY, key, s, es, start, start + REQUEST_LIMIT_WINDOW - 1)
    ensures AdmittedBetween(key, es, start, start + 900_000_000_000 - 1) <= 10
  {
    hide IsRun, AdmittedBetween, Tracked;
    NeverCleared(key, es, start, start + REQUEST_LIMIT_WINDOW - 1, clock);
    AdmittedRun(REQUEST_POLICY, 1, key, s, es, 0, 0, start, start + REQUEST_LIMIT_WINDOW - 1, clock);
  }

  lemma {:induction false} NeverCleared(key: Key, es: seq<Event>, a: int, b: int, clock: int)
    requires forall i :: 0 <= i < |es| ==> !es[i].Clear?
    ensures NoClear(key, es, a, b, clock)
    decreases |es|
  {
    if es != [] {
      NeverCleared(key, es[1..], a, b, ClockAfter(es[0], clock));
    }
  }

  // ---------------------------------------------------------------- the bound is reached

  function Repeat<T>(x: T, n: nat): seq<T> {
    if n == 0 then [] else [x] + Repeat(x, n - 1)
  }

  /** The limiter after n failures of one key at time t, with some requests in flight. */
  function After(p: Policy, key: Key, t: int, n: nat, flying: int): Sys {
    Sys(if n == 0 then map[] else map[key := Attempts(seq(n, _ => t), if n >= p.max then t + p.lockout else ZERO_TIME)],
        flying)
  }

  lemma {:induction false} AllFresh(n: nat, t: int, cutoff: int)
    requires cutoff < t
    ensures Fresh(seq(n, _ => t), cutoff) == seq(n, _ => t)
  {
    if n > 0 {
      AllFresh(n - 1, t, cutoff);
      assert seq(n, _ => t)[..n - 1] == seq(n - 1, _ => t);
      assert seq(n - 1, _ => t) + [t] == seq(n, _ => t);
    }
  }

  lemma RecordAt(p: Policy, key: Key, t: Clock, n: nat, flying: int)
    requires p.window > 0 && p.max >= 1
    ensures Next(p, key, After(p, key, t, n, flying), Record(key, t)) == After(p, key, t, n + 1, flying - 1)
    ensures FailStep(p, After(p, key, t, n, flying).table, key, t).recorded
  {
    hide Fresh;
    var s := After(p, key, t, n, flying);
    AllFresh(n, t, t - p.window);
    FreshEmpty(t - p.window);
    assert seq(n, _ => t) + [t] == seq(n + 1, _ => t);
    assert |s.table| <= 1 by {
      assert s.table.Keys <= {key};
      assert |s.table.Keys| == |s.table|;
      if n > 0 { assert s.table.Keys == {key}; }
    }
    assert Room(p, s.table, t) == s.table;
  }

  lemma {:induction false} RecordAll(p: Policy, c: int, key: Key, t: Clock, n: nat, m: nat)
    requires p.window > 0 && p.max >= 1
    ensures var s, es := After(p, key, t, n, m), Repeat(Record(key, t), m);
            && IsRun(p, c, key, s, es, t) && NoClear(key, es, t, t, t)
            && RecordedBetween(p, key, s, es, t, t) == m
    decreases m
  {
    hide After, FailStep;
    if m > 0 {
      RecordAt(p, key, t, n, m);
      AfterFlying(p, key, t, n, m);
      RecordAll(p, c, key, t, n + 1, m - 1);
    }
  }

  lemma AfterFlying(p: Policy, key: Key, t: int, n: nat, m: int)
    ensures After(p, key, t, n, m).flying == m
    ensures n < p.max && t > ZERO_TIME ==> Wait(After(p, key, t, n, m).table, key, t) == 0
    ensures Next(p, key, After(p, key, t, n, m), Check(key, t, true)) == After(p, key, t, n, m + 1)
  {}

  /** With one failure short of the maximum, c requests pass their checks and then all record. */
  lemma {:induction false} CheckThenRecordAll(p: Policy, c: nat, key: Key, t: Clock, m: nat)
    requires p.window > 0 && p.max >= 1 && m <= c
    ensures var s, es := After(p, key, t, p.max - 1, c - m), Repeat(Check(key, t, true), m) + Repeat(Record(key, t), c);
            && IsRun(p, c, key, s, es, t) && NoClear(key, es, t, t, t)
            && RecordedBetween(p, key, s, es, t, t) == c
    decreases m
  {
    hide After, FailStep;
    if m == 0 {
      RecordAll(p, c, key, t, p.max - 1, c);
      assert [] + Repeat(Record(key, t), c) == Repeat(Record(key, t), c);
    } else {
      AfterFlying(p, key, t, p.max - 1, c - m);
      CheckThenRecordAll(p, c, key, t, m - 1);
      var rest := Repeat(Check(key, t, true), m - 1) + Repeat(Record(key, t), c);
      assert Repeat(Check(key, t, true), m) + Repeat(Record(key, t), c) == [Check(key, t, true)] + rest;
    }
  }

  lemma {:induction false} WarmUp(p: Policy, c: nat, key: Key, t: Clock, k: nat) returns (es: seq<Event>)
    requires p.window > 0 && c >= 1 && k < p.max
    ensures var s := After(p, key, t, p.max - 1 - k, 0);
            && IsRun(p, c, key, s, es, t) && NoClear(key, es, t, t, t)
            && RecordedBetween(p, key, s, es, t, t) == k + c
    decreases k
  {
    hide After, FailStep;
    if k == 0 {
      CheckThenRecordAll(p, c, key, t, c);
      es := Repeat(Check(key, t, true), c) + Repeat(Record(key, t), c);
    } else {
      var n := p.max - 1 - k;
      var rest := WarmUp(p, c, key, t, k - 1);
      AfterFlying(p, key, t, n, 0);
      AfterFlying(p, key, t, n, 1);
      RecordAt(p, key, t, n, 1);
      var more := [Record(key, t)] + rest;
      es := [Check(key, t, true)] + more;
      assert more[1..] == rest && es[1..] == more;
    }
  }

  /** The bound cannot be improved: for every c some run from an empty limiter records max + c - 1 failures at once. */
  lemma InFlightBoundReached(p: Policy, c: nat, key: Key, t: Clock) returns (es: seq<Event>)
    requires p.window > 0 && p.max >= 1 && c >= 1
    ensures IsRun(p, c, key, Sys(map[], 0), es, t) && NoClear(key, es, t, t, t)
    ensures RecordedBetween(p, key, Sys(map[], 0), es, t, t) == p.max + c - 1
  {
    es := WarmUp(p, c, key, t, p.max - 1);
    assert After(p, key, t, 0, 0) == Sys(map[], 0);
  }
}
