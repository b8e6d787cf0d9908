/**
 The limiter without its economies: every key's whole history of recorded failures since its last reset,
 never pruned, never swept. The bounded limiter is shown to answer exactly as this one does.
 */
module IdealLimiter {
  import opened BruteLimiter
  import opened Common

  /** The recorded failures of each key, oldest first. A key that is absent has none. */
  type History = map<Key, seq<int>>

  function Of(h: History, key: Key): seq<int> {
    if key in h then h[key] else []
  }

  /** Whether the last failure of a history is the one too many within its window. */
  predicate Trips(p: Policy, hist: seq<int>) {
    hist != [] &&
    var n := |hist| - 1;
    |Fresh(hist[..n], hist[n] - p.window)| + 1 >= p.max
  }

  /** The end of the lockout that the most recent tripping failure caused; the zero time if none did. */
  function LockEnd(p: Policy, hist: seq<int>): int {
    if hist == [] then ZERO_TIME
    else
      var n := |hist| - 1;
      if Trips(p, hist) then hist[n] + p.lockout else LockEnd(p, hist[..n])
  }

  function IdealWait(p: Policy, h: History, key: Key, now: int): int {
    var end := LockEnd(p, Of(h, key));
    if end - now > 0 then end - now else 0
  }

  // ---------------------------------------------------------------- runs

  datatype Event = Blocked(key: Key, now: int) | Fail(key: Key, now: int) | Reset(key: Key)

  /** The clock after an event: a reset reads none. */
  function ClockAfter(e: Event, clock: int): int {
    if e.Reset? then clock else e.now
  }

  /** Clock readings never decrease along the run. */
  predicate Timely(es: seq<Event>, clock: int) {
    es != [] ==>
      && clock <= ClockAfter(es[0], clock)
      && Timely(es[1..], ClockAfter(es[0], clock))
  }

  datatype Outcome = Outcome(wait: int, recorded: bool)

  /** One call on the bounded limiter. */
  function Step(p: Policy, table: Table, e: Event): (Table, Outcome) {
    match e
    case Blocked(key, now) => (table, Outcome(Wait(table, key, now), true))
    case Fail(key, now) =>
      var r := FailStep(p, table, key, now);
      (r.table, Outcome(r.wait, r.recorded))
    case Reset(key) => (table - {key}, Outcome(0, true))
  }

  /** The same call on the ideal limiter. A failure for which the table had no room is not recorded. */
  function IdealStep(p: Policy, h: History, e: Event, recorded: bool): (History, int) {
    match e
    case Blocked(key, now) => (h, IdealWait(p, h, key, now))
    case Fail(key, now) =>
      if !recorded then (h, 0)
      else
        var hist := Of(h, key) + [now];
        (h[key := hist], if Trips(p, hist) then p.lockout else 0)
    case Reset(key) => (h[key := []], 0)
  }

  function Outcomes(p: Policy, table: Table, es: seq<Event>): seq<Outcome>
    decreases |es|
  {
    if es == [] then []
    else
      var (table', o) := Step(p, table, es[0]);
      [o] + Outcomes(p, table', es[1..])
  }

  function IdealWaits(p: Policy, h: History, es: seq<Event>, recorded: seq<bool>): seq<int>
    requires |recorded| == |es|
    decreases |es|
  {
    if es == [] then []
    else
      var (h', wait) := IdealStep(p, h, es[0], recorded[0]);
      [wait] + IdealWaits(p, h', es[1..], recorded[1..])
  }

  function Waits(os: seq<Outcome>): (ws: seq<int>)
    ensures |ws| == |os|
  {
    if os == [] then [] else [os[0].wait] + Waits(os[1..])
  }

  function Flags(os: seq<Outcome>): (fs: seq<bool>)
    ensures |fs| == |os|
  {
    if os == [] then [] else [os[0].recorded] + Flags(os[1..])
  }

  // ---------------------------------------------------------------- facts about histories

  predicate NoneAfter(s: seq<int>, now: int) {
    s != [] ==> s[|s| - 1] <= now
  }

  /** Dropping what is out of a window and then what is out of a later one is dropping the latter at once. */
  lemma {:induction false} FreshFresh(s: seq<int>, early: int, late: int)
    requires early <= late
    ensures Fresh(Fresh(s, early), late) == Fresh(s, late)
  {
    if s != [] {
      var n := |s| - 1;
      FreshFresh(s[..n], early, late);
      if s[n] > early {
        FreshAppend(Fresh(s[..n], early), s[n], late);
      }
    }
  }

  lemma {:induction false} FreshNone(s: seq<int>, cutoff: int)
    requires Nondecreasing(s) && NoneAfter(s, cutoff)
    ensures Fresh(s, cutoff) == []
  {
    if s != [] {
      FreshNone(s[..|s| - 1], cutoff);
    }
  }

  lemma {:induction false} FreshIn(s: seq<int>, cutoff: int)
    requires Nondecreasing(s)
    ensures Nondecreasing(Fresh(s, cutoff))
    ensures Fresh(s, cutoff) != [] ==> Fresh(s, cutoff)[|Fresh(s, cutoff)| - 1] == s[|s| - 1]
  {
    if s != [] {
      var n := |s| - 1;
      FreshIn(s[..n], cutoff);
      if s[n] <= cutoff {
        FreshNone(s[..n], cutoff);
      }
    }
  }

  /** The indices of the failures later than a cutoff. */
  ghost function Later(s: seq<int>, cutoff: int): set<int> {
    set i | 0 <= i < |s| && s[i] > cutoff
  }

  /** Fresh counts what it should count. */
  lemma {:induction false} FreshCounts(s: seq<int>, cutoff: int)
    ensures |Fresh(s, cutoff)| == |Later(s, cutoff)|
  {
    if s != [] {
      var n := |s| - 1;
      FreshCounts(s[..n], cutoff);
      if s[n] > cutoff {
        assert Later(s, cutoff) == Later(s[..n], cutoff) + {n};
      } else {
        assert Later(s, cutoff) == Later(s[..n], cutoff);
      }
    }
  }

  /** Failure i was the max-th, or a later one, within the window that ended with it, and its lockout is not over. */
  ghost predicate LocksAt(p: Policy, hist: seq<int>, i: int, now: int)
    requires 0 <= i < |hist|
  {
    |Later(hist[..i], hist[i] - p.window)| + 1 >= p.max && hist[i] + p.lockout > now
  }

  lemma LocksAtPrefix(p: Policy, hist: seq<int>, n: nat, i: nat, now: int)
    requires i < n <= |hist|
    ensures LocksAt(p, hist[..n], i, now) <==> LocksAt(p, hist, i, now)
  {
    assert hist[..n][..i] == hist[..i];
  }

  /** What the ideal limiter's answer means: some failure of the history locks the key now. */
  lemma {:induction false} LockEndMeans(p: Policy, hist: seq<int>, now: Clock)
    requires Nondecreasing(hist)
    ensures LockEnd(p, hist) > now <==> exists i :: 0 <= i < |hist| && LocksAt(p, hist, i, now)
  {
    if hist != [] {
      hide LocksAt, Fresh, Later;
      var n := |hist| - 1;
      LockEndMeans(p, hist[..n], now);
      forall i | 0 <= i < n ensures LocksAt(p, hist[..n], i, now) <==> LocksAt(p, hist, i, now) {
        LocksAtPrefix(p, hist, n, i, now);
      }
      LocksAtLast(p, hist, now);
      if Trips(p, hist) && !(hist[n] + p.lockout > now) {
        forall i | 0 <= i < |hist| ensures !LocksAt(p, hist, i, now) {
          assert hist[i] <= hist[n];
          LocksAtTime(p, hist, i, now);
        }
      }
    }
  }

  lemma LocksAtLast(p: Policy, hist: seq<int>, now: int)
    requires hist != []
    ensures LocksAt(p, hist, |hist| - 1, now) <==> Trips(p, hist) && hist[|hist| - 1] + p.lockout > now
  {
    hide Fresh, Later;
    FreshCounts(hist[..|hist| - 1], hist[|hist| - 1] - p.window);
  }

  lemma LocksAtTime(p: Policy, hist: seq<int>, i: nat, now: int)
    requires i < |hist| && hist[i] + p.lockout <= now
    ensures !LocksAt(p, hist, i, now)
  {}

  // ---------------------------------------------------------------- the refinement relation

  /** Equal, or both so far in the past that neither can block again or keep an entry alive. */
  predicate SameLock(a: int, b: int, now: int) {
    a == b || (a < now && b < now)
  }

  predicate HistoryOk(hist: seq<int>, now: int) {
    Nondecreasing(hist) && NoneAfter(hist, now)
  }

  /** A kept entry agrees with the history of its key. */
  predicate EntryAgrees(p: Policy, a: Attempts, hist: seq<int>, now: int) {
    && Nondecreasing(a.failures)
    && a.failures != [] && hist != [] && a.failures[|a.failures| - 1] == hist[|hist| - 1]
    && Fresh(a.failures, now - p.window) == Fresh(hist, now - p.window)
    && SameLock(a.lockedUntil, LockEnd(p, hist), now)
  }

  /** The history of a key without an entry has no consequences any more. */
  predicate Spent(p: Policy, hist: seq<int>, now: int) {
    Fresh(hist, now - p.window) == [] && LockEnd(p, hist) < now
  }

  predicate KeyAgrees(p: Policy, table: Table, h: History, key: Key, now: int) {
    && HistoryOk(Of(h, key), now)
    && if key in table then EntryAgrees(p, table[key], Of(h, key), now) else Spent(p, Of(h, key), now)
  }

  ghost predicate Agrees(p: Policy, table: Table, h: History, now: int) {
    forall key :: KeyAgrees(p, table, h, key, now)
  }

  /** Agreement lasts as time passes. */
  lemma KeyAgreesLater(p: Policy, table: Table, h: History, key: Key, now: int, now': int)
    requires KeyAgrees(p, table, h, key, now) && now <= now'
    ensures KeyAgrees(p, table, h, key, now')
  {
    hide Fresh, LockEnd;
    var hist := Of(h, key);
    FreshFresh(hist, now - p.window, now' - p.window);
    if key in table {
      FreshFresh(table[key].failures, now - p.window, now' - p.window);
    } else {
      assert Fresh([], now' - p.window) == [] by { FreshEmpty(now' - p.window); }
    }
  }

  /** Sweeping an entry loses nothing. */
  lemma KeyAgreesSwept(p: Policy, table: Table, h: History, key: Key, now: int)
    requires KeyAgrees(p, table, h, key, now)
    ensures KeyAgrees(p, Swept(table, now, p.window), h, key, now)
  {
    hide Fresh, LockEnd;
    if key in table && Stale(table[key], now, p.window) {
      FreshNone(Of(h, key), now - p.window);
    }
  }

  /** A kept entry, or the fresh one that stands for a spent history. */
  predicate Represents(p: Policy, a: Attempts, hist: seq<int>, now: int) {
    EntryAgrees(p, a, hist, now) || (a == Attempts([], ZERO_TIME) && Spent(p, hist, now))
  }

  /** Both have the same failures within the window, in order. */
  lemma KeptIsFresh(p: Policy, a: Attempts, hist: seq<int>, now: Clock)
    requires HistoryOk(hist, now) && Represents(p, a, hist, now)
    ensures var kept := Fresh(a.failures, now - p.window);
            && kept == Fresh(hist, now - p.window)
            && Nondecreasing(kept + [now]) && Nondecreasing(hist + [now])
    ensures SameLock(a.lockedUntil, LockEnd(p, hist), now)
  {
    hide LockEnd, Fresh;
    FreshIn(hist, now - p.window);
    FreshEmpty(now - p.window);
    var kept := Fresh(a.failures, now - p.window);
    assert forall i :: 0 <= i < |kept| ==> kept[i] <= kept[|kept| - 1];
    assert forall i :: 0 <= i < |hist| ==> hist[i] <= hist[|hist| - 1];
  }

  lemma HistoryLast(p: Policy, hist: seq<int>, now: int)
    ensures Trips(p, hist + [now]) <==> |Fresh(hist, now - p.window)| + 1 >= p.max
    ensures LockEnd(p, hist + [now]) == if Trips(p, hist + [now]) then now + p.lockout else LockEnd(p, hist)
  {
    hide Fresh;
    assert (hist + [now])[..|hist|] == hist;
  }

  /** A recorded failure keeps the entry and the history in agreement, and both give the same verdict on it. */
  lemma RecordAgrees(p: Policy, a: Attempts, hist: seq<int>, now: Clock)
    requires HistoryOk(hist, now) && Represents(p, a, hist, now)
    ensures EntryAgrees(p, Recorded(p, a, now), hist + [now], now)
    ensures |Recorded(p, a, now).failures| >= p.max <==> Trips(p, hist + [now])
    ensures HistoryOk(hist + [now], now)
  {
    hide Fresh, LockEnd, Trips, Represents;
    var cutoff := now - p.window;
    var kept := Fresh(a.failures, cutoff);
    KeptIsFresh(p, a, hist, now);
    HistoryLast(p, hist, now);
    FreshAppend(hist, now, cutoff);
    FreshAppend(kept, now, cutoff);
    FreshFresh(a.failures, cutoff, cutoff);
  }

  /** One call: the same answer, and agreement afterwards. */
  lemma StepAgrees(p: Policy, table: Table, h: History, clock: Clock, e: Event)
    requires Agrees(p, table, h, clock) && clock <= ClockAfter(e, clock)
    ensures var (table', o) := Step(p, table, e);
            var (h', wait) := IdealStep(p, h, e, o.recorded);
            o.wait == wait && Agrees(p, table', h', ClockAfter(e, clock))
  {
    hide Fresh, LockEnd, Swept, Trips, KeyAgrees, Recorded;
    var now := ClockAfter(e, clock);
    forall key ensures KeyAgrees(p, table, h, key, now) {
      KeyAgreesLater(p, table, h, key, clock, now);
    }
    match e {
      case Blocked(key, _) => WaitAgrees(p, table, h, key, now);
      case Fail(key, _) => FailAgrees(p, table, h, key, now);
      case Reset(key) =>
        var (table', h') := (table - {key}, h[key := []]);
        forall k ensures KeyAgrees(p, table', h', k, now) {
          ResetAgrees(p, table, h, key, k, now);
        }
    }
  }

  lemma WaitAgrees(p: Policy, table: Table, h: History, key: Key, now: int)
    requires KeyAgrees(p, table, h, key, now)
    ensures Wait(table, key, now) == IdealWait(p, h, key, now)
  {
    hide Fresh, LockEnd;
  }

  lemma ResetAgrees(p: Policy, table: Table, h: History, key: Key, k: Key, now: Clock)
    requires KeyAgrees(p, table, h, k, now)
    ensures KeyAgrees(p, table - {key}, h[key := []], k, now)
  {
    if k == key {
      FreshEmpty(now - p.window);
    }
  }

  lemma FailAgrees(p: Policy, table: Table, h: History, key: Key, now: Clock)
    requires Agrees(p, table, h, now)
    ensures var r := FailStep(p, table, key, now);
            var (h', wait) := IdealStep(p, h, Fail(key, now), r.recorded);
            r.wait == wait && Agrees(p, r.table, h', now)
  {
    hide Fresh, LockEnd, Swept, Trips, Recorded, EntryAgrees, Spent, HistoryOk;
    var room := Room(p, table, now);
    forall k ensures KeyAgrees(p, room, h, k, now) {
      KeyAgreesSwept(p, table, h, k, now);
    }
    if HasRoom(p, table, key, now) {
      var a := if key in room then room[key] else Attempts([], ZERO_TIME);
      assert KeyAgrees(p, room, h, key, now);
      RecordAgrees(p, a, Of(h, key), now);
      var r, h' := FailStep(p, table, key, now), h[key := Of(h, key) + [now]];
      forall k ensures KeyAgrees(p, r.table, h', k, now) {
        assert KeyAgrees(p, room, h, k, now);
      }
    }
  }

  /**
   Pruning in place and sweeping are unobservable: along every run, every call answers as on the unbounded
   limiter that records the same failures.
   */
  lemma {:induction false} RunAgrees(p: Policy, table: Table, h: History, clock: Clock, es: seq<Event>)
    requires Agrees(p, table, h, clock) && Timely(es, clock)
    ensures var os := Outcomes(p, table, es);
            |os| == |es| && Waits(os) == IdealWaits(p, h, es, Flags(os))
    decreases |es|
  {
    hide Agrees, Step, IdealStep;
    if es != [] {
      StepAgrees(p, table, h, clock, es[0]);
      var (table', o) := Step(p, table, es[0]);
      var (h', _) := IdealStep(p, h, es[0], o.recorded);
      RunAgrees(p, table', h', ClockAfter(es[0], clock), es[1..]);
      var rest := Outcomes(p, table', es[1..]);
      assert Outcomes(p, table, es) == [o] + rest;
      assert ([o] + rest)[1..] == rest;
    }
  }

  predicate AllTrue(flags: seq<bool>) {
    forall i :: 0 <= i < |flags| ==> flags[i]
  }

  function Always(n: nat): seq<bool> {
    seq(n, _ => true)
  }

  /** In particular, a run in which the table never lacked room is a run of the unbounded limiter. */
  lemma RefinesUnbounded(p: Policy, clock: Clock, es: seq<Event>)
    requires Timely(es, clock)
    requires AllTrue(Flags(Outcomes(p, map[], es)))
    ensures |Outcomes(p, map[], es)| == |es|
    ensures Waits(Outcomes(p, map[], es)) == IdealWaits(p, map[], es, Always(|es|))
  {
    EmptyAgrees(p, clock);
    RunAgrees(p, map[], map[], clock, es);
    assert Flags(Outcomes(p, map[], es)) == Always(|es|);
  }

  lemma EmptyAgrees(p: Policy, clock: Clock)
    ensures Agrees(p, map[], map[], clock)
  {
    FreshEmpty(clock - p.window);
  }

  lemma {:induction false} FreshMonotone(s: seq<int>, early: int, late: int)
    requires early <= late
    ensures |Fresh(s, late)| <= |Fresh(s, early)|
  {
    if s != [] {
      FreshMonotone(s[..|s| - 1], early, late);
    }
  }

  /** When a lockout lasts at least a window, a key that is not blocked has fewer than max failures in the window. */
  lemma UnblockedHasFew(p: Policy, h: History, key: Key, now: Clock)
    requires HistoryOk(Of(h, key), now) && p.lockout >= p.window && p.max >= 1
    requires IdealWait(p, h, key, now) == 0
    ensures |Fresh(Of(h, key), now - p.window)| < p.max
  {
    hide Fresh;
    var hist := Of(h, key);
    FreshEmpty(now - p.window);
    if hist != [] {
      var n := |hist| - 1;
      assert hist == hist[..n] + [hist[n]];
      FreshAppend(hist[..n], hist[n], now - p.window);
      FreshMonotone(hist[..n], hist[n] - p.window, now - p.window);
      if hist[n] <= now - p.window {
        FreshNone(hist, now - p.window);
      }
    }
  }

  // ---------------------------------------------------------------- the bound on the table

  /** A key whose history still matters at this moment. */
  predicate Live(p: Policy, hist: seq<int>, now: int) {
    hist != [] && (LockEnd(p, hist) >= now || hist[|hist| - 1] + p.window >= now)
  }

  /** The table never outgrows its bound. */
  lemma StepBounded(p: Policy, table: Table, e: Event)
    requires |table| <= 100
    ensures |Step(p, table, e).0| <= 100
  {
    hide Swept, Recorded;
    match e {
      case Blocked(_, _) =>
      case Reset(key) => SubsetSize((table - {key}).Keys, table.Keys);
      case Fail(key, now) =>
        var room := Room(p, table, now);
        SweptSmaller(table, now, p.window);
        InsertSize(room, key, Recorded(p, if key in room then room[key] else Attempts([], ZERO_TIME), now));
    }
  }

  /** The table after a run. */
  function TableAfter(p: Policy, table: Table, es: seq<Event>): Table
    decreases |es|
  {
    if es == [] then table else TableAfter(p, Step(p, table, es[0]).0, es[1..])
  }

  lemma {:induction false} RunBounded(p: Policy, table: Table, es: seq<Event>)
    requires |table| <= 100
    ensures |TableAfter(p, table, es)| <= 100
    decreases |es|
  {
    hide Step;
    if es != [] {
      StepBounded(p, table, es[0]);
      RunBounded(p, Step(p, table, es[0]).0, es[1..]);
    }
  }

  /** Whatever calls a new limiter gets, in whatever order and at whatever times, its table never outgrows its bound. */
  lemma NeverOutgrown(p: Policy, es: seq<Event>)
    ensures |TableAfter(p, map[], es)| <= 100
  {
    RunBounded(p, map[], es);
  }

  lemma SweptSmaller(table: Table, now: int, window: int)
    ensures |Swept(table, now, window)| <= |table|
  {
    SubsetSize(Swept(table, now, window).Keys, table.Keys);
  }

  lemma InsertSize(table: Table, key: Key, a: Attempts)
    ensures |table[key := a]| == if key in table then |table| else |table| + 1
  {
    assert table[key := a].Keys == table.Keys + {key};
    assert |table.Keys| == |table| && |table[key := a].Keys| == |table[key := a]|;
    if key in table {
      assert table.Keys + {key} == table.Keys;
    }
  }

  /**
   A failure goes unrecorded only when a full table of other keys is live: each of them is locked, or
   failed within the window.
   */
  lemma UnrecordedOnlyWhenFull(p: Policy, table: Table, h: History, now: Clock, key: Key) returns (others: set<Key>)
    requires Agrees(p, table, h, now) && !FailStep(p, table, key, now).recorded
    ensures |others| >= 100 && key !in others
    ensures forall k :: k in others ==> Live(p, Of(h, k), now)
  {
    hide Fresh, LockEnd, Recorded;
    others := Room(p, table, now).Keys;
    forall k | k in others ensures Live(p, Of(h, k), now) {
      assert KeyAgrees(p, table, h, k, now);
    }
  }
}
