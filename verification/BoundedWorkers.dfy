/**
  * Bounded parallel checks: one goroutine per item, a buffered channel as the semaphore, a mutex around the shared
  * result, and a wait group the caller blocks on. `CheckStacksDrift` stores into a map with 4 slots;
  * `ListRunningContainerStats` appends to a slice with 8, may be cancelled while a worker waits for a slot, and sorts
  * the slice at the end.
  *
  * A schedule is any order of the goroutines' steps. Deferred calls run last in, first out: a worker gives its slot
  * back before it leaves the wait group.
  */
module BoundedWorkers {
  import opened Common
  import opened Text

  /** `succeeds(i)` tells whether worker i's call returns a result to store; a drift check always does. */
  datatype Config = Config(items: nat, slots: nat, succeeds: nat -> bool)

  datatype Phase = Unborn | Waiting | Running | Storing | Releasing | Ending | Gone

  datatype Step =
    | Spawn
    | Acquire(worker: nat)
    | Cancel(worker: nat)
    | Finish(worker: nat)
    | Store(worker: nat)
    | Release(worker: nat)
    | Done(worker: nat)
    | Return

  /** `held` and `live` are the contents of the semaphore and of the wait group, `stored` the order of the results. */
  datatype State = State(
    spawned: nat, workers: seq<Phase>, held: nat, live: nat, stored: seq<nat>, cancelled: set<nat>, returned: bool)

  predicate Holds(p: Phase) {
    p.Running? || p.Storing? || p.Releasing?
  }

  predicate IsLive(p: Phase) {
    !p.Unborn? && !p.Gone?
  }

  predicate AfterStore(p: Phase) {
    p.Releasing? || p.Ending? || p.Gone?
  }

  function Start(c: Config): State {
    State(0, seq(c.items, i => Unborn), 0, 0, [], {}, false)
  }

  predicate InPhase(s: State, w: nat, p: Phase) {
    w < |s.workers| && s.workers[w] == p
  }

  predicate Enabled(c: Config, s: State, step: Step) {
    match step
    case Spawn => s.spawned < |s.workers|
    case Acquire(w) => InPhase(s, w, Waiting) && s.held < c.slots
    case Cancel(w) => InPhase(s, w, Waiting)
    case Finish(w) => InPhase(s, w, Running)
    case Store(w) => InPhase(s, w, Storing)
    case Release(w) => InPhase(s, w, Releasing) && s.held > 0
    case Done(w) => InPhase(s, w, Ending) && s.live > 0
    case Return => s.spawned == |s.workers| && s.live == 0 && !s.returned
  }

  function Apply(c: Config, s: State, step: Step): State
    requires Enabled(c, s, step)
  {
    match step
    case Spawn => s.(spawned := s.spawned + 1, live := s.live + 1, workers := s.workers[s.spawned := Waiting])
    case Acquire(w) => s.(held := s.held + 1, workers := s.workers[w := Running])
    case Cancel(w) => s.(cancelled := s.cancelled + {w}, workers := s.workers[w := Ending])
    case Finish(w) => s.(workers := s.workers[w := if c.succeeds(w) then Storing else Releasing])
    case Store(w) => s.(stored := s.stored + [w], workers := s.workers[w := Releasing])
    case Release(w) => s.(held := s.held - 1, workers := s.workers[w := Ending])
    case Done(w) => s.(live := s.live - 1, workers := s.workers[w := Gone])
    case Return => s.(returned := true)
  }

  predicate IsRun(c: Config, run: seq<Step>)
    decreases |run|, 0
  {
    run == [] || (IsRun(c, run[..|run| - 1]) && Enabled(c, Run(c, run[..|run| - 1]), run[|run| - 1]))
  }

  function Run(c: Config, run: seq<Step>): State
    requires IsRun(c, run)
    decreases |run|, 1
  {
    if run == [] then Start(c) else Apply(c, Run(c, run[..|run| - 1]), run[|run| - 1])
  }

  // ---------------------------------------------------------------------------------------------------------------
  // What every schedule keeps
  // ---------------------------------------------------------------------------------------------------------------

  ghost function Holders(workers: seq<Phase>): set<nat> {
    set w: nat | w < |workers| && Holds(workers[w])
  }

  ghost function Alive(workers: seq<Phase>): set<nat> {
    set w: nat | w < |workers| && IsLive(workers[w])
  }

  ghost predicate CountsRight(c: Config, s: State) {
    s.held == |Holders(s.workers)| && s.held <= c.slots && s.live == |Alive(s.workers)|
  }

  ghost predicate SpawnedRight(c: Config, s: State) {
    && |s.workers| == c.items && s.spawned <= c.items
    && (forall w :: 0 <= w < c.items ==> (s.workers[w].Unborn? <==> s.spawned <= w))
    && (s.returned ==> s.spawned == c.items && s.live == 0)
  }

  ghost predicate StoredRight(c: Config, s: State) {
    && (forall i, j :: 0 <= i < j < |s.stored| ==> s.stored[i] != s.stored[j])
    && (forall w: nat :: w in s.stored ==> w < |s.workers|)
    && (forall w: nat :: w in s.cancelled ==> w < |s.workers| && (s.workers[w].Ending? || s.workers[w].Gone?))
    && (forall w: nat :: w < |s.workers| && s.workers[w].Storing? ==> c.succeeds(w))
    && (forall w: nat :: w < |s.workers| ==>
          (w in s.stored <==> AfterStore(s.workers[w]) && c.succeeds(w) && w !in s.cancelled))
  }

  ghost predicate Inv(c: Config, s: State) {
    SpawnedRight(c, s) && CountsRight(c, s) && StoredRight(c, s)
  }

  lemma SizeMove(before: set<nat>, after: set<nat>, w: nat)
    requires after - {w} == before - {w}
    ensures |after| == |before| + (if w in after then 1 else 0) - (if w in before then 1 else 0)
  {
    assert w in after ==> after == (after - {w}) + {w};
    assert w !in after ==> after == after - {w};
    assert w in before ==> before == (before - {w}) + {w};
    assert w !in before ==> before == before - {w};
  }

  lemma CountsMove(workers: seq<Phase>, w: nat, p: Phase)
    requires w < |workers|
    ensures |Holders(workers[w := p])| ==
            |Holders(workers)| + (if Holds(p) then 1 else 0) - (if Holds(workers[w]) then 1 else 0)
    ensures |Alive(workers[w := p])| ==
            |Alive(workers)| + (if IsLive(p) then 1 else 0) - (if IsLive(workers[w]) then 1 else 0)
  {
    var moved := workers[w := p];
    assert Holders(moved) - {w} == Holders(workers) - {w};
    SizeMove(Holders(workers), Holders(moved), w);
    assert Alive(moved) - {w} == Alive(workers) - {w};
    SizeMove(Alive(workers), Alive(moved), w);
  }

  /** The worker a step moves. */
  function Mover(s: State, step: Step): nat
    requires !step.Return?
  {
    if step.Spawn? then s.spawned else step.worker
  }

  lemma CountsStep(c: Config, s: State, step: Step)
    requires Inv(c, s) && Enabled(c, s, step)
    ensures CountsRight(c, Apply(c, s, step))
  {
    hide Holders, Alive;
    if step.Return? {
    } else {
      var w := Mover(s, step);
      var p := Apply(c, s, step).workers[w];
      CountsMove(s.workers, w, p);
    }
  }

  lemma NobodyAlive(c: Config, s: State)
    requires Inv(c, s) && s.spawned == c.items && s.live == 0
    ensures forall w :: 0 <= w < c.items ==> s.workers[w].Gone?
  {
    forall w: nat | w < c.items
      ensures s.workers[w].Gone?
    {
      assert w !in Alive(s.workers);
    }
  }

  lemma SpawnedStep(c: Config, s: State, step: Step)
    requires Inv(c, s) && Enabled(c, s, step)
    ensures SpawnedRight(c, Apply(c, s, step))
  {
    if s.returned {
      NobodyAlive(c, s);
    }
  }

  lemma StoredStep(c: Config, s: State, step: Step)
    requires Inv(c, s) && Enabled(c, s, step)
    ensures StoredRight(c, Apply(c, s, step))
  {
    hide Holders, Alive;
    var t := Apply(c, s, step);
    if step.Store? {
      assert forall w: nat :: w in t.stored <==> w in s.stored || w == step.worker;
    }
  }

  lemma InvStep(c: Config, s: State, step: Step)
    requires Inv(c, s) && Enabled(c, s, step)
    ensures Inv(c, Apply(c, s, step))
  {
    hide *;
    SpawnedStep(c, s, step);
    CountsStep(c, s, step);
    StoredStep(c, s, step);
    InvIs(c, Apply(c, s, step));
  }

  lemma InvIs(c: Config, s: State)
    requires SpawnedRight(c, s) && CountsRight(c, s) && StoredRight(c, s)
    ensures Inv(c, s)
  {
  }

  lemma {:induction false} InvAlways(c: Config, run: seq<Step>)
    requires IsRun(c, run)
    ensures Inv(c, Run(c, run))
    decreases |run|
  {
    hide Apply, Enabled, CountsRight, StoredRight, SpawnedRight;
    if run == [] {
      StartInv(c);
    } else {
      InvAlways(c, run[..|run| - 1]);
      InvStep(c, Run(c, run[..|run| - 1]), run[|run| - 1]);
    }
  }

  lemma StartInv(c: Config)
    ensures Inv(c, Start(c))
  {
    var s := Start(c);
    assert Holders(s.workers) == {} && Alive(s.workers) == {};
  }

  /** In every schedule, at most as many calls are in progress as there are slots. */
  lemma AtMostSlotsInProgress(c: Config, run: seq<Step>)
    requires IsRun(c, run)
    ensures |set w: nat | w < |Run(c, run).workers| && Run(c, run).workers[w].Running?| <= c.slots
  {
    InvAlways(c, run);
    var s := Run(c, run);
    var running := set w: nat | w < |s.workers| && s.workers[w].Running?;
    assert running <= Holders(s.workers);
    SubsetSize(running, Holders(s.workers));
  }

  /**
    * The function returns only after every worker has finished, and what the workers stored is then exactly the
    * successful items that were not cancelled, each once.
    */
  lemma ReturnedMeansFinished(c: Config, run: seq<Step>)
    requires IsRun(c, run) && Run(c, run).returned
    ensures var s := Run(c, run);
            && (forall w :: 0 <= w < c.items ==> InPhase(s, w, Gone))
            && (forall i, j :: 0 <= i < j < |s.stored| ==> s.stored[i] != s.stored[j])
            && (forall w: nat :: w in s.stored <==> w < c.items && c.succeeds(w) && w !in s.cancelled)
  {
    InvAlways(c, run);
    NobodyAlive(c, Run(c, run));
  }

  // ---------------------------------------------------------------------------------------------------------------
  // Every schedule ends
  // ---------------------------------------------------------------------------------------------------------------

  function Rank(p: Phase): nat {
    match p
    case Unborn => 6
    case Waiting => 5
    case Running => 4
    case Storing => 3
    case Releasing => 2
    case Ending => 1
    case Gone => 0
  }

  function TotalRank(workers: seq<Phase>): nat {
    if workers == [] then 0 else TotalRank(workers[..|workers| - 1]) + Rank(workers[|workers| - 1])
  }

  function Work(s: State): nat {
    TotalRank(s.workers) + if s.returned then 0 else 1
  }

  lemma {:induction false} RankMove(workers: seq<Phase>, w: nat, p: Phase)
    requires w < |workers|
    ensures TotalRank(workers[w := p]) == TotalRank(workers) + Rank(p) - Rank(workers[w])
  {
    hide Rank;
    var n := |workers| - 1;
    var moved := workers[w := p];
    if w == n {
      assert moved[..n] == workers[..n];
    } else {
      RankMove(workers[..n], w, p);
      assert moved[..n] == workers[..n][w := p];
    }
  }

  /** Every step brings the return nearer, whatever the scheduler picks. */
  lemma WorkDecreases(c: Config, s: State, step: Step)
    requires Inv(c, s) && Enabled(c, s, step)
    ensures Work(Apply(c, s, step)) < Work(s)
  {
    hide TotalRank, Holders, Alive;
    if step.Return? {
    } else {
      var w := Mover(s, step);
      RankMove(s.workers, w, Apply(c, s, step).workers[w]);
    }
  }

  /** As long as the function has not returned, some goroutine can move: the semaphore never blocks them all. */
  lemma NeverStuck(c: Config, s: State)
    requires Inv(c, s) && !s.returned && c.slots > 0
    ensures exists step :: Enabled(c, s, step)
  {
    if s.spawned < c.items {
      assert Enabled(c, s, Spawn);
    } else if s.live == 0 {
      assert Enabled(c, s, Return);
    } else if w :| w in Holders(s.workers) {
      assert s.held > 0;
      assert Enabled(c, s, if s.workers[w].Running? then Finish(w) else if s.workers[w].Storing? then Store(w)
                           else Release(w));
    } else {
      assert s.held == 0;
      var w :| w in Alive(s.workers);
      assert w !in Holders(s.workers);
      assert Enabled(c, s, if s.workers[w].Waiting? then Acquire(w) else Done(w));
    }
  }

  lemma {:induction false} WorkBounds(c: Config, run: seq<Step>)
    requires IsRun(c, run)
    ensures |run| + Work(Run(c, run)) <= Work(Start(c))
    decreases |run|
  {
    hide Apply, Enabled, Work, Inv;
    if run == [] {
    } else {
      WorkBounds(c, run[..|run| - 1]);
      InvAlways(c, run[..|run| - 1]);
      WorkDecreases(c, Run(c, run[..|run| - 1]), run[|run| - 1]);
    }
  }

  lemma {:induction false} StartRank(n: nat)
    ensures TotalRank(seq(n, i => Unborn)) == 6 * n
  {
    if n > 0 {
      var all := seq(n, i => Unborn);
      assert all[..n - 1] == seq(n - 1, i => Unborn);
      StartRank(n - 1);
    }
  }

  /** A schedule for n items has at most 6n + 1 steps, and one that cannot go on has returned. */
  lemma SchedulesEnd(c: Config, run: seq<Step>)
    requires IsRun(c, run) && c.slots > 0
    ensures |run| <= 6 * c.items + 1
    ensures (forall step :: !Enabled(c, Run(c, run), step)) ==> Run(c, run).returned
  {
    WorkBounds(c, run);
    StartRank(c.items);
    InvAlways(c, run);
    if !Run(c, run).returned {
      NeverStuck(c, Run(c, run));
    }
  }

  // ---------------------------------------------------------------------------------------------------------------
  // The map of drift statuses
  // ---------------------------------------------------------------------------------------------------------------

  predicate Within(stored: seq<nat>, n: nat) {
    forall i :: 0 <= i < |stored| ==> stored[i] < n
  }

  /** The shared map once the results have been stored in the given order. */
  function Filled<S>(names: seq<string>, status: string -> S, stored: seq<nat>): map<string, S>
    requires Within(stored, |names|)
    decreases |stored|
  {
    if stored == [] then map[]
    else
      var last := stored[|stored| - 1];
      Filled(names, status, stored[..|stored| - 1])[names[last] := status(names[last])]
  }

  lemma {:induction false} FilledIs<S>(names: seq<string>, status: string -> S, stored: seq<nat>)
    requires Within(stored, |names|)
    ensures Filled(names, status, stored) == map k | 0 <= k < |stored| :: names[stored[k]] := status(names[stored[k]])
    decreases |stored|
  {
    if stored == [] {
    } else {
      FilledIs(names, status, stored[..|stored| - 1]);
    }
  }

  lemma FilledFromAll<S>(names: seq<string>, status: string -> S, stored: seq<nat>)
    requires Within(stored, |names|) && forall w: nat :: w < |names| ==> w in stored
    ensures Filled(names, status, stored) == map name | name in names :: status(name)
  {
    hide Filled;
    FilledIs(names, status, stored);
    var filled := Filled(names, status, stored);
    forall name | name in names
      ensures name in filled
    {
      var w: nat :| w < |names| && names[w] == name;
      assert w in stored;
      var k :| 0 <= k < |stored| && stored[k] == w;
      assert names[stored[k]] in filled;
    }
  }

  /** `CheckStacksDrift` returns one entry per stack, with that stack's status, whatever the schedule. */
  lemma DriftIndependentOfSchedule<S>(c: Config, run: seq<Step>, names: seq<string>, status: string -> S)
    requires c.items == |names| && c.slots == 4 && forall w :: c.succeeds(w)
    requires IsRun(c, run) && Run(c, run).returned && Run(c, run).cancelled == {}
    ensures Within(Run(c, run).stored, |names|)
    ensures Filled(names, status, Run(c, run).stored) == map name | name in names :: status(name)
  {
    hide Run, IsRun, Filled;
    ReturnedMeansFinished(c, run);
    var stored := Run(c, run).stored;
    assert forall i :: 0 <= i < |stored| ==> stored[i] in stored;
    FilledFromAll(names, status, stored);
  }

  // ---------------------------------------------------------------------------------------------------------------
  // The sorted list of statistics
  // ---------------------------------------------------------------------------------------------------------------

  /** A container's statistics: its truncated id, which the list is sorted by, and the figures. */
  datatype Stats = Stats(id: string, figures: string)

  /** The shared slice once the results have been appended in the given order. */
  function Appended(stats: seq<Stats>, stored: seq<nat>): seq<Stats>
    requires Within(stored, |stats|)
  {
    seq(|stored|, k requires 0 <= k < |stored| => stats[stored[k]])
  }

  /** What `sort.Slice`, which need not be stable, may turn the appended results into. */
  ghost predicate SortedResult(out: seq<Stats>, appended: seq<Stats>) {
    multiset(out) == multiset(appended) && forall i, j :: 0 <= i < j < |out| ==> !Less(out[j].id, out[i].id)
  }

  ghost predicate DistinctIds(stats: seq<Stats>) {
    forall i, j :: 0 <= i < |stats| && 0 <= j < |stats| && i != j ==> stats[i].id != stats[j].id
  }

  ghost predicate Ascending(out: seq<Stats>) {
    forall i, j :: 0 <= i < j < |out| ==> Less(out[i].id, out[j].id)
  }

  /** Sorting results with distinct ids puts exactly those results into ascending order. */
  lemma SortingAscends(out: seq<Stats>, appended: seq<Stats>)
    requires SortedResult(out, appended) && DistinctIds(appended)
    ensures Ascending(out) && forall x :: x in out <==> x in appended
  {
    hide Less;
    assert forall x :: x in out <==> x in multiset(out);
    assert forall x :: x in appended <==> x in multiset(appended);
    forall i, j | 0 <= i < j < |out|
      ensures Less(out[i].id, out[j].id)
    {
      LessTotal(out[i].id, out[j].id);
      if out[i].id == out[j].id {
        assert out[i] in appended && out[j] in appended;
        AtLeastTwice(out, i, j);
        AtMostOnce(appended, out[i]);
      }
    }
  }

  lemma {:induction false} AscendingUnique(a: seq<Stats>, b: seq<Stats>)
    requires Ascending(a) && Ascending(b) && forall x :: x in a <==> x in b
    ensures a == b
    decreases |a|
  {
    hide Less;
    assert a != [] ==> a[0] in a;
    assert b != [] ==> b[0] in b;
    if a == [] {
    } else {
      SameHead(a, b);
      var s, t := a[1..], b[1..];
      TailMembers(a);
      TailMembers(b);
      assert forall i :: 0 <= i < |s| ==> s[i] == a[i + 1];
      assert forall i :: 0 <= i < |t| ==> t[i] == b[i + 1];
      AscendingUnique(s, t);
      assert a == [a[0]] + s && b == [b[0]] + t;
    }
  }

  lemma SameHead(a: seq<Stats>, b: seq<Stats>)
    requires Ascending(a) && Ascending(b) && a != [] && b != [] && forall x :: x in a <==> x in b
    ensures a[0] == b[0]
  {
    hide Less;
    assert a[0] in b && b[0] in a;
    var i :| 0 <= i < |b| && b[i] == a[0];
    var j :| 0 <= j < |a| && a[j] == b[0];
    LessTotal(a[0].id, b[0].id);
  }

  lemma TailMembers(a: seq<Stats>)
    requires Ascending(a) && a != []
    ensures forall x :: x in a[1..] <==> x in a && x != a[0]
  {
    hide Less;
    var tail := a[1..];
    assert a == [a[0]] + tail;
    assert forall i :: 0 <= i < |tail| ==> tail[i] == a[i + 1];
    LessTotal(a[0].id, a[0].id);
  }

  /** What the workers appended when a schedule has returned, uncancelled. */
  lemma AppendedIs(c: Config, run: seq<Step>, stats: seq<Stats>)
    requires c.items == |stats| && DistinctIds(stats)
    requires IsRun(c, run) && Run(c, run).returned && Run(c, run).cancelled == {}
    ensures Within(Run(c, run).stored, |stats|) && DistinctIds(Appended(stats, Run(c, run).stored))
    ensures forall x :: x in Appended(stats, Run(c, run).stored) <==>
                        exists w: nat :: w < |stats| && c.succeeds(w) && stats[w] == x
  {
    hide Run, IsRun;
    ReturnedMeansFinished(c, run);
    var stored := Run(c, run).stored;
    assert forall i :: 0 <= i < |stored| ==> stored[i] in stored;
    var a := Appended(stats, stored);
    forall x
      ensures x in a <==> exists w: nat :: w < |stats| && c.succeeds(w) && stats[w] == x
    {
      if w: nat :| w < |stats| && c.succeeds(w) && stats[w] == x {
        assert w in stored;
        var i :| 0 <= i < |stored| && stored[i] == w;
        assert a[i] == x;
      }
    }
  }

  /**
    * Two schedules without cancellation make `ListRunningContainerStats` return the same list: the statistics of the
    * containers whose calls succeeded, in ascending order of their distinct truncated ids.
    */
  lemma StatsIndependentOfSchedule(c: Config, run: seq<Step>, other: seq<Step>, stats: seq<Stats>,
                                   out: seq<Stats>, otherOut: seq<Stats>)
    requires c.items == |stats| && c.slots == 8 && DistinctIds(stats)
    requires IsRun(c, run) && Run(c, run).returned && Run(c, run).cancelled == {}
    requires IsRun(c, other) && Run(c, other).returned && Run(c, other).cancelled == {}
    requires Within(Run(c, run).stored, |stats|) && SortedResult(out, Appended(stats, Run(c, run).stored))
    requires Within(Run(c, other).stored, |stats|) && SortedResult(otherOut, Appended(stats, Run(c, other).stored))
    ensures out == otherOut && Ascending(out)
    ensures forall x :: x in out <==> exists w: nat :: w < |stats| && c.succeeds(w) && stats[w] == x
  {
    hide Run, IsRun, Appended, SortedResult, Ascending, DistinctIds;
    AppendedIs(c, run, stats);
    AppendedIs(c, other, stats);
    SortingAscends(out, Appended(stats, Run(c, run).stored));
    SortingAscends(otherOut, Appended(stats, Run(c, other).stored));
    AscendingUnique(out, otherOut);
  }
}
