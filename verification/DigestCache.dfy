/**
  * The cache of registry digests: `RemoteDigestCached` looks an entry up and stores it back in two separate critical
  * sections, with the registry request between them, while `InvalidateRemoteDigests` may empty the map at any moment.
  *
  * Every critical section, every clock reading and every answer of the registry is one step; a run is any interleaving
  * of the steps of any number of calls. Times are nanoseconds and never decrease.
  */
module DigestCache {
  import opened Common

  const REMOTE_DIGEST_TTL := 3_600_000_000_000

  datatype Entry = Entry(digest: string, at: int)

  type Entries = map<string, Entry>

  predicate Live(found: Option<Entry>, now: int) {
    found.Some? && now - found.value.at < REMOTE_DIGEST_TTL
  }

  function Find(entries: Entries, tag: string): Option<Entry> {
    if tag in entries then Some(entries[tag]) else None
  }

  // ---------------------------------------------------------------------------------------------------------------
  // Interleaved calls
  // ---------------------------------------------------------------------------------------------------------------

  /** Where a call stands: it has read the map, it is asking the registry, it holds an answer to store, it returned. */
  datatype Phase =
    | Looked(tag: string, found: Option<Entry>)
    | Asking(tag: string)
    | Holding(tag: string, digest: string)
    | Returned(tag: string, answer: Option<string>)

  datatype Step =
    | Look(call: nat, tag: string)
    | Check(call: nat)
    | Arrive(call: nat, tag: string, digest: string)
    | Fail(call: nat)
    | Keep(call: nat, tag: string, digest: string)
    | Invalidate

  datatype Event = Event(now: int, step: Step)

  datatype State = State(entries: Entries, calls: map<nat, Phase>, clock: int)

  predicate InPhase(s: State, call: nat, p: Phase) {
    call in s.calls && s.calls[call] == p
  }

  predicate Enabled(s: State, e: Event) {
    s.clock <= e.now &&
    match e.step
    case Look(call, _) => call !in s.calls
    case Check(call) => call in s.calls && s.calls[call].Looked?
    case Arrive(call, tag, _) => InPhase(s, call, Asking(tag))
    case Fail(call) => call in s.calls && s.calls[call].Asking?
    case Keep(call, tag, digest) => InPhase(s, call, Holding(tag, digest))
    case Invalidate => true
  }

  /** What a call does once it has compared the age of what it read with the time to live. */
  function Checked(p: Phase, now: int): Phase
    requires p.Looked?
  {
    if Live(p.found, now) then Returned(p.tag, Some(p.found.value.digest)) else Asking(p.tag)
  }

  function Apply(s: State, e: Event): State
    requires Enabled(s, e)
  {
    var t := s.(clock := e.now);
    match e.step
    case Look(call, tag) => t.(calls := s.calls[call := Looked(tag, Find(s.entries, tag))])
    case Check(call) => t.(calls := s.calls[call := Checked(s.calls[call], e.now)])
    case Arrive(call, tag, digest) => t.(calls := s.calls[call := Holding(tag, digest)])
    case Fail(call) => t.(calls := s.calls[call := Returned(s.calls[call].tag, None)])
    case Keep(call, tag, digest) =>
      t.(entries := s.entries[tag := Entry(digest, e.now)], calls := s.calls[call := Returned(tag, Some(digest))])
    case Invalidate => t.(entries := map[])
  }

  predicate IsRun(s: State, run: seq<Event>)
    decreases |run|, 0
  {
    run == [] || (IsRun(s, run[..|run| - 1]) && Enabled(Run(s, run[..|run| - 1]), run[|run| - 1]))
  }

  function Run(s: State, run: seq<Event>): State
    requires IsRun(s, run)
    decreases |run|, 1
  {
    if run == [] then s else Apply(Run(s, run[..|run| - 1]), run[|run| - 1])
  }

  // ---------------------------------------------------------------------------------------------------------------
  // Where digests come from
  // ---------------------------------------------------------------------------------------------------------------

  /** The registry answered `digest` for `tag` during the run. */
  ghost predicate Arrived(run: seq<Event>, tag: string, digest: string) {
    exists i, call :: 0 <= i < |run| && run[i].step == Arrive(call, tag, digest)
  }

  predicate KeptAt(run: seq<Event>, i: int, j: int, call: nat, tag: string, e: Entry) {
    0 <= i < j < |run| && run[i].step == Arrive(call, tag, e.digest) && run[j] == Event(e.at, Keep(call, tag, e.digest))
  }

  /** One call got `e.digest` from the registry for `tag` and stored it at `e.at`, both during the run. */
  ghost predicate Kept(run: seq<Event>, tag: string, e: Entry) {
    exists i, j, call :: KeptAt(run, i, j, call, tag, e)
  }

  /** Nothing fetched earlier can still be found or stored. */
  ghost predicate Clean(s: State) {
    s.entries == map[] && forall call :: call in s.calls ==> !s.calls[call].Holding?
  }

  ghost predicate PhaseSound(run: seq<Event>, call: nat, p: Phase, begun: bool) {
    match p
    case Looked(tag, found) => begun && found.Some? ==> Kept(run, tag, found.value)
    case Asking(_) => true
    case Holding(tag, digest) => exists i :: 0 <= i < |run| && run[i].step == Arrive(call, tag, digest)
    case Returned(tag, answer) => begun && answer.Some? ==> Arrived(run, tag, answer.value)
  }

  /** What every run from `s0` keeps, for the calls that began during the run. */
  ghost predicate Inv(s0: State, run: seq<Event>, s: State) {
    && (forall tag :: tag in s.entries ==> Kept(run, tag, s.entries[tag]))
    && (forall call :: call in s0.calls ==> call in s.calls)
    && (forall call :: call in s.calls ==> PhaseSound(run, call, s.calls[call], call !in s0.calls))
    && (forall i :: 0 <= i < |run| ==> run[i].now <= s.clock)
  }

  lemma KeptGrows(run: seq<Event>, e: Event, tag: string, entry: Entry)
    requires Kept(run, tag, entry)
    ensures Kept(run + [e], tag, entry)
    ensures Arrived(run, tag, entry.digest)
  {
    var i, j, call :| KeptAt(run, i, j, call, tag, entry);
    assert KeptAt(run + [e], i, j, call, tag, entry);
  }

  lemma ArrivedGrows(run: seq<Event>, e: Event, tag: string, digest: string)
    requires Arrived(run, tag, digest)
    ensures Arrived(run + [e], tag, digest)
  {
    var i, call :| 0 <= i < |run| && run[i].step == Arrive(call, tag, digest);
    assert (run + [e])[i].step == Arrive(call, tag, digest);
  }

  lemma PhaseGrows(run: seq<Event>, e: Event, call: nat, p: Phase, begun: bool)
    requires PhaseSound(run, call, p, begun)
    ensures PhaseSound(run + [e], call, p, begun)
  {
    hide Kept, Arrived;
    match p
    case Looked(tag, found) => if begun && found.Some? { KeptGrows(run, e, tag, found.value); }
    case Asking(_) =>
    case Holding(tag, digest) =>
      var i :| 0 <= i < |run| && run[i].step == Arrive(call, tag, digest);
      assert (run + [e])[i].step == Arrive(call, tag, digest);
    case Returned(tag, answer) => if begun && answer.Some? { ArrivedGrows(run, e, tag, answer.value); }
  }

  /** The call that takes step `e` is sound afterwards. */
  lemma MoverSound(s0: State, run: seq<Event>, s: State, e: Event, call: nat)
    requires Inv(s0, run, s) && Enabled(s, e)
    requires !e.step.Invalidate? && e.step.call == call
    ensures PhaseSound(run + [e], call, Apply(s, e).calls[call], call !in s0.calls)
  {
    hide Kept, Arrived;
    var grown := run + [e];
    assert grown[|run|] == e;
    match e.step
    case Look(_, tag) => if tag in s.entries { KeptGrows(run, e, tag, s.entries[tag]); }
    case Check(_) =>
      var p := s.calls[call];
      assert PhaseSound(run, call, p, call !in s0.calls);
      if Live(p.found, e.now) && call !in s0.calls {
        KeptGrows(run, e, p.tag, p.found.value);
        ArrivedGrows(run, e, p.tag, p.found.value.digest);
      }
    case Arrive(_, tag, digest) => assert grown[|run|].step == Arrive(call, tag, digest);
    case Fail(_) =>
    case Keep(_, tag, digest) => KeepArrived(s0, run, s, e);
  }

  lemma KeepArrived(s0: State, run: seq<Event>, s: State, e: Event)
    requires Inv(s0, run, s) && Enabled(s, e) && e.step.Keep?
    ensures Arrived(run + [e], e.step.tag, e.step.digest)
    ensures Kept(run + [e], e.step.tag, Entry(e.step.digest, e.now))
  {
    var call, tag, digest := e.step.call, e.step.tag, e.step.digest;
    assert PhaseSound(run, call, s.calls[call], call !in s0.calls);
    var i :| 0 <= i < |run| && run[i].step == Arrive(call, tag, digest);
    assert (run + [e])[i].step == Arrive(call, tag, digest);
    assert KeptAt(run + [e], i, |run|, call, tag, Entry(digest, e.now));
  }

  lemma InvStep(s0: State, run: seq<Event>, s: State, e: Event)
    requires Inv(s0, run, s) && Enabled(s, e)
    ensures Inv(s0, run + [e], Apply(s, e))
  {
    hide Kept, PhaseSound;
    var grown, t := run + [e], Apply(s, e);
    forall tag | tag in t.entries
      ensures Kept(grown, tag, t.entries[tag])
    {
      if e.step.Keep? && tag == e.step.tag {
        KeepArrived(s0, run, s, e);
      } else {
        KeptGrows(run, e, tag, s.entries[tag]);
      }
    }
    forall call | call in t.calls
      ensures PhaseSound(grown, call, t.calls[call], call !in s0.calls)
    {
      if !e.step.Invalidate? && e.step.call == call {
        MoverSound(s0, run, s, e, call);
      } else {
        PhaseGrows(run, e, call, s.calls[call], call !in s0.calls);
      }
    }
  }

  lemma {:induction false} InvAlways(s0: State, run: seq<Event>)
    requires IsRun(s0, run) && Clean(s0)
    ensures Inv(s0, run, Run(s0, run))
    decreases |run|
  {
    hide Apply, Enabled;
    if run == [] {
    } else {
      var before, last := run[..|run| - 1], run[|run| - 1];
      InvAlways(s0, before);
      InvStep(s0, before, Run(s0, before), last);
      assert before + [last] == run;
    }
  }

  lemma {:induction false} RunPrefix(s: State, run: seq<Event>, k: nat)
    requires IsRun(s, run) && k <= |run|
    ensures IsRun(s, run[..k])
    ensures k < |run| ==> Enabled(Run(s, run[..k]), run[k]) && IsRun(s, run[..k + 1]) &&
                          Run(s, run[..k + 1]) == Apply(Run(s, run[..k]), run[k])
    decreases |run|
  {
    if k == |run| {
      assert run[..k] == run;
    } else if k + 1 == |run| {
      assert run[..k + 1] == run;
    } else {
      var before := run[..|run| - 1];
      RunPrefix(s, before, k);
      assert before[..k] == run[..k] && before[..k + 1] == run[..k + 1];
    }
  }

  // ---------------------------------------------------------------------------------------------------------------
  // What the cache promises
  // ---------------------------------------------------------------------------------------------------------------

  /** Every entry is a digest the registry gave for that very tag, stored at its time by the call that got it. */
  lemma EntriesAreFetched(s0: State, run: seq<Event>, tag: string)
    requires IsRun(s0, run) && Clean(s0)
    requires tag in Run(s0, run).entries
    ensures Kept(run, tag, Run(s0, run).entries[tag])
  {
    InvAlways(s0, run);
  }

  /** Some call fetched `digest` for `tag` and stored it less than the time to live before `now`. */
  ghost predicate FreshHit(run: seq<Event>, tag: string, digest: string, now: int) {
    exists e: Entry :: Kept(run, tag, e) && e.digest == digest && 0 <= now - e.at < 3_600_000_000_000
  }

  /** The call has read the map and found `e`. */
  predicate FoundBefore(s: State, call: nat, e: Entry) {
    call in s.calls && s.calls[call].Looked? && s.calls[call].found == Some(e)
  }

  /**
    * A call that has checked, at step `k`, what it read either serves a fresh hit, or asks the registry because it read
    * nothing that is still fresh.
    */
  lemma HitsAreFresh(s0: State, run: seq<Event>, k: nat)
    requires IsRun(s0, run) && Clean(s0) && k < |run| && run[k].step.Check? && run[k].step.call !in s0.calls
    ensures IsRun(s0, run[..k]) && IsRun(s0, run[..k + 1]) && run[k].step.call in Run(s0, run[..k + 1]).calls
    ensures var p := Run(s0, run[..k + 1]).calls[run[k].step.call];
            p.Asking? || (p.Returned? && p.answer.Some? && FreshHit(run[..k], p.tag, p.answer.value, run[k].now))
    ensures var p := Run(s0, run[..k + 1]).calls[run[k].step.call];
            p.Asking? <==> forall e: Entry :: FoundBefore(Run(s0, run[..k]), run[k].step.call, e) ==>
                                              run[k].now - e.at >= 3_600_000_000_000
  {
    hide Kept;
    RunPrefix(s0, run, k);
    var before := run[..k];
    InvAlways(s0, before);
    var call := run[k].step.call;
    var p := Run(s0, before).calls[call];
    assert PhaseSound(before, call, p, true);
    if Live(p.found, run[k].now) {
      KeptTime(before, p.tag, p.found.value);
    }
  }

  lemma KeptTime(run: seq<Event>, tag: string, e: Entry)
    requires Kept(run, tag, e)
    ensures exists j :: 0 <= j < |run| && run[j].now == e.at
  {
    var i, j, call :| KeptAt(run, i, j, call, tag, e);
    assert run[j].now == e.at;
  }

  predicate OfCall(e: Event, call: nat) {
    !e.step.Invalidate? && e.step.call == call
  }

  /** The run without the steps of one call. */
  function Without(run: seq<Event>, call: nat): seq<Event>
    decreases |run|
  {
    if run == [] then []
    else if OfCall(run[|run| - 1], call) then Without(run[..|run| - 1], call)
    else Without(run[..|run| - 1], call) + [run[|run| - 1]]
  }

  /** The two states differ in nothing but `call` and the clock, which is not ahead in `t`. */
  ghost predicate SameButFor(s: State, t: State, call: nat) {
    s.entries == t.entries && t.clock <= s.clock && call !in t.calls && t.calls == s.calls - {call}
  }

  lemma WithoutStep(s: State, t: State, e: Event, call: nat)
    requires SameButFor(s, t, call) && Enabled(s, e) && !(e.step.Keep? && e.step.call == call)
    ensures OfCall(e, call) ==> SameButFor(Apply(s, e), t, call)
    ensures !OfCall(e, call) ==> Enabled(t, e) && SameButFor(Apply(s, e), Apply(t, e), call)
  {
    if !OfCall(e, call) {
      assert Apply(t, e).calls == Apply(s, e).calls - {call};
    }
  }

  /**
    * A call that stores nothing, because it found a live entry or its request failed, leaves no trace: without its
    * steps the run is still a run, with the same map and the same outcome of every other call.
    */
  lemma {:induction false} UnstoredCallLeavesNoTrace(s: State, run: seq<Event>, call: nat)
    requires IsRun(s, run) && call !in s.calls
    requires forall i :: 0 <= i < |run| ==> !(run[i].step.Keep? && run[i].step.call == call)
    ensures IsRun(s, Without(run, call))
    ensures SameButFor(Run(s, run), Run(s, Without(run, call)), call)
    decreases |run|
  {
    hide Apply, Enabled, SameButFor;
    if run == [] {
      NoTraceYet(s, call);
    } else {
      var before, last := run[..|run| - 1], run[|run| - 1];
      UnstoredCallLeavesNoTrace(s, before, call);
      WithoutStep(Run(s, before), Run(s, Without(before, call)), last, call);
      if !OfCall(last, call) {
        RunSnoc(s, Without(before, call), last);
      }
    }
  }

  lemma NoTraceYet(s: State, call: nat)
    requires call !in s.calls
    ensures SameButFor(s, s, call)
  {
    assert s.calls - {call} == s.calls;
  }

  lemma {:induction false} NoneMeansFailed(s0: State, run: seq<Event>, call: nat)
    requires IsRun(s0, run) && call !in s0.calls
    requires call in Run(s0, run).calls && Run(s0, run).calls[call].Returned?
    requires Run(s0, run).calls[call].answer == None
    ensures exists i :: 0 <= i < |run| && run[i].step == Fail(call)
    decreases |run|
  {
    var before, last := run[..|run| - 1], run[|run| - 1];
    if last.step == Fail(call) {
      assert run[|run| - 1].step == Fail(call);
    } else {
      NoneMeansFailed(s0, before, call);
      var i :| 0 <= i < |before| && before[i].step == Fail(call);
      assert run[i].step == Fail(call);
    }
  }

  /**
    * While the registry answers `remote(tag)` for every tag, a cached answer is what asking the registry directly would
    * have given: a call returns a digest only if it is the registry's, and returns none only if its own request failed.
    */
  lemma CachedEqualsDirect(s0: State, run: seq<Event>, remote: string -> string, call: nat)
    requires IsRun(s0, run) && Clean(s0) && call !in s0.calls
    requires forall i :: 0 <= i < |run| && run[i].step.Arrive? ==> run[i].step.digest == remote(run[i].step.tag)
    requires call in Run(s0, run).calls && Run(s0, run).calls[call].Returned?
    ensures var p := Run(s0, run).calls[call];
            if p.answer.Some? then p.answer.value == remote(p.tag)
            else exists i :: 0 <= i < |run| && run[i].step == Fail(call)
  {
    InvAlways(s0, run);
    var p := Run(s0, run).calls[call];
    assert PhaseSound(run, call, p, true);
    if p.answer.None? {
      NoneMeansFailed(s0, run, call);
    }
  }

  // ---------------------------------------------------------------------------------------------------------------
  // Invalidation
  // ---------------------------------------------------------------------------------------------------------------

  /** However the run goes on after an invalidation, the map only ever holds digests that arrived after it. */
  ghost predicate Discards(s: State) {
    forall run :: IsRun(s, run) ==>
      forall tag :: tag in Run(s, run).entries ==> Kept(run, tag, Run(s, run).entries[tag])
  }

  /**
    * An invalidation makes sure of that exactly when no call holds a digest it has yet to store: such a call puts what
    * it fetched before the invalidation into the map after it.
    */
  lemma InvalidationDiscardsIff(s: State, e: Event)
    requires Enabled(s, e) && e.step == Invalidate
    ensures Discards(Apply(s, e)) <==> forall call :: call in s.calls ==> !s.calls[call].Holding?
  {
    hide Kept;
    var t := Apply(s, e);
    if forall call :: call in s.calls ==> !s.calls[call].Holding? {
      forall run | IsRun(t, run)
        ensures forall tag :: tag in Run(t, run).entries ==> Kept(run, tag, Run(t, run).entries[tag])
      {
        InvAlways(t, run);
      }
    } else {
      var call :| call in s.calls && s.calls[call].Holding?;
      LateStore(t, call);
    }
  }

  lemma LateStore(t: State, call: nat)
    requires call in t.calls && t.calls[call].Holding?
    ensures !Discards(t)
  {
    var p := t.calls[call];
    var late := Event(t.clock, Keep(call, p.tag, p.digest));
    var run := [late];
    assert run[..0] == [] && IsRun(t, []) && Run(t, []) == t;
    assert IsRun(t, run) && Run(t, run) == Apply(t, late);
    assert p.tag in Run(t, run).entries;
    assert !Kept(run, p.tag, Run(t, run).entries[p.tag]);
  }

  function Empty(clock: int): State {
    State(map[], map[], clock)
  }

  /** A call finds nothing, asks the registry and gets its answer. */
  function Fetch(tag: string, digest: string, now: int): seq<Event> {
    [Event(now, Look(0, tag))] + [Event(now, Check(0))] + [Event(now, Arrive(0, tag, digest))]
  }

  /**
    * It happens: a call on an empty cache has its answer when the cache is invalidated, so the digest from before the
    * invalidation can still be stored after it.
    */
  lemma InvalidationMissesHeldDigest(tag: string, digest: string, now: int)
    ensures IsRun(Empty(now), Fetch(tag, digest, now))
    ensures var s, e := Run(Empty(now), Fetch(tag, digest, now)), Event(now, Invalidate);
            InPhase(s, 0, Holding(tag, digest)) && Enabled(s, e) && !Discards(Apply(s, e))
  {
    hide Discards;
    var s := Empty(now);
    var look, check, arrive := Event(now, Look(0, tag)), Event(now, Check(0)), Event(now, Arrive(0, tag, digest));
    RunSnoc(s, [], look);
    assert [] + [look] == [look];
    RunSnoc(s, [look], check);
    RunSnoc(s, [look] + [check], arrive);
    LateStore(Apply(Run(s, Fetch(tag, digest, now)), Event(now, Invalidate)), 0);
  }

  /** A call that begins after such an invalidation is answered with a digest that arrived after it. */
  lemma AnswersAfterInvalidation(s: State, e: Event, run: seq<Event>, call: nat)
    requires Enabled(s, e) && e.step == Invalidate
    requires forall c :: c in s.calls ==> !s.calls[c].Holding?
    requires IsRun(Apply(s, e), run) && call !in s.calls
    requires call in Run(Apply(s, e), run).calls && Run(Apply(s, e), run).calls[call].Returned?
    ensures var p := Run(Apply(s, e), run).calls[call]; p.answer.Some? ==> Arrived(run, p.tag, p.answer.value)
  {
    var t := Apply(s, e);
    InvAlways(t, run);
    assert PhaseSound(run, call, Run(t, run).calls[call], true);
  }

  // ---------------------------------------------------------------------------------------------------------------
  // The client
  // ---------------------------------------------------------------------------------------------------------------

  /** The steps of one call on its own, numbered 0, that reads the map at `start`. */
  function Session(found: Option<Entry>, tag: string, start: int, checked: int, direct: Option<string>, stored: int):
    seq<Event>
  {
    [Event(start, Look(0, tag)), Event(checked, Check(0))] +
    if Live(found, checked) then []
    else if direct.None? then [Event(stored, Fail(0))]
    else [Event(stored, Arrive(0, tag, direct.value)), Event(stored, Keep(0, tag, direct.value))]
  }

  lemma SessionRuns(entries: Entries, tag: string, start: int, checked: int, direct: Option<string>, stored: int)
    requires start <= checked <= stored
    ensures var s := State(entries, map[], start);
            var found := Find(entries, tag);
            var run := Session(found, tag, start, checked, direct, stored);
            IsRun(s, run) &&
            Run(s, run).entries == (if Live(found, checked) || direct.None? then entries
                                    else entries[tag := Entry(direct.value, stored)]) &&
            Run(s, run).calls == map[0 := Returned(tag, if Live(found, checked) then Some(found.value.digest)
                                                        else direct)]
  {
    var s := State(entries, map[], start);
    var found := Find(entries, tag);
    var run := Session(found, tag, start, checked, direct, stored);
    var look, check := Event(start, Look(0, tag)), Event(checked, Check(0));
    RunSnoc(s, [], look);
    RunSnoc(s, [look], check);
    assert [] + [look] == [look] && [look] + [check] == [look, check];
    if Live(found, checked) {
      assert run == [look, check];
    } else if direct.None? {
      RunSnoc(s, [look, check], Event(stored, Fail(0)));
      assert run == [look, check] + [Event(stored, Fail(0))];
    } else {
      var arrive, keep := Event(stored, Arrive(0, tag, direct.value)), Event(stored, Keep(0, tag, direct.value));
      RunSnoc(s, [look, check], arrive);
      RunSnoc(s, [look, check] + [arrive], keep);
      assert run == [look, check] + [arrive] + [keep];
    }
  }

  lemma RunSnoc(s: State, run: seq<Event>, e: Event)
    requires IsRun(s, run)
    ensures Enabled(Run(s, run), e) ==> IsRun(s, run + [e]) && Run(s, run + [e]) == Apply(Run(s, run), e)
  {
    assert (run + [e])[..|run + [e]| - 1] == run;
  }

  class Client {
    /** `None` is the nil map that a new client and an invalidated one have. */
    var digests: Option<Entries>

    constructor ()
      ensures Cached() == map[]
    {
      digests := None;
    }

    function Cached(): Entries
      reads this
    {
      if digests.Some? then digests.value else map[]
    }

    method Lookup(tag: string) returns (found: Option<Entry>)
      ensures found.Some? <==> tag in Cached()
      ensures found.Some? ==> found.value == Cached()[tag]
    {
      if digests.None? || tag !in digests.value {
        return None;
      }
      return Some(digests.value[tag]);
    }

    method Store(tag: string, digest: string, now: int)
      modifies this
      ensures Cached() == old(Cached())[tag := Entry(digest, now)]
    {
      if digests.None? {
        digests := Some(map[]);
      }
      digests := Some(digests.value[tag := Entry(digest, now)]);
    }

    method InvalidateRemoteDigests()
      modifies this
      ensures Cached() == map[]
    {
      digests := None;
    }

    /**
      * One call, undisturbed: `direct` is what the registry answers if it is asked. The call takes exactly the steps of
      * `Session`, so the map it leaves and the answer it gives are those of that run.
      */
    method RemoteDigestCached(tag: string, start: int, checked: int, direct: Option<string>, stored: int)
      returns (answer: Option<string>)
      requires start <= checked <= stored
      modifies this
      ensures var s := State(old(Cached()), map[], start);
              var run := Session(Find(s.entries, tag), tag, start, checked, direct, stored);
              IsRun(s, run) && Cached() == Run(s, run).entries && Run(s, run).calls == map[0 := Returned(tag, answer)]
      ensures var hit := tag in old(Cached()) && checked - old(Cached())[tag].at < 3_600_000_000_000;
              && answer == (if hit then Some(old(Cached())[tag].digest) else direct)
              && Cached() == if hit || direct.None? then old(Cached())
                             else old(Cached())[tag := Entry(direct.value, stored)]
    {
      SessionRuns(Cached(), tag, start, checked, direct, stored);
      var found := Lookup(tag);
      if found.Some? && checked - found.value.at < REMOTE_DIGEST_TTL {
        return Some(found.value.digest);
      }
      if direct.None? {
        return None;
      }
      Store(tag, direct.value, stored);
      return Some(direct.value);
    }
  }
}
