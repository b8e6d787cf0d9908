/**
 The goroutines of StreamCompose, the child process and the loop that receives from them, as a transition
 system.

 Five processes share one unbuffered channel `out`, a one-place channel `waitErr`, a channel `done`
 that is only ever closed, and a wait group: the goroutine that owns `out` (main), one emitter per
 pipe, the waiter, and the consumer (`for line := range lines` and then `<-waitErr`). A send on `out`
 happens only together with the consumer's receive. The ticker and the consumer's decision to stop
 reading are actions of the environment.

 The child writes its bytes in the order of its script, each to one of two pipes, and blocks while that
 pipe is full; it exits at the end of the script. A script ends where the child does, so the output of a
 child that is killed is the script of one that stops there. A scanner that has given up reads no more.
 */
module StreamCompose {
  import opened Common
  import opened Text

  datatype Source = Stdout | Stderr

  /**
   What a scanner makes of one pipe: its lines, then possibly an error such as a line that is too long. It
   has read need[i] bytes when it can deliver line i, and `taken` bytes when it stops: all of them at the
   end of the pipe, fewer if it fails.
   */
  datatype Pipe = Pipe(lines: seq<string>, need: seq<nat>, failure: Option<string>, taken: nat)

  /** A command: its arguments, what its pipes carry, the order in which it writes, and what a pipe holds. */
  datatype Setup = Setup(argv: seq<string>, stdout: Pipe, stderr: Pipe, script: seq<Source>, capacity: nat)

  type Config = c: Setup | Valid(c) witness Setup([], Pipe([], [], None, 0), Pipe([], [], None, 0), [], 1)

  /** The number of bytes that go to a source. */
  function Count(script: seq<Source>, src: Source): nat {
    if script == [] then 0 else (if script[0] == src then 1 else 0) + Count(script[1..], src)
  }

  predicate ValidPipe(p: Pipe, total: nat) {
    && |p.need| == |p.lines|
    && (forall i :: 0 <= i < |p.need| ==> p.need[i] <= p.taken)
    && (forall i, j :: 0 <= i < j < |p.need| ==> p.need[i] <= p.need[j])
    && (if p.failure.None? then p.taken == total else p.taken <= total)
  }

  predicate Valid(c: Setup) {
    && c.capacity > 0
    && ValidPipe(c.stdout, Count(c.script, Stdout))
    && ValidPipe(c.stderr, Count(c.script, Stderr))
  }

  function PipeOf(cfg: Setup, src: Source): Pipe {
    if src.Stdout? then cfg.stdout else cfg.stderr
  }

  /** The bytes of a source that no one ever reads. */
  function Unread(cfg: Config, src: Source): nat {
    Count(cfg.script, src) - PipeOf(cfg, src).taken
  }

  /** What a failed scanner leaves unread fits into its pipe. */
  predicate Fits(cfg: Config) {
    Unread(cfg, Stdout) <= cfg.capacity && Unread(cfg, Stderr) <= cfg.capacity
  }

  function CommandLine(cfg: Config): string {
    "$ " + Join(cfg.argv, ' ')
  }

  /** Everything the emitter of a source sends. */
  function Texts(cfg: Config, src: Source): seq<string> {
    var pipe := PipeOf(cfg, src);
    pipe.lines + if pipe.failure.Some? then ["log stream error: " + pipe.failure.value] else []
  }

  /** The command line is the arguments, each but the first after a space. */
  lemma CommandLineText(cfg: Config, arg: string)
    ensures cfg.argv == [] ==> CommandLine(cfg) == "$ " && CommandLine(cfg.(argv := [arg])) == "$ " + arg
    ensures cfg.argv != [] ==> CommandLine(cfg.(argv := cfg.argv + [arg])) == CommandLine(cfg) + " " + arg
  {
    hide Valid, Join;
    JoinSnoc(cfg.argv, arg, ' ');
    assert [] + [arg] == [arg];
    assert "$ " + (Join(cfg.argv, ' ') + [' '] + arg) == "$ " + Join(cfg.argv, ' ') + " " + arg;
  }

  lemma PipeTexts(cfg: Config)
    ensures Texts(cfg, Stdout) == cfg.stdout.lines +
              if cfg.stdout.failure.Some? then ["log stream error: " + cfg.stdout.failure.value] else []
    ensures Texts(cfg, Stderr) == cfg.stderr.lines +
              if cfg.stderr.failure.Some? then ["log stream error: " + cfg.stderr.failure.value] else []
  {
    hide Valid;
  }

  /** The bytes the scanner has to read before it can deliver text n. */
  function Need(cfg: Config, src: Source, n: nat): (bytes: nat)
    requires n < |Texts(cfg, src)|
    ensures bytes <= PipeOf(cfg, src).taken
  {
    var pipe := PipeOf(cfg, src);
    if n < |pipe.lines| then pipe.need[n] else pipe.taken
  }

  // ---------------------------------------------------------------- state

  /** A value received from `out`, with the goroutine that sent it. */
  datatype Item = Command(text: string) | Line(source: Source, text: string) | Beat

  /** The exit status reported by cmd.Wait: None is success. */
  type Exit = Option<string>

  datatype MainPc = SendCommand | Spawning | Looping | Beating | Exited
  datatype EmitterPc = Idle | Scanning(next: nat) | Sending(next: nat) | Returned
  datatype WaiterPc =
    | NotStarted | Waiting | Reaping | Reporting(exit: Exit) | Closing(exit: Exit) | Finished(exit: Exit)
  datatype ConsumerPc = Ranging | AwaitingExit | Got(exit: Exit) | Left

  /** The bytes written to and read from one pipe. */
  datatype Buffer = Buffer(written: nat, read: nat)

  /** The child process, the rest of its script and its pipes. */
  datatype Child = Child(todo: seq<Source>, alive: bool, stdout: Buffer, stderr: Buffer) {
    function Pipe(src: Source): Buffer {
      if src.Stdout? then stdout else stderr
    }

    function WithPipe(src: Source, b: Buffer): Child {
      if src.Stdout? then this.(stdout := b) else this.(stderr := b)
    }
  }

  datatype State = State(
    child: Child,
    main: MainPc,
    stdout: EmitterPc,
    stderr: EmitterPc,
    wg: int,
    waiter: WaiterPc,
    waitErr: seq<Exit>,
    doneClosed: bool,
    outClosed: bool,
    tick: bool,
    consumer: ConsumerPc,
    received: seq<Item>)
  {
    function Emitter(src: Source): EmitterPc {
      if src.Stdout? then stdout else stderr
    }

    function WithEmitter(src: Source, pc: EmitterPc): State {
      if src.Stdout? then this.(stdout := pc) else this.(stderr := pc)
    }
  }

  const EMPTY: Buffer := Buffer(0, 0)

  /** The child has been started and has written nothing. */
  function Initial(cfg: Config): State {
    State(Child(cfg.script, true, EMPTY, EMPTY), SendCommand, Idle, Idle, 0, NotStarted, [],
          false, false, false, Ranging, [])
  }

  datatype Action =
    | SendCommandLine            // out <- "$ ..."
    | Spawn                      // wg.Add(2), three go statements, NewTicker
    | Write                      // the child writes its next byte
    | ChildExit                  // the child ends, which closes its ends of the pipes
    | Fill(src: Source, upTo: nat) // the scanner reads from its pipe
    | Scan(src: Source)          // sc.Scan() delivers another text
    | Send(src: Source)          // out <- text
    | Return(src: Source)        // the scanner is at its end: wg.Done()
    | WaitReturns                // wg.Wait() returns
    | Reap(exit: Exit)           // cmd.Wait() returns
    | Report                     // waitErr <- status
    | CloseDone                  // close(done)
    | MainExit                   // either select takes <-done; the deferred close(out)
    | Tick                       // the ticker fires
    | TakeTick                   // the outer select takes <-ticker.C
    | SendBeat                   // the inner select takes out <- heartbeat
    | SeeClose                   // the consumer's range ends
    | TakeExit                   // <-waitErr
    | Leave                      // the consumer stops reading: a client write failed

  /** The steps that only concern heartbeats. */
  predicate IsHeartbeat(a: Action) {
    a.Tick? || a.TakeTick? || a.SendBeat?
  }

  /** The scanner needs more bytes, for its next text or to see the end of the pipe; one that failed needs none. */
  predicate WantsMore(cfg: Config, s: State, src: Source)
    requires s.Emitter(src).Scanning?
  {
    var n := s.Emitter(src).next;
    if n < |Texts(cfg, src)| then s.child.Pipe(src).read < Need(cfg, src, n) else PipeOf(cfg, src).failure.None?
  }

  /** A read would return the end of the pipe. */
  predicate AtEnd(s: State, src: Source) {
    !s.child.alive && s.child.Pipe(src).read == s.child.Pipe(src).written
  }

  /** The steps of the child and the reads from its pipes. */
  predicate OfChild(a: Action) {
    a.Write? || a.ChildExit? || a.Fill?
  }

  predicate ChildCan(cfg: Config, s: State, a: Action)
    requires OfChild(a)
  {
    var c := s.child;
    match a
    case Write => c.alive && CanWrite(cfg, c)
    case ChildExit => c.alive && c.todo == []
    case Fill(src, upTo) =>
      s.Emitter(src).Scanning? && WantsMore(cfg, s, src) &&
      c.Pipe(src).read < upTo <= c.Pipe(src).written && upTo <= PipeOf(cfg, src).taken
  }

  /** The next byte of the script has room in its pipe. */
  predicate CanWrite(cfg: Config, c: Child) {
    c.todo != [] && c.Pipe(c.todo[0]).written < c.Pipe(c.todo[0]).read + cfg.capacity
  }

  function ChildAfter(cfg: Config, s: State, a: Action): Child
    requires OfChild(a) && ChildCan(cfg, s, a)
  {
    var c := s.child;
    match a
    case Write =>
      var src := c.todo[0];
      c.WithPipe(src, c.Pipe(src).(written := c.Pipe(src).written + 1)).(todo := c.todo[1..])
    case ChildExit => c.(alive := false)
    case Fill(src, upTo) => c.WithPipe(src, c.Pipe(src).(read := upTo))
  }

  predicate RoutineCan(cfg: Config, s: State, a: Action)
    requires !OfChild(a)
  {
    match a
    case SendCommandLine => s.main.SendCommand? && s.consumer.Ranging?
    case Spawn => s.main.Spawning?
    case Scan(src) =>
      s.Emitter(src).Scanning? && s.Emitter(src).next < |Texts(cfg, src)| && !WantsMore(cfg, s, src)
    case Send(src) => s.Emitter(src).Sending? && s.Emitter(src).next < |Texts(cfg, src)| && s.consumer.Ranging?
    case Return(src) =>
      s.Emitter(src).Scanning? && s.Emitter(src).next >= |Texts(cfg, src)| && (WantsMore(cfg, s, src) ==> AtEnd(s, src))
    case WaitReturns => s.waiter.Waiting? && s.wg == 0
    case Reap(_) => s.waiter.Reaping? && !s.child.alive
    case Report => s.waiter.Reporting? && |s.waitErr| < 1
    case CloseDone => s.waiter.Closing?
    case MainExit => (s.main.Looping? || s.main.Beating?) && s.doneClosed
    case Tick => true
    case TakeTick => s.main.Looping? && s.tick
    case SendBeat => s.main.Beating? && s.consumer.Ranging?
    case SeeClose => s.consumer.Ranging? && s.outClosed
    case TakeExit => s.consumer.AwaitingExit? && |s.waitErr| > 0
    case Leave => s.consumer.Ranging?
  }

  function RoutineAfter(cfg: Config, s: State, a: Action): State
    requires !OfChild(a) && RoutineCan(cfg, s, a)
  {
    match a
    case SendCommandLine => s.(main := Spawning, received := s.received + [Command(CommandLine(cfg))])
    case Spawn => s.(main := Looping, stdout := Scanning(0), stderr := Scanning(0), wg := s.wg + 2, waiter := Waiting)
    case Scan(src) => s.WithEmitter(src, Sending(s.Emitter(src).next))
    case Send(src) =>
      var n := s.Emitter(src).next;
      s.WithEmitter(src, Scanning(n + 1)).(received := s.received + [Line(src, Texts(cfg, src)[n])])
    case Return(src) => s.WithEmitter(src, Returned).(wg := s.wg - 1)
    case WaitReturns => s.(waiter := Reaping)
    case Reap(exit) => s.(waiter := Reporting(exit))
    case Report => s.(waiter := Closing(s.waiter.exit), waitErr := s.waitErr + [s.waiter.exit])
    case CloseDone => s.(waiter := Finished(s.waiter.exit), doneClosed := true)
    case MainExit => s.(main := Exited, outClosed := true)
    case Tick => s.(tick := true)
    case TakeTick => s.(main := Beating, tick := false)
    case SendBeat => s.(main := Looping, received := s.received + [Beat])
    case SeeClose => s.(consumer := AwaitingExit)
    case TakeExit => s.(consumer := Got(s.waitErr[0]), waitErr := s.waitErr[1..])
    case Leave => s.(consumer := Left)
  }

  predicate Enabled(cfg: Config, s: State, a: Action) {
    if OfChild(a) then ChildCan(cfg, s, a) else RoutineCan(cfg, s, a)
  }

  function Apply(cfg: Config, s: State, a: Action): State
    requires Enabled(cfg, s, a)
  {
    if OfChild(a) then s.(child := ChildAfter(cfg, s, a)) else RoutineAfter(cfg, s, a)
  }

  /** The state after a schedule of actions, if every one of them is enabled in turn. */
  function Run(cfg: Config, s: State, acts: seq<Action>): Option<State>
    decreases |acts|
  {
    if acts == [] then Some(s)
    else if Enabled(cfg, s, acts[0]) then Run(cfg, Apply(cfg, s, acts[0]), acts[1..])
    else None
  }

  ghost predicate Reaches(cfg: Config, acts: seq<Action>, s: State) {
    Run(cfg, Initial(cfg), acts) == Some(s)
  }

  lemma {:induction false} RunConcat(cfg: Config, s: State, a: seq<Action>, b: seq<Action>)
    ensures Run(cfg, s, a + b) == match Run(cfg, s, a) case None => None case Some(t) => Run(cfg, t, b)
    decreases |a|
  {
    hide Enabled, Apply;
    if a == [] {
      assert a + b == b;
    } else {
      assert (a + b)[0] == a[0] && (a + b)[1..] == a[1..] + b;
      if Enabled(cfg, s, a[0]) {
        RunConcat(cfg, Apply(cfg, s, a[0]), a[1..], b);
      }
    }
  }

  // ---------------------------------------------------------------- what was received

  /** The texts received from one source, in order. */
  function TextsOf(items: seq<Item>, src: Source): seq<string> {
    if items == [] then []
    else
      var last, rest := items[|items| - 1], TextsOf(items[..|items| - 1], src);
      if last.Line? && last.source == src then rest + [last.text] else rest
  }

  lemma TextsOfAppend(items: seq<Item>, item: Item, src: Source)
    ensures TextsOf(items + [item], src) ==
            if item.Line? && item.source == src then TextsOf(items, src) + [item.text] else TextsOf(items, src)
  {
    assert (items + [item])[..|items|] == items;
  }

  /** The number of texts of a source that the consumer has. */
  function Delivered(cfg: Config, src: Source, pc: EmitterPc): nat {
    match pc
    case Idle => 0
    case Scanning(n) => n
    case Sending(n) => n
    case Returned => |Texts(cfg, src)|
  }

  // ---------------------------------------------------------------- invariant

  predicate EmitterOk(cfg: Config, s: State, src: Source) {
    var pc := s.Emitter(src);
    && Delivered(cfg, src, pc) <= |Texts(cfg, src)|
    && (pc.Sending? ==> pc.next < |Texts(cfg, src)|)
    && (pc.Idle? <==> s.main.SendCommand? || s.main.Spawning?)
  }

  predicate PipeOk(cfg: Config, s: State, src: Source)
    requires EmitterOk(cfg, s, src)
  {
    var b, n := s.child.Pipe(src), Delivered(cfg, src, s.Emitter(src));
    && b.written + Count(s.child.todo, src) == Count(cfg.script, src)
    && b.read <= b.written <= b.read + cfg.capacity
    && b.read <= PipeOf(cfg, src).taken
    && (n > 0 ==> Need(cfg, src, n - 1) <= b.read)
    && (s.Emitter(src).Sending? ==> Need(cfg, src, n) <= b.read)
    && (s.Emitter(src).Returned? && PipeOf(cfg, src).failure.None? ==> !s.child.alive)
  }

  predicate ReceivedOk(cfg: Config, s: State) {
    && (s.main.SendCommand? <==> s.received == [])
    && (s.received != [] ==> s.received[0] == Command(CommandLine(cfg)))
    && (forall i :: 1 <= i < |s.received| ==> !s.received[i].Command?)
    && (s.main.Spawning? ==> |s.received| == 1)
  }

  predicate StreamOk(cfg: Config, s: State, src: Source)
    requires EmitterOk(cfg, s, src)
  {
    TextsOf(s.received, src) == Texts(cfg, src)[..Delivered(cfg, src, s.Emitter(src))]
  }

  function Unreturned(pc: EmitterPc): nat {
    if pc.Scanning? || pc.Sending? then 1 else 0
  }

  predicate ControlOk(s: State) {
    && s.wg == Unreturned(s.stdout) + Unreturned(s.stderr)
    && (s.waiter.NotStarted? <==> s.main.SendCommand? || s.main.Spawning?)
    && (!s.waiter.NotStarted? && !s.waiter.Waiting? ==> s.stdout.Returned? && s.stderr.Returned?)
    && (s.doneClosed <==> s.waiter.Finished?)
    && (s.outClosed <==> s.main.Exited?)
    && (s.main.Exited? ==> s.doneClosed)
    && (s.consumer.AwaitingExit? || s.consumer.Got? ==> s.outClosed)
    && (s.waiter.Closing? || s.waiter.Finished? ==>
          s.waitErr == if s.consumer.Got? then [] else [s.waiter.exit])
    && (!s.waiter.Closing? && !s.waiter.Finished? ==> s.waitErr == [])
    && (s.consumer.Got? ==> s.consumer.exit == s.waiter.exit)
    && (!s.child.alive ==> s.child.todo == [])
    && (s.waiter.Reporting? || s.waiter.Closing? || s.waiter.Finished? ==> !s.child.alive)
  }

  predicate Inv(cfg: Config, s: State) {
    && ControlOk(s)
    && ReceivedOk(cfg, s)
    && EmitterOk(cfg, s, Stdout) && StreamOk(cfg, s, Stdout) && PipeOk(cfg, s, Stdout)
    && EmitterOk(cfg, s, Stderr) && StreamOk(cfg, s, Stderr) && PipeOk(cfg, s, Stderr)
  }

  lemma ControlStep(cfg: Config, s: State, a: Action)
    requires Inv(cfg, s) && !OfChild(a) && RoutineCan(cfg, s, a)
    ensures ControlOk(RoutineAfter(cfg, s, a))
  {
    hide Texts, TextsOf, CommandLine, ReceivedOk, StreamOk, PipeOk, Valid, WantsMore, AtEnd;
  }

  lemma ReceivedStep(cfg: Config, s: State, a: Action)
    requires Inv(cfg, s) && !OfChild(a) && RoutineCan(cfg, s, a)
    ensures ReceivedOk(cfg, RoutineAfter(cfg, s, a))
  {
    hide Texts, TextsOf, CommandLine, StreamOk, PipeOk, Valid, WantsMore, AtEnd;
  }

  lemma EmitterStepOk(cfg: Config, s: State, a: Action, src: Source)
    requires Inv(cfg, s) && !OfChild(a) && RoutineCan(cfg, s, a)
    ensures EmitterOk(cfg, RoutineAfter(cfg, s, a), src)
  {
    hide Texts, CommandLine, ReceivedOk, StreamOk, PipeOk, Valid, WantsMore, AtEnd;
  }

  /** What a goroutine's step does to an emitter. */
  lemma EmitterAfter(cfg: Config, s: State, a: Action, src: Source)
    requires !OfChild(a) && RoutineCan(cfg, s, a)
    ensures RoutineAfter(cfg, s, a).child == s.child
    ensures RoutineAfter(cfg, s, a).Emitter(src) ==
            if a.Spawn? then Scanning(0)
            else if a == Scan(src) then Sending(s.Emitter(src).next)
            else if a == Send(src) then Scanning(s.Emitter(src).next + 1)
            else if a == Return(src) then Returned
            else s.Emitter(src)
  {
    hide Texts, CommandLine, Valid, WantsMore, AtEnd, PipeOf, Join;
    match src
    case Stdout =>
    case Stderr =>
  }

  lemma PipeStep(cfg: Config, s: State, a: Action, src: Source)
    requires Inv(cfg, s) && !OfChild(a) && RoutineCan(cfg, s, a)
    requires EmitterOk(cfg, RoutineAfter(cfg, s, a), src)
    ensures PipeOk(cfg, RoutineAfter(cfg, s, a), src)
  {
    hide Texts, TextsOf, CommandLine, ReceivedOk, ControlOk, StreamOk, Valid, RoutineAfter;
    EmitterAfter(cfg, s, a, src);
  }

  lemma ChildPipeStep(cfg: Config, s: State, a: Action, src: Source)
    requires Inv(cfg, s) && OfChild(a) && ChildCan(cfg, s, a)
    ensures EmitterOk(cfg, s.(child := ChildAfter(cfg, s, a)), src)
    ensures PipeOk(cfg, s.(child := ChildAfter(cfg, s, a)), src)
  {
    hide Texts, TextsOf, CommandLine, ReceivedOk, StreamOk, Need, Valid;
  }

  /** The child's steps concern the pipes alone. */
  lemma ChildStep(cfg: Config, s: State, a: Action)
    requires Inv(cfg, s) && OfChild(a) && ChildCan(cfg, s, a)
    ensures Inv(cfg, s.(child := ChildAfter(cfg, s, a)))
  {
    hide Texts, TextsOf, CommandLine, PipeOk, Valid, WantsMore;
    ChildPipeStep(cfg, s, a, Stdout);
    ChildPipeStep(cfg, s, a, Stderr);
  }

  /** Only a Send of a source moves its count of delivered texts, by one. */
  lemma DeliveredStep(cfg: Config, s: State, a: Action, src: Source)
    requires Inv(cfg, s) && !OfChild(a) && RoutineCan(cfg, s, a)
    ensures Delivered(cfg, src, RoutineAfter(cfg, s, a).Emitter(src)) ==
            Delivered(cfg, src, s.Emitter(src)) + if a == Send(src) then 1 else 0
  {
    hide Texts, CommandLine, ReceivedOk, StreamOk, PipeOk, Valid, WantsMore, AtEnd;
  }

  /** The item that an action hands to the consumer, if it is one of the three sends. */
  function Sent(cfg: Config, s: State, a: Action): seq<Item>
    requires !OfChild(a) && RoutineCan(cfg, s, a)
  {
    match a
    case SendCommandLine => [Command(CommandLine(cfg))]
    case Send(src) => [Line(src, Texts(cfg, src)[s.Emitter(src).next])]
    case SendBeat => [Beat]
    case _ => []
  }

  lemma ReceivedGrows(cfg: Config, s: State, a: Action)
    requires !OfChild(a) && RoutineCan(cfg, s, a)
    ensures RoutineAfter(cfg, s, a).received == s.received + Sent(cfg, s, a)
  {
    hide Texts, CommandLine, Valid, WantsMore, AtEnd;
  }

  lemma StreamStep(cfg: Config, s: State, a: Action, src: Source)
    requires Inv(cfg, s) && !OfChild(a) && RoutineCan(cfg, s, a)
    requires EmitterOk(cfg, RoutineAfter(cfg, s, a), src)
    ensures StreamOk(cfg, RoutineAfter(cfg, s, a), src)
  {
    hide Texts, CommandLine, ReceivedOk, ControlOk, TextsOf, RoutineAfter, PipeOk, Valid, WantsMore, AtEnd;
    ReceivedGrows(cfg, s, a);
    DeliveredStep(cfg, s, a, src);
    var sent, texts := Sent(cfg, s, a), Texts(cfg, src);
    if sent != [] {
      TextsOfAppend(s.received, sent[0], src);
      if a == Send(src) {
        var n := s.Emitter(src).next;
        assert texts[..n] + [texts[n]] == texts[..n + 1];
      }
    } else {
      assert s.received + sent == s.received;
    }
  }

  /** Every state of every schedule satisfies the invariant. */
  lemma {:induction false} InvAlways(cfg: Config, s: State, acts: seq<Action>)
    requires Inv(cfg, s) && Run(cfg, s, acts).Some?
    ensures Inv(cfg, Run(cfg, s, acts).value)
    decreases |acts|
  {
    hide Inv, Enabled, Apply;
    if acts != [] {
      InvStep(cfg, s, acts[0]);
      InvAlways(cfg, Apply(cfg, s, acts[0]), acts[1..]);
    }
  }

  lemma InvStep(cfg: Config, s: State, a: Action)
    requires Inv(cfg, s) && Enabled(cfg, s, a)
    ensures Inv(cfg, Apply(cfg, s, a))
  {
    hide Texts, CommandLine, ControlOk, ReceivedOk, EmitterOk, StreamOk, PipeOk, RoutineAfter, RoutineCan, Valid;
    if OfChild(a) {
      ChildStep(cfg, s, a);
    } else {
      ControlStep(cfg, s, a);
      ReceivedStep(cfg, s, a);
      EmitterStepOk(cfg, s, a, Stdout);
      EmitterStepOk(cfg, s, a, Stderr);
      StreamStep(cfg, s, a, Stdout);
      StreamStep(cfg, s, a, Stderr);
      PipeStep(cfg, s, a, Stdout);
      PipeStep(cfg, s, a, Stderr);
    }
  }

  lemma ReachableInv(cfg: Config, acts: seq<Action>, s: State)
    requires Reaches(cfg, acts, s)
    ensures Inv(cfg, s)
  {
    InvAlways(cfg, Initial(cfg), acts);
  }

  // ---------------------------------------------------------------- safety

  /**
   Some goroutine still has a send on or a close of a channel that is closed already, or an emitter's
   wg.Done() would make the wait group negative.
   */
  predicate CanPanic(s: State) {
    || (s.outClosed && (!s.main.Exited? || !s.stdout.Returned? || !s.stderr.Returned?))
    || (s.doneClosed && !s.waiter.Finished?)
    || (s.wg <= 0 && (s.stdout.Scanning? || s.stderr.Scanning?))
  }

  /**
   In every interleaving: nothing is sent on or closed twice, the one send on waitErr has room, and
   the handler's receive from waitErr has a value waiting by the time `out` is closed.
   */
  lemma NeverPanicsNorBlocks(cfg: Config, acts: seq<Action>, s: State)
    requires Reaches(cfg, acts, s)
    ensures !CanPanic(s)
    ensures s.waiter.Reporting? ==> Enabled(cfg, s, Report)
    ensures s.consumer.AwaitingExit? ==> Enabled(cfg, s, TakeExit)
  {
    ReachableInv(cfg, acts, s);
  }

  // ---------------------------------------------------------------- progress

  predicate Owes(cfg: Config, s: State, src: Source) {
    Delivered(cfg, src, s.Emitter(src)) < |Texts(cfg, src)|
  }

  /** Something is still to be sent on `out`, apart from heartbeats. */
  predicate SendPending(cfg: Config, s: State) {
    s.main.SendCommand? || Owes(cfg, s, Stdout) || Owes(cfg, s, Stderr)
  }

  /** cmd.Wait has reported nothing yet, or this status. */
  predicate ExitAgrees(s: State, exit: Exit) {
    s.waiter.Reporting? || s.waiter.Closing? || s.waiter.Finished? ==> s.waiter.exit == exit
  }

  function EmitterWork(cfg: Config, src: Source, pc: EmitterPc): int {
    match pc
    case Idle => 2 * |Texts(cfg, src)| + 1
    case Scanning(n) => 2 * (|Texts(cfg, src)| - n) + 1
    case Sending(n) => 2 * (|Texts(cfg, src)| - n)
    case Returned => 0
  }

  /** What the child has yet to do, and the bytes the scanners have yet to read. */
  function ChildWork(cfg: Config, c: Child): int {
    |c.todo| + (if c.alive then 1 else 0) +
    (cfg.stdout.taken - c.stdout.read) + (cfg.stderr.taken - c.stderr.read)
  }

  function ControlWork(s: State): int {
    (match s.main case SendCommand => 3 case Spawning => 2 case Looping => 1 case Beating => 1 case Exited => 0) +
    (match s.waiter
     case NotStarted => 4 case Waiting => 4 case Reaping => 3
     case Reporting(_) => 2 case Closing(_) => 1 case Finished(_) => 0) +
    (match s.consumer case Ranging => 2 case AwaitingExit => 1 case Got(_) => 0 case Left => 0)
  }

  function Work(cfg: Config, s: State): int {
    ChildWork(cfg, s.child) + EmitterWork(cfg, Stdout, s.stdout) + EmitterWork(cfg, Stderr, s.stderr) + ControlWork(s)
  }

  lemma WorkNonNegative(cfg: Config, s: State)
    requires Inv(cfg, s)
    ensures 0 <= Work(cfg, s)
  {
    hide Texts, TextsOf, CommandLine, ReceivedOk, StreamOk, ControlOk, Valid;
  }

  /** The steps of the emitters: the work is theirs; every other step leaves it as it is. */
  predicate OfEmitter(a: Action, src: Source) {
    a == Scan(src) || a == Send(src) || a == Return(src)
  }

  lemma EmitterWorkDecreases(cfg: Config, s: State, a: Action, src: Source)
    requires Inv(cfg, s) && !OfChild(a) && RoutineCan(cfg, s, a)
    ensures var w := EmitterWork(cfg, src, s.Emitter(src));
            var w' := EmitterWork(cfg, src, RoutineAfter(cfg, s, a).Emitter(src));
            if OfEmitter(a, src) then w' < w else w' == w
  {
    hide Texts, TextsOf, CommandLine, ReceivedOk, StreamOk, PipeOk, ControlOk, Valid, WantsMore, AtEnd, RoutineAfter;
    EmitterAfter(cfg, s, a, src);
  }

  lemma ControlWorkDecreases(cfg: Config, s: State, a: Action)
    requires Inv(cfg, s) && !OfChild(a) && RoutineCan(cfg, s, a)
    ensures var w, w' := ControlWork(s), ControlWork(RoutineAfter(cfg, s, a));
            if IsHeartbeat(a) || OfEmitter(a, Stdout) || OfEmitter(a, Stderr) then w' == w else w' < w
  {
    hide Texts, TextsOf, CommandLine, ReceivedOk, StreamOk, PipeOk, EmitterOk, Valid, WantsMore, AtEnd;
  }

  lemma ChildWorkDecreases(cfg: Config, s: State, a: Action)
    requires OfChild(a) && ChildCan(cfg, s, a)
    ensures ChildWork(cfg, ChildAfter(cfg, s, a)) < ChildWork(cfg, s.child)
    ensures ControlWork(s.(child := ChildAfter(cfg, s, a))) == ControlWork(s)
  {
    hide Texts, WantsMore, Valid;
  }

  /** Heartbeats change no work; every other step uses some up. */
  lemma WorkDecreases(cfg: Config, s: State, a: Action)
    requires Inv(cfg, s) && Enabled(cfg, s, a)
    ensures IsHeartbeat(a) ==> Work(cfg, Apply(cfg, s, a)) == Work(cfg, s)
    ensures !IsHeartbeat(a) ==> Work(cfg, Apply(cfg, s, a)) < Work(cfg, s)
  {
    hide Inv, RoutineAfter, RoutineCan, ChildAfter, ChildCan, ChildWork, EmitterWork, ControlWork;
    if OfChild(a) {
      ChildWorkDecreases(cfg, s, a);
    } else {
      EmitterAfter(cfg, s, a, Stdout);
      EmitterWorkDecreases(cfg, s, a, Stdout);
      EmitterWorkDecreases(cfg, s, a, Stderr);
      ControlWorkDecreases(cfg, s, a);
    }
  }

  function CountWork(acts: seq<Action>): nat {
    if acts == [] then 0 else (if IsHeartbeat(acts[0]) then 0 else 1) + CountWork(acts[1..])
  }

  lemma {:induction false} WorkBoundsRun(cfg: Config, s: State, acts: seq<Action>)
    requires Inv(cfg, s) && Run(cfg, s, acts).Some?
    ensures CountWork(acts) + Work(cfg, Run(cfg, s, acts).value) <= Work(cfg, s)
    decreases |acts|
  {
    hide Inv, Enabled, Apply, Work, IsHeartbeat;
    if acts != [] {
      WorkDecreases(cfg, s, acts[0]);
      InvStep(cfg, s, acts[0]);
      WorkBoundsRun(cfg, Apply(cfg, s, acts[0]), acts[1..]);
    }
  }

  lemma {:induction false} CountBoth(script: seq<Source>)
    ensures Count(script, Stdout) + Count(script, Stderr) == |script|
  {
    if script != [] {
      CountBoth(script[1..]);
    }
  }

  /** No schedule takes more than this many steps other than heartbeats. */
  lemma RunsAreBounded(cfg: Config, acts: seq<Action>, s: State)
    requires Reaches(cfg, acts, s)
    ensures CountWork(acts) <= 2 * |Texts(cfg, Stdout)| + 2 * |Texts(cfg, Stderr)| + 2 * |cfg.script| + 12
  {
    hide Texts, Enabled, Apply;
    CountBoth(cfg.script);
    WorkBoundsRun(cfg, Initial(cfg), acts);
    ReachableInv(cfg, acts, s);
    WorkNonNegative(cfg, s);
  }

  predicate AllFinished(s: State) {
    s.main.Exited? && s.stdout.Returned? && s.stderr.Returned? && s.waiter.Finished? && s.consumer.Got?
  }

  /**
   A step other than a heartbeat that can be taken next, whatever cmd.Wait will report: the child's, if it
   can move, else that of the emitter it waits for.
   */
  function NextStep(cfg: Config, s: State, exit: Exit): Action {
    if s.main.SendCommand? then SendCommandLine
    else if s.main.Spawning? then Spawn
    else if s.child.alive && CanWrite(cfg, s.child) then Write
    else if s.child.alive && s.child.todo == [] then ChildExit
    else if s.child.alive then EmitterStep(cfg, s, s.child.todo[0])
    else if !s.stdout.Returned? then EmitterStep(cfg, s, Stdout)
    else if !s.stderr.Returned? then EmitterStep(cfg, s, Stderr)
    else if s.waiter.Waiting? then WaitReturns
    else if s.waiter.Reaping? then Reap(exit)
    else if s.waiter.Reporting? then Report
    else if s.waiter.Closing? then CloseDone
    else if !s.main.Exited? then MainExit
    else if s.consumer.Ranging? then SeeClose
    else TakeExit
  }

  function EmitterStep(cfg: Config, s: State, src: Source): Action {
    var pc, b := s.Emitter(src), s.child.Pipe(src);
    if pc.Sending? then Send(src)
    else if pc.Scanning? && WantsMore(cfg, s, src) && !AtEnd(s, src) then
      Fill(src, if b.written <= PipeOf(cfg, src).taken then b.written else PipeOf(cfg, src).taken)
    else if pc.Scanning? && pc.next < |Texts(cfg, src)| then Scan(src)
    else Return(src)
  }

  /** A scanner that has failed has read what it takes. */
  lemma FailedHasRead(cfg: Config, s: State, src: Source)
    requires Inv(cfg, s) && PipeOf(cfg, src).failure.Some? && !Owes(cfg, s, src)
    ensures s.child.Pipe(src).read == PipeOf(cfg, src).taken
  {
    hide TextsOf, CommandLine, ReceivedOk, StreamOk, ControlOk, Valid;
  }

  /** The next byte of the script is still to be written. */
  lemma NextByte(cfg: Config, s: State)
    requires Inv(cfg, s) && s.child.todo != []
    ensures s.child.Pipe(s.child.todo[0]).written < Count(cfg.script, s.child.todo[0])
  {
    hide TextsOf, Texts, CommandLine, ReceivedOk, StreamOk, ControlOk, Valid;
  }

  lemma AllWritten(cfg: Config, s: State, src: Source)
    requires Inv(cfg, s) && !s.child.alive
    ensures s.child.Pipe(src).written == Count(cfg.script, src) >= PipeOf(cfg, src).taken
    ensures PipeOf(cfg, src).failure.None? ==> s.child.Pipe(src).written == PipeOf(cfg, src).taken
  {
    hide TextsOf, Texts, CommandLine, ReceivedOk, StreamOk;
  }

  /** A child blocked on a pipe waits for an emitter that still reads, if what a failed one leaves fits. */
  lemma BlockedOnReader(cfg: Config, s: State)
    requires Inv(cfg, s) && Fits(cfg) && s.child.alive && s.child.todo != [] && !CanWrite(cfg, s.child)
    ensures s.child.Pipe(s.child.todo[0]).read < s.child.Pipe(s.child.todo[0]).written
    ensures s.child.Pipe(s.child.todo[0]).read < PipeOf(cfg, s.child.todo[0]).taken
    ensures !s.Emitter(s.child.todo[0]).Returned?
  {
    hide TextsOf, Texts, CommandLine, ReceivedOk, StreamOk, ControlOk, Need;
    var src := s.child.todo[0];
    NextByte(cfg, s);
    if PipeOf(cfg, src).failure.Some? && s.Emitter(src).Returned? {
      FailedHasRead(cfg, s, src);
    }
  }

  /** The emitter that has to move, because the child is blocked on its pipe or is gone, can. */
  lemma EmitterMoves(cfg: Config, s: State, src: Source)
    requires Inv(cfg, s) && !s.main.SendCommand? && !s.main.Spawning? && !s.Emitter(src).Returned?
    requires !s.consumer.Left? || !Owes(cfg, s, src)
    requires s.child.alive ==> s.child.Pipe(src).read < s.child.Pipe(src).written &&
                               s.child.Pipe(src).read < PipeOf(cfg, src).taken
    ensures Enabled(cfg, s, EmitterStep(cfg, s, src))
    ensures var a := EmitterStep(cfg, s, src); !IsHeartbeat(a) && !a.Reap? && !a.Leave?
  {
    hide Texts, TextsOf, CommandLine, ReceivedOk, StreamOk, Valid;
    if !s.child.alive {
      AllWritten(cfg, s, src);
    }
  }

  /** No goroutine but an emitter, nor the child, can be what an unfinished state waits for. */
  lemma NextStepCan(cfg: Config, s: State, exit: Exit)
    requires Inv(cfg, s) && Fits(cfg)
    requires if s.consumer.Left? then !SendPending(cfg, s) && !s.main.Exited? else !AllFinished(s)
    ensures Enabled(cfg, s, NextStep(cfg, s, exit)) && !IsHeartbeat(NextStep(cfg, s, exit))
    ensures !NextStep(cfg, s, exit).Leave? && (NextStep(cfg, s, exit).Reap? ==> NextStep(cfg, s, exit).exit == exit)
  {
    hide Texts, TextsOf, CommandLine, ReceivedOk, StreamOk, PipeOk, Fits, Valid, EmitterStep, WantsMore, AtEnd;
    if !s.main.SendCommand? && !s.main.Spawning? {
      if s.child.alive && s.child.todo != [] && !CanWrite(cfg, s.child) {
        BlockedOnReader(cfg, s);
        EmitterMoves(cfg, s, s.child.todo[0]);
      } else if !s.child.alive && !s.stdout.Returned? {
        EmitterMoves(cfg, s, Stdout);
      } else if !s.child.alive && !s.stderr.Returned? {
        EmitterMoves(cfg, s, Stderr);
      }
    }
  }

  /** With nothing left to send, a step other than a heartbeat sends nothing. */
  lemma NothingSent(cfg: Config, s: State, a: Action)
    requires Inv(cfg, s) && Enabled(cfg, s, a) && !IsHeartbeat(a) && !SendPending(cfg, s)
    ensures !SendPending(cfg, Apply(cfg, s, a)) && Apply(cfg, s, a).received == s.received
  {
    hide Texts, TextsOf, CommandLine, ReceivedOk, StreamOk, PipeOk, Valid, WantsMore, AtEnd, ChildCan, ChildAfter;
  }

  lemma StillReceives(cfg: Config, s: State, a: Action)
    requires Enabled(cfg, s, a) && !a.Leave? && !s.consumer.Left?
    ensures !Apply(cfg, s, a).consumer.Left?
  {
    hide Texts, CommandLine, Valid, WantsMore, AtEnd, ChildCan, ChildAfter;
  }

  lemma ExitStays(cfg: Config, s: State, a: Action, exit: Exit)
    requires Inv(cfg, s) && Enabled(cfg, s, a) && ExitAgrees(s, exit) && (a.Reap? ==> a.exit == exit)
    ensures ExitAgrees(Apply(cfg, s, a), exit)
  {
    hide Texts, TextsOf, CommandLine, ReceivedOk, StreamOk, PipeOk, Valid, WantsMore, AtEnd, ChildCan, ChildAfter;
  }

  /**
   While the consumer keeps receiving, no unfinished state is stuck, not even without heartbeats, if what a
   failed scanner leaves unread fits into its pipe.
   */
  lemma NeverStuck(cfg: Config, s: State, exit: Exit)
    requires Inv(cfg, s) && Fits(cfg) && !s.consumer.Left? && !AllFinished(s)
    ensures Enabled(cfg, s, NextStep(cfg, s, exit)) && !IsHeartbeat(NextStep(cfg, s, exit))
    ensures !Apply(cfg, s, NextStep(cfg, s, exit)).consumer.Left?
    ensures ExitAgrees(s, exit) ==> ExitAgrees(Apply(cfg, s, NextStep(cfg, s, exit)), exit)
    ensures var t := Apply(cfg, s, NextStep(cfg, s, exit));
            !SendPending(cfg, s) ==> !SendPending(cfg, t) && t.received == s.received
  {
    hide Inv, Enabled, Apply, Fits, NextStep, IsHeartbeat, ExitAgrees, SendPending;
    NextStepCan(cfg, s, exit);
    var a := NextStep(cfg, s, exit);
    StillReceives(cfg, s, a);
    if ExitAgrees(s, exit) {
      ExitStays(cfg, s, a, exit);
    }
    if !SendPending(cfg, s) {
      NothingSent(cfg, s, a);
    }
  }

  lemma FinalExit(cfg: Config, s: State)
    requires Inv(cfg, s) && AllFinished(s)
    ensures s.consumer.exit == s.waiter.exit
  {}

  /** Then a consumer that keeps receiving can see the command through to its end from every reachable state. */
  lemma {:induction false} CanFinish(cfg: Config, s: State, exit: Exit) returns (acts: seq<Action>)
    requires Inv(cfg, s) && Fits(cfg) && !s.consumer.Left?
    ensures Run(cfg, s, acts).Some? && AllFinished(Run(cfg, s, acts).value)
    ensures |acts| <= Work(cfg, s)
    ensures var t := Run(cfg, s, acts).value;
            ExitAgrees(s, exit) && !SendPending(cfg, s) ==> t.received == s.received && t.consumer == Got(exit)
    decreases Work(cfg, s)
  {
    hide Inv, Enabled, Apply, Work, NextStep, IsHeartbeat, SendPending, Fits;
    if AllFinished(s) {
      acts := [];
      WorkNonNegative(cfg, s);
      FinalExit(cfg, s);
    } else {
      NeverStuck(cfg, s, exit);
      WorkNonNegative(cfg, s);
      var a := NextStep(cfg, s, exit);
      WorkDecreases(cfg, s, a);
      InvStep(cfg, s, a);
      var rest := CanFinish(cfg, Apply(cfg, s, a), exit);
      acts := [a] + rest;
      assert acts[1..] == rest;
    }
  }

  /** A child with more to write than a failed scanner's pipe holds is never able to exit. */
  lemma StaysAlive(cfg: Config, s: State)
    requires Inv(cfg, s) && !Fits(cfg)
    ensures s.child.alive && s.child.todo != []
  {
    hide Texts, ReceivedOk, StreamOk, Valid;
  }

  /**
   The exact condition: from every reachable state in which the consumer still receives the command can
   finish if and only if no failed scanner leaves more unread than its pipe holds.
   */
  lemma CanFinishIff(cfg: Config, acts: seq<Action>, s: State)
    requires Reaches(cfg, acts, s) && !s.consumer.Left?
    ensures (exists more :: Run(cfg, s, more).Some? && AllFinished(Run(cfg, s, more).value)) <==> Fits(cfg)
  {
    hide Inv, Enabled, Apply, Fits;
    ReachableInv(cfg, acts, s);
    if Fits(cfg) {
      var more := CanFinish(cfg, s, None);
    } else {
      forall more | Run(cfg, s, more).Some? ensures !AllFinished(Run(cfg, s, more).value) {
        InvAlways(cfg, s, more);
        WaiterNeedsExit(cfg, Run(cfg, s, more).value);
      }
    }
  }

  lemma WaiterNeedsExit(cfg: Config, s: State)
    requires Inv(cfg, s) && !Fits(cfg)
    ensures !s.waiter.Finished?
  {
    hide Fits;
    StaysAlive(cfg, s);
  }

  /** Nothing but heartbeats can happen any more, unless the consumer leaves. */
  ghost predicate OnlyBeats(cfg: Config, s: State) {
    !s.consumer.Left? && forall a :: Enabled(cfg, s, a) ==> IsHeartbeat(a) || a.Leave?
  }

  lemma {:induction false} RunsDry(cfg: Config, s: State) returns (acts: seq<Action>)
    requires Inv(cfg, s) && !s.consumer.Left?
    ensures Run(cfg, s, acts).Some? && OnlyBeats(cfg, Run(cfg, s, acts).value)
    decreases Work(cfg, s)
  {
    hide Inv, Enabled, Apply, Work, IsHeartbeat;
    if a :| Enabled(cfg, s, a) && !IsHeartbeat(a) && !a.Leave? {
      WorkNonNegative(cfg, s);
      WorkDecreases(cfg, s, a);
      InvStep(cfg, s, a);
      StillReceives(cfg, s, a);
      var rest := RunsDry(cfg, Apply(cfg, s, a));
      acts := [a] + rest;
      assert acts[1..] == rest;
    } else {
      acts := [];
    }
  }

  /** What the failure looks like: the consumer ends up in a state where it receives heartbeats for ever. */
  lemma OverfullHangs(cfg: Config) returns (acts: seq<Action>, s: State)
    requires !Fits(cfg)
    ensures Reaches(cfg, acts, s) && OnlyBeats(cfg, s) && !AllFinished(s)
  {
    hide Inv, Enabled, Apply, Fits, OnlyBeats;
    assert Run(cfg, Initial(cfg), []) == Some(Initial(cfg));
    ReachableInv(cfg, [], Initial(cfg));
    acts := RunsDry(cfg, Initial(cfg));
    s := Run(cfg, Initial(cfg), acts).value;
    ReachableInv(cfg, acts, s);
    WaiterNeedsExit(cfg, s);
  }

  const PIPE_CAPACITY: nat := 65_536
  const MAX_TOKEN_SIZE: nat := 1_048_576

  /** So many bytes for one source. */
  function Burst(src: Source, n: int): (bytes: seq<Source>)
    ensures |bytes| == if n > 0 then n else 0
  {
    if n > 0 then seq(n, i => src) else []
  }

  lemma {:induction false} CountBurst(src: Source, n: int, other: Source)
    requires n >= 0
    ensures Count(Burst(src, n), other) == if other == src then n else 0
  {
    if n > 0 {
      assert Burst(src, n)[1..] == Burst(src, n - 1);
      CountBurst(src, n - 1, other);
    }
  }

  /** A child that writes one line of this length and nothing else; the scanner gives up at its largest token. */
  function LongLine(argv: seq<string>, error: string, length: nat): Setup {
    Setup(argv, Pipe([], [], Some(error), MAX_TOKEN_SIZE), Pipe([], [], None, 0), Burst(Stdout, length),
          PIPE_CAPACITY)
  }

  /** Such a command finishes if and only if the rest of the line fits into the pipe. */
  lemma LongLineFinishesIff(argv: seq<string>, error: string, length: nat)
    requires length >= 1_048_576
    ensures Valid(LongLine(argv, error, length))
    ensures (exists acts, s :: Reaches(LongLine(argv, error, length), acts, s) && AllFinished(s)) <==>
            length <= 1_048_576 + 65_536
  {
    CountBurst(Stdout, length, Stdout);
    CountBurst(Stdout, length, Stderr);
    var cfg: Config := LongLine(argv, error, length);
    hide Reaches, AllFinished, Initial, Enabled, Apply;
    LongLineFits(cfg, argv, error, length);
    FinishesAtAllIff(cfg);
  }

  lemma LongLineFits(cfg: Config, argv: seq<string>, error: string, length: nat)
    requires cfg == LongLine(argv, error, length) && length >= MAX_TOKEN_SIZE
    ensures Fits(cfg) <==> length <= MAX_TOKEN_SIZE + PIPE_CAPACITY
  {
    CountBurst(Stdout, length, Stdout);
    CountBurst(Stdout, length, Stderr);
  }

  lemma FinishesAtAllIff(cfg: Config)
    ensures (exists acts, s :: Reaches(cfg, acts, s) && AllFinished(s)) <==> Fits(cfg)
  {
    hide Enabled, Apply, Fits, AllFinished;
    var start := Initial(cfg);
    assert Reaches(cfg, [], start);
    CanFinishIff(cfg, [], start);
    if more :| Run(cfg, start, more).Some? && AllFinished(Run(cfg, start, more).value) {
      assert Reaches(cfg, more, Run(cfg, start, more).value);
    }
  }

  // ---------------------------------------------------------------- a consumer that leaves

  predicate GoroutinesEnded(s: State) {
    s.main.Exited? && s.stdout.Returned? && s.stderr.Returned? && s.waiter.Finished?
  }

  lemma LeftStep(cfg: Config, s: State, a: Action)
    requires Inv(cfg, s) && s.consumer.Left? && Enabled(cfg, s, a)
    ensures Apply(cfg, s, a).consumer.Left?
    ensures SendPending(cfg, s) <==> SendPending(cfg, Apply(cfg, s, a))
  {
    hide Texts, TextsOf, CommandLine, ReceivedOk, StreamOk, PipeOk, Valid, WantsMore, AtEnd, ChildCan, ChildAfter;
  }

  lemma {:induction false} LeakForever(cfg: Config, s: State, acts: seq<Action>)
    requires Inv(cfg, s) && s.consumer.Left? && SendPending(cfg, s) && Run(cfg, s, acts).Some?
    ensures !GoroutinesEnded(Run(cfg, s, acts).value)
    decreases |acts|
  {
    hide Enabled, Apply, Texts, StreamOk, ReceivedOk;
    if acts != [] {
      LeftStep(cfg, s, acts[0]);
      InvStep(cfg, s, acts[0]);
      LeakForever(cfg, Apply(cfg, s, acts[0]), acts[1..]);
    }
  }

  /** The client was gone when the first line was written to it. */
  function LeftEarly(cfg: Config): State {
    Initial(cfg).(main := Spawning, received := [Command(CommandLine(cfg))], consumer := Left)
  }

  /** It happens: if the first write fails and the command prints anything, its goroutines never all end. */
  lemma EarlyLeaveLeaks(cfg: Config, src: Source, more: seq<Action>)
    requires Texts(cfg, src) != []
    ensures Reaches(cfg, [SendCommandLine, Leave], LeftEarly(cfg))
    ensures LeftEarly(cfg).consumer.Left? && SendPending(cfg, LeftEarly(cfg))
    ensures Run(cfg, LeftEarly(cfg), more).Some? ==> !GoroutinesEnded(Run(cfg, LeftEarly(cfg), more).value)
  {
    hide Texts, CommandLine, Valid;
    var start, left := Initial(cfg), LeftEarly(cfg);
    var said := Apply(cfg, start, SendCommandLine);
    assert [] + [Command(CommandLine(cfg))] == [Command(CommandLine(cfg))];
    assert Apply(cfg, said, Leave) == left;
    assert [SendCommandLine, Leave][1..] == [Leave] && [Leave][1..] == [];
    assert Run(cfg, start, [SendCommandLine, Leave]) == Run(cfg, said, [Leave]) == Run(cfg, left, []) == Some(left);
    assert Owes(cfg, left, src);
    ReachableInv(cfg, [SendCommandLine, Leave], left);
    if Run(cfg, left, more).Some? {
      LeakForever(cfg, left, more);
    }
  }

  lemma {:induction false} LeftCanEnd(cfg: Config, s: State, exit: Exit) returns (acts: seq<Action>)
    requires Inv(cfg, s) && Fits(cfg) && s.consumer.Left? && !SendPending(cfg, s)
    ensures Run(cfg, s, acts).Some? && GoroutinesEnded(Run(cfg, s, acts).value)
    decreases Work(cfg, s)
  {
    if s.main.Exited? {
      acts := [];
    } else {
      hide Inv, Enabled, Apply, Work, NextStep, IsHeartbeat, SendPending, Fits;
      NextStepCan(cfg, s, exit);
      WorkNonNegative(cfg, s);
      var a := NextStep(cfg, s, exit);
      WorkDecreases(cfg, s, a);
      LeftStep(cfg, s, a);
      InvStep(cfg, s, a);
      var rest := LeftCanEnd(cfg, Apply(cfg, s, a), exit);
      acts := [a] + rest;
      assert acts[1..] == rest;
    }
  }

  /**
   When the consumer stops reading, the goroutines can still all end exactly if nothing but heartbeats
   remains to be sent and the child is able to exit. Otherwise they stay blocked in every continuation.
   */
  lemma EndsAfterLeaveIff(cfg: Config, acts: seq<Action>, s: State)
    requires Reaches(cfg, acts, s) && s.consumer.Left?
    ensures (exists more :: Run(cfg, s, more).Some? && GoroutinesEnded(Run(cfg, s, more).value))
            <==> !SendPending(cfg, s) && Fits(cfg)
  {
    hide Inv, Enabled, Apply, SendPending, Fits;
    ReachableInv(cfg, acts, s);
    if SendPending(cfg, s) {
      forall more | Run(cfg, s, more).Some? ensures !GoroutinesEnded(Run(cfg, s, more).value) {
        LeakForever(cfg, s, more);
      }
    } else if !Fits(cfg) {
      forall more | Run(cfg, s, more).Some? ensures !GoroutinesEnded(Run(cfg, s, more).value) {
        InvAlways(cfg, s, more);
        WaiterNeedsExit(cfg, Run(cfg, s, more).value);
      }
    } else {
      var more := LeftCanEnd(cfg, s, None);
    }
  }

  // ---------------------------------------------------------------- what the consumer gets

  /** w is a merge of a and b that keeps the order of each. */
  ghost predicate Interleaves(w: seq<string>, a: seq<string>, b: seq<string>)
    decreases |w|
  {
    if w == [] then a == [] && b == []
    else
      var n := |w| - 1;
      || (a != [] && a[|a| - 1] == w[n] && Interleaves(w[..n], a[..|a| - 1], b))
      || (b != [] && b[|b| - 1] == w[n] && Interleaves(w[..n], a, b[..|b| - 1]))
  }

  function ItemText(item: Item): string {
    match item
    case Command(text) => text
    case Line(_, text) => text
    case Beat => HEARTBEAT
  }

  /** The texts that `range lines` yields. */
  function Yielded(items: seq<Item>): seq<string> {
    if items == [] then [] else Yielded(items[..|items| - 1]) + [ItemText(items[|items| - 1])]
  }

  /** The texts of the items that are output lines, from either source. */
  function LineTexts(items: seq<Item>): seq<string> {
    if items == [] then []
    else
      var last, rest := items[|items| - 1], LineTexts(items[..|items| - 1]);
      if last.Line? then rest + [last.text] else rest
  }

  lemma {:induction false} ProjectionsInterleave(items: seq<Item>)
    ensures Interleaves(LineTexts(items), TextsOf(items, Stdout), TextsOf(items, Stderr))
  {
    if items != [] {
      var n := |items| - 1;
      ProjectionsInterleave(items[..n]);
      var last := items[n];
      if last.Line? {
        var src := last.source;
        assert LineTexts(items) == LineTexts(items[..n]) + [last.text];
        assert TextsOf(items, src) == TextsOf(items[..n], src) + [last.text];
        assert LineTexts(items)[..|LineTexts(items)| - 1] == LineTexts(items[..n]);
        assert TextsOf(items, src)[..|TextsOf(items, src)| - 1] == TextsOf(items[..n], src);
        var other := if src.Stdout? then Stderr else Stdout;
        assert TextsOf(items, other) == TextsOf(items[..n], other);
      }
    }
  }

  /**
   When the consumer has the exit status it has received the command line first, and then, heartbeats
   aside, every text of stdout and of stderr, each in order and none twice; and the status is the one
   that cmd.Wait reported.
   */
  lemma DrainedIsInterleaving(cfg: Config, acts: seq<Action>, s: State)
    requires Reaches(cfg, acts, s) && s.consumer.Got?
    ensures s.received != [] && s.received[0] == Command(CommandLine(cfg))
    ensures forall i :: 1 <= i < |s.received| ==> !s.received[i].Command?
    ensures Interleaves(LineTexts(s.received), Texts(cfg, Stdout), Texts(cfg, Stderr))
    ensures TextsOf(s.received, Stdout) == cfg.stdout.lines +
              if cfg.stdout.failure.Some? then ["log stream error: " + cfg.stdout.failure.value] else []
    ensures TextsOf(s.received, Stderr) == cfg.stderr.lines +
              if cfg.stderr.failure.Some? then ["log stream error: " + cfg.stderr.failure.value] else []
    ensures s.waiter == Finished(s.consumer.exit) && AllFinished(s)
  {
    hide Texts, TextsOf, CommandLine, Interleaves;
    PipeTexts(cfg);
    ReachableInv(cfg, acts, s);
    ProjectionsInterleave(s.received);
    var a, b := Texts(cfg, Stdout), Texts(cfg, Stderr);
    assert a[..|a|] == a && b[..|b|] == b;
  }

  // ---------------------------------------------------------------- every interleaving happens

  predicate AllLines(items: seq<Item>) {
    forall i :: 0 <= i < |items| ==> items[i].Line?
  }

  lemma RunSnoc(cfg: Config, s: State, acts: seq<Action>, t: State, a: Action)
    requires Run(cfg, s, acts) == Some(t) && Enabled(cfg, t, a)
    ensures Run(cfg, s, acts + [a]) == Some(Apply(cfg, t, a))
  {
    hide Enabled, Apply;
    RunConcat(cfg, s, acts, [a]);
    assert [a][1..] == [];
  }

  lemma {:induction false} TextsOfPrefix(items: seq<Item>, k: nat, src: Source)
    requires k <= |items|
    ensures TextsOf(items[..k], src) <= TextsOf(items, src)
    decreases |items|
  {
    if k == |items| {
      assert items[..k] == items;
    } else {
      var front := items[..|items| - 1];
      assert front[..k] == items[..k];
      TextsOfPrefix(front, k, src);
    }
  }

  /** The bytes read of a source when n of its texts are out and no more than needed was read. */
  function Level(cfg: Config, src: Source, n: nat): (bytes: nat)
    ensures bytes <= PipeOf(cfg, src).taken <= Count(cfg.script, src)
  {
    if n == 0 || n > |Texts(cfg, src)| then 0 else Need(cfg, src, n - 1)
  }

  lemma LevelsRise(cfg: Config, src: Source, n: nat)
    requires n < |Texts(cfg, src)|
    ensures Level(cfg, src, n) <= Level(cfg, src, n + 1) == Need(cfg, src, n)
  {}

  /** A script that writes just what each item from the k-th on needs, in their order, and the rest at the end. */
  function ScriptFrom(cfg: Config, w: seq<Item>, k: nat): seq<Source>
    requires k <= |w| && AllLines(w)
    decreases |w| - k
  {
    if k == |w| then
      Burst(Stdout, Count(cfg.script, Stdout) - Level(cfg, Stdout, |TextsOf(w, Stdout)|)) +
      Burst(Stderr, Count(cfg.script, Stderr) - Level(cfg, Stderr, |TextsOf(w, Stderr)|))
    else
      var src := w[k].source;
      var n := |TextsOf(w[..k], src)|;
      Burst(src, Level(cfg, src, n + 1) - Level(cfg, src, n)) + ScriptFrom(cfg, w, k + 1)
  }

  lemma {:induction false} CountConcat(a: seq<Source>, b: seq<Source>, src: Source)
    ensures Count(a + b, src) == Count(a, src) + Count(b, src)
  {
    if a == [] {
      assert a + b == b;
    } else {
      assert (a + b)[1..] == a[1..] + b;
      CountConcat(a[1..], b, src);
    }
  }

  /** The script writes as many bytes to each pipe as the original one. */
  lemma {:induction false} ScriptCount(cfg: Config, w: seq<Item>, k: nat, src: Source)
    requires k <= |w| && AllLines(w)
    requires TextsOf(w, Stdout) == Texts(cfg, Stdout) && TextsOf(w, Stderr) == Texts(cfg, Stderr)
    ensures Count(ScriptFrom(cfg, w, k), src) == Count(cfg.script, src) - Level(cfg, src, |TextsOf(w[..k], src)|)
    decreases |w| - k
  {
    hide Texts, TextsOf, Count, Level, Valid;
    if k == |w| {
      assert w[..k] == w;
      var a := Count(cfg.script, Stdout) - Level(cfg, Stdout, |TextsOf(w, Stdout)|);
      var b := Count(cfg.script, Stderr) - Level(cfg, Stderr, |TextsOf(w, Stderr)|);
      CountConcat(Burst(Stdout, a), Burst(Stderr, b), src);
      CountBurst(Stdout, a, src);
      CountBurst(Stderr, b, src);
    } else {
      var from := w[k].source;
      var n := |TextsOf(w[..k], from)|;
      MidTexts(w, k);
      LevelsRise(cfg, from, n);
      var d := Level(cfg, from, n + 1) - Level(cfg, from, n);
      ScriptCount(cfg, w, k + 1, src);
      CountConcat(Burst(from, d), ScriptFrom(cfg, w, k + 1), src);
      CountBurst(from, d, src);
    }
  }

  /** It depends on the original one only through those numbers. */
  lemma {:induction false} SameScript(c: Config, d: Config, w: seq<Item>, k: nat)
    requires k <= |w| && AllLines(w) && c.stdout == d.stdout && c.stderr == d.stderr
    requires Count(c.script, Stdout) == Count(d.script, Stdout) && Count(c.script, Stderr) == Count(d.script, Stderr)
    ensures ScriptFrom(c, w, k) == ScriptFrom(d, w, k)
    decreases |w| - k
  {
    hide TextsOf, Count, Valid, Burst;
    if k < |w| {
      SameScript(c, d, w, k + 1);
    }
  }

  /** The state in which exactly the first k items of w have been received, and no more read than they need. */
  function Mid(cfg: Config, w: seq<Item>, k: nat): State
    requires k <= |w| && AllLines(w)
  {
    var i, j := |TextsOf(w[..k], Stdout)|, |TextsOf(w[..k], Stderr)|;
    BothScanning(ScriptFrom(cfg, w, k), Level(cfg, Stdout, i), Level(cfg, Stderr, j), i, j,
                 [Command(CommandLine(cfg))] + w[..k])
  }

  /** Both emitters are scanning, all that was written has been read, and i and j texts are out. */
  function BothScanning(todo: seq<Source>, a: nat, b: nat, i: nat, j: nat, received: seq<Item>): State {
    State(Child(todo, true, Buffer(a, a), Buffer(b, b)), Looping, Scanning(i), Scanning(j), 2, Waiting, [],
          false, false, false, Ranging, received)
  }

  /** The state after the child has written a byte and the scanner has read it. */
  function Passed(s: State, src: Source, n: nat, todo: seq<Source>): State {
    s.(child := s.child.WithPipe(src, Buffer(n, n)).(todo := todo))
  }

  lemma PassOne(cfg: Config, s: State, src: Source, x: nat)
    requires s.child.alive && s.child.todo != [] && s.child.todo[0] == src && s.child.Pipe(src) == Buffer(x, x)
    requires s.Emitter(src).Scanning? && s.Emitter(src).next < |Texts(cfg, src)|
    requires x < Need(cfg, src, s.Emitter(src).next)
    ensures Enabled(cfg, s, Write) && Enabled(cfg, Apply(cfg, s, Write), Fill(src, x + 1))
    ensures Apply(cfg, Apply(cfg, s, Write), Fill(src, x + 1)) == Passed(s, src, x + 1, s.child.todo[1..])
  {
    hide Texts;
  }

  lemma {:induction false} Pass(cfg: Config, s: State, src: Source, x: nat, d: nat, rest: seq<Source>)
    returns (acts: seq<Action>)
    requires s.child.alive && s.child.todo == Burst(src, d) + rest && s.child.Pipe(src) == Buffer(x, x)
    requires s.Emitter(src).Scanning? && s.Emitter(src).next < |Texts(cfg, src)|
    requires x + d <= Need(cfg, src, s.Emitter(src).next)
    ensures Run(cfg, s, acts) == Some(Passed(s, src, x + d, rest))
    decreases d
  {
    hide Texts, Need, Valid, Enabled, Apply;
    if d == 0 {
      acts := [];
      assert Burst(src, d) + rest == rest;
    } else {
      PassOne(cfg, s, src, x);
      var t := Passed(s, src, x + 1, s.child.todo[1..]);
      assert s.child.todo[1..] == Burst(src, d - 1) + rest;
      var more := Pass(cfg, t, src, x + 1, d - 1, rest);
      var u := Apply(cfg, s, Write);
      acts := [Write] + ([Fill(src, x + 1)] + more);
      assert ([Fill(src, x + 1)] + more)[1..] == more && acts[1..] == [Fill(src, x + 1)] + more;
      assert Run(cfg, u, [Fill(src, x + 1)] + more) == Run(cfg, t, more);
    }
  }

  lemma ScanAndSend(cfg: Config, m: State, src: Source)
    requires m.Emitter(src).Scanning? && m.Emitter(src).next < |Texts(cfg, src)| && m.consumer.Ranging?
    requires Need(cfg, src, m.Emitter(src).next) <= m.child.Pipe(src).read
    ensures var n := m.Emitter(src).next;
            && Enabled(cfg, m, Scan(src))
            && Enabled(cfg, Apply(cfg, m, Scan(src)), Send(src))
            && Apply(cfg, Apply(cfg, m, Scan(src)), Send(src)) ==
               m.WithEmitter(src, Scanning(n + 1)).(received := m.received + [Line(src, Texts(cfg, src)[n])])
  {
    hide Texts;
  }

  lemma MidTexts(w: seq<Item>, k: nat)
    requires k < |w| && AllLines(w)
    ensures var src, n := w[k].source, |TextsOf(w[..k], w[k].source)|;
            && n < |TextsOf(w, src)| && TextsOf(w, src)[n] == w[k].text
            && |TextsOf(w[..k + 1], src)| == n + 1
            && (forall other :: other != src ==> TextsOf(w[..k + 1], other) == TextsOf(w[..k], other))
  {
    hide TextsOf;
    assert w[..k + 1] == w[..k] + [w[k]];
    TextsOfAppend(w[..k], w[k], Stdout);
    TextsOfAppend(w[..k], w[k], Stderr);
    TextsOfPrefix(w, k + 1, w[k].source);
  }

  lemma {:induction false} MidStep(cfg: Config, w: seq<Item>, k: nat) returns (acts: seq<Action>)
    requires k < |w| && AllLines(w)
    requires TextsOf(w, Stdout) == Texts(cfg, Stdout) && TextsOf(w, Stderr) == Texts(cfg, Stderr)
    ensures Run(cfg, Mid(cfg, w, k), acts) == Some(Mid(cfg, w, k + 1))
  {
    hide Texts, TextsOf, CommandLine, Enabled, Apply, Level, Need, Burst, Valid;
    var src, m := w[k].source, Mid(cfg, w, k);
    var n := |TextsOf(w[..k], src)|;
    MidTexts(w, k);
    LevelsRise(cfg, src, n);
    var x, y := Level(cfg, src, n), Level(cfg, src, n + 1);
    acts := Pass(cfg, m, src, x, y - x, ScriptFrom(cfg, w, k + 1));
    var t := Passed(m, src, y, ScriptFrom(cfg, w, k + 1));
    ScanAndSend(cfg, t, src);
    RunSnoc(cfg, m, acts, t, Scan(src));
    acts := acts + [Scan(src)];
    RunSnoc(cfg, m, acts, Apply(cfg, t, Scan(src)), Send(src));
    acts := acts + [Send(src)];
    assert m.received + [w[k]] == [Command(CommandLine(cfg))] + w[..k + 1];
  }

  /** Both emitters have been started and nothing has been written. */
  lemma Started(cfg: Config)
    ensures Reaches(cfg, [SendCommandLine, Spawn],
                    BothScanning(cfg.script, 0, 0, 0, 0, [Command(CommandLine(cfg))]))
  {
    hide Texts, CommandLine, Valid;
    var start := Initial(cfg);
    var said := Apply(cfg, start, SendCommandLine);
    assert said.received == [Command(CommandLine(cfg))];
    assert [SendCommandLine, Spawn][1..] == [Spawn] && [Spawn][1..] == [];
    assert Run(cfg, said, [Spawn]) == Run(cfg, Apply(cfg, said, Spawn), []);
  }

  lemma MidStart(cfg: Config, w: seq<Item>)
    requires AllLines(w) && cfg.script == ScriptFrom(cfg, w, 0)
    ensures Mid(cfg, w, 0) == BothScanning(cfg.script, 0, 0, 0, 0, [Command(CommandLine(cfg))])
  {
    hide Texts, CommandLine, Valid, ScriptFrom;
    assert w[..0] == [];
    assert [Command(CommandLine(cfg))] + [] == [Command(CommandLine(cfg))];
  }

  lemma {:induction false} ReachMid(cfg: Config, w: seq<Item>, k: nat) returns (acts: seq<Action>)
    requires k <= |w| && AllLines(w) && cfg.script == ScriptFrom(cfg, w, 0)
    requires TextsOf(w, Stdout) == Texts(cfg, Stdout) && TextsOf(w, Stderr) == Texts(cfg, Stderr)
    ensures Reaches(cfg, acts, Mid(cfg, w, k))
  {
    hide Enabled, Apply, Mid, Texts, TextsOf, ScriptFrom, BothScanning, Valid, Initial;
    if k == 0 {
      Started(cfg);
      MidStart(cfg, w);
      acts := [SendCommandLine, Spawn];
    } else {
      acts := ReachMid(cfg, w, k - 1);
      var more := MidStep(cfg, w, k - 1);
      RunConcat(cfg, Initial(cfg), acts, more);
      acts := acts + more;
    }
  }

  lemma TagStep(rest: seq<Item>, src: Source, text: string)
    requires AllLines(rest)
    ensures var items := rest + [Line(src, text)];
            && AllLines(items)
            && LineTexts(items) == LineTexts(rest) + [text]
            && TextsOf(items, src) == TextsOf(rest, src) + [text]
            && (forall other :: other != src ==> TextsOf(items, other) == TextsOf(rest, other))
  {
    hide TextsOf;
    var items := rest + [Line(src, text)];
    assert items[..|items| - 1] == rest;
    forall other
      ensures TextsOf(items, other) == if src == other then TextsOf(rest, other) + [text] else TextsOf(rest, other)
    {
      TextsOfAppend(rest, Line(src, text), other);
    }
  }

  /** Items whose texts are a given interleaving of the two sources. */
  lemma {:induction false} TagInterleaving(w: seq<string>, a: seq<string>, b: seq<string>) returns (items: seq<Item>)
    requires Interleaves(w, a, b)
    ensures AllLines(items) && LineTexts(items) == w && TextsOf(items, Stdout) == a && TextsOf(items, Stderr) == b
    decreases |w|
  {
    if w == [] {
      items := [];
    } else {
      hide TextsOf, LineTexts, AllLines;
      var n := |w| - 1;
      assert w[..n] + [w[n]] == w;
      if a != [] && a[|a| - 1] == w[n] && Interleaves(w[..n], a[..|a| - 1], b) {
        var rest := TagInterleaving(w[..n], a[..|a| - 1], b);
        assert a[..|a| - 1] + [w[n]] == a;
        TagStep(rest, Stdout, w[n]);
        items := rest + [Line(Stdout, w[n])];
      } else {
        var rest := TagInterleaving(w[..n], a, b[..|b| - 1]);
        assert b[..|b| - 1] + [w[n]] == b;
        TagStep(rest, Stderr, w[n]);
        items := rest + [Line(Stderr, w[n])];
      }
    }
  }

  /**
   The converse of DrainedIsInterleaving: every interleaving and every exit status is the outcome of some
   schedule with some child that writes the same bytes to the same pipes.
   */
  lemma EveryInterleavingHappens(cfg: Config, w: seq<string>, exit: Exit)
    returns (same: Config, acts: seq<Action>, s: State)
    requires Interleaves(w, Texts(cfg, Stdout), Texts(cfg, Stderr)) && Fits(cfg)
    ensures same == cfg.(script := same.script) && forall src :: Count(same.script, src) == Count(cfg.script, src)
    ensures Reaches(same, acts, s) && s.consumer == Got(exit)
    ensures s.received != [] && LineTexts(s.received[1..]) == w
  {
    hide Texts, Interleaves, Inv, Work, TextsOf, LineTexts, Enabled, Apply, ScriptFrom, Count, Level;
    var items := TagInterleaving(w, Texts(cfg, Stdout), Texts(cfg, Stderr));
    same := Rescripted(cfg, items);
    var first := ReachMid(same, items, |items|);
    assert items[..|items|] == items;
    var mid := Mid(same, items, |items|);
    ReachableInv(same, first, mid);
    var last := CanFinish(same, mid, exit);
    RunConcat(same, Initial(same), first, last);
    acts, s := first + last, Run(same, mid, last).value;
    assert s.received[1..] == items;
  }

  lemma NoTexts()
    ensures forall src :: TextsOf([], src) == []
  {}

  /** The same command with the script for these items. */
  lemma Rescripted(cfg: Config, items: seq<Item>) returns (same: Config)
    requires AllLines(items) && Fits(cfg)
    requires TextsOf(items, Stdout) == Texts(cfg, Stdout) && TextsOf(items, Stderr) == Texts(cfg, Stderr)
    ensures same == cfg.(script := ScriptFrom(same, items, 0)) && Fits(same)
    ensures forall src :: Count(same.script, src) == Count(cfg.script, src)
    ensures forall src :: Texts(same, src) == Texts(cfg, src)
  {
    hide TextsOf, Count;
    assert items[..0] == [];
    assert TextsOf([], Stdout) == [] && TextsOf([], Stderr) == [] by { NoTexts(); }
    ScriptCount(cfg, items, 0, Stdout);
    ScriptCount(cfg, items, 0, Stderr);
    same := cfg.(script := ScriptFrom(cfg, items, 0));
    SameScript(cfg, same, items, 0);
    forall src ensures Count(same.script, src) == Count(cfg.script, src) {
      if src.Stdout? {} else {}
    }
  }
}
