/**
 handleStackActionStream, and the whole pipeline from the compose commands to the lines a browser shows.
 */
module StackActionStream {
  import opened Common
  import opened Text
  import opened Sse
  import SC = StreamCompose

  const START_FAILED: string := "Error: failed to start compose command: "
  const COMMAND_FAILED: string := "Error: compose command failed: "

  const BAD_NAME: string := "invalid stack name"
  const NO_STREAMING: string := "streaming unsupported"
  const NOT_STARTED: string := "failed to start compose command"

  /** What StreamCompose gave for one command: an error at the start, or the drained lines and the exit status. */
  datatype CommandRun = NotStarted(error: string) | Ran(lines: seq<string>, exit: SC.Exit)

  predicate Succeeded(run: CommandRun) {
    run.Ran? && run.exit.None?
  }

  // ---------------------------------------------------------------- the actions

  /** The last part of an action's path and the compose commands it runs. */
  datatype Action = Action(path: string, cmds: seq<seq<string>>)

  const UP_ARGS: seq<string> := ["up", "-d", "--remove-orphans", "--build"]

  const STACK_ACTIONS: seq<Action> := [
    Action("up", [UP_ARGS]),
    Action("stop", [["stop"]]),
    Action("down", [["down"]]),
    Action("restart", [["restart"]]),
    Action("pull", [["pull"]]),
    Action("update", [["pull", "--ignore-buildable"], ["up", "-d", "--remove-orphans"]])
  ]

  predicate InvalidatesDigests(action: Action) {
    action.path == "pull" || action.path == "update"
  }

  /** One of the commands fetches images. */
  ghost predicate Pulls(action: Action) {
    exists i :: 0 <= i < |action.cmds| && action.cmds[i] != [] && action.cmds[i][0] == "pull"
  }

  /** The actions of the table that invalidate are those that pull: the first four do not, the last two do. */
  lemma TableInvalidates(action: Action)
    requires action in STACK_ACTIONS
    ensures Pulls(action) <==> action.path == "pull" || action.path == "update"
    ensures action.path in {"up", "stop", "down", "restart"} ==> !Pulls(action)
    ensures action.cmds != []
  {
    var k :| 0 <= k < 6 && STACK_ACTIONS[k] == action;
    if k == 4 || k == 5 {
      assert action.cmds[0][0] == "pull";
    }
  }

  // ---------------------------------------------------------------- the HTTP side

  /**
   The response of one request. The first `capacity` writes succeed; the next one fails after it may
   have sent `cut` characters of its text.
   */
  class Response {
    var status: nat
    var eventStream: bool
    var body: string
    var capacity: nat
    const cut: nat

    constructor (capacity: nat, cut: nat)
      ensures status == 200 && !eventStream && body == "" && this.capacity == capacity && this.cut == cut
    {
      status, eventStream, body := 200, false, "";
      this.capacity, this.cut := capacity, cut;
    }

    method Write(text: string) returns (ok: bool)
      modifies this`body, this`capacity
      ensures ok <==> old(capacity) > 0
      ensures ok ==> body == old(body) + text && capacity == old(capacity) - 1
      ensures !ok ==> body == old(body) + UpTo(text, cut) && capacity == 0
    {
      if capacity == 0 {
        body := body + UpTo(text, cut);
        return false;
      }
      body, capacity := body + text, capacity - 1;
      return true;
    }

    method WriteError(status: nat, message: string)
      modifies this`status, this`body
      ensures this.status == status && body == old(body) + ErrorBody(message)
      ensures old(body) == "" ==> body == ErrorBody(message)
    {
      assert "" + ErrorBody(message) == ErrorBody(message);
      this.status := status;
      body := body + ErrorBody(message);
    }
  }

  /** The JSON object of an error answer; the messages below need no escaping. */
  function ErrorBody(message: string): string {
    "{\"error\":\"" + message + "\"}\n"
  }

  function UpTo(text: string, n: nat): string {
    if n < |text| then text[..n] else text
  }

  class Digests {
    var invalidations: nat

    method Invalidate()
      modifies this
      ensures invalidations == old(invalidations) + 1
    {
      invalidations := invalidations + 1;
    }
  }

  // ---------------------------------------------------------------- what is written

  /** The texts of the events for a list of command runs: everything up to and with the first failure. */
  function Events(runs: seq<CommandRun>): seq<string> {
    if runs == [] then []
    else match runs[0]
      case NotStarted(e) => [START_FAILED + e]
      case Ran(lines, Some(e)) => EscapeAll(lines) + [COMMAND_FAILED + e]
      case Ran(lines, None) => EscapeAll(lines) + Events(runs[1..])
  }

  predicate AllSucceeded(runs: seq<CommandRun>) {
    forall i :: 0 <= i < |runs| ==> Succeeded(runs[i])
  }

  lemma {:induction false} FramesSnoc(texts: seq<string>, text: string)
    ensures Frames(texts + [text]) == Frames(texts) + RawFrame(text)
  {
    hide RawFrame;
    if texts == [] {
      assert [text][1..] == [];
      assert Frames([text]) == RawFrame(text) + "";
    } else {
      FramesSnoc(texts[1..], text);
      assert (texts + [text])[1..] == texts[1..] + [text];
    }
  }

  lemma {:induction false} EscapeAllAt(lines: seq<string>, j: nat)
    requires j < |lines|
    ensures EscapeAll(lines[j..]) == [Escape(lines[j])] + EscapeAll(lines[j + 1..])
  {
    hide Escape;
    assert lines[j..][1..] == lines[j + 1..];
  }

  lemma EventsAt(runs: seq<CommandRun>, i: nat)
    requires i < |runs|
    ensures Events(runs[i..]) ==
            match runs[i]
              case NotStarted(e) => ["Error: failed to start compose command: " + e]
              case Ran(lines, Some(e)) => EscapeAll(lines) + ["Error: compose command failed: " + e]
              case Ran(lines, None) => EscapeAll(lines) + Events(runs[i + 1..])
  {
    hide EscapeAll;
    assert runs[i..][1..] == runs[i + 1..];
  }

  /** The body after the first k events of a list, all written in full. */
  ghost predicate Sent(w: Response, capacity: nat, texts: seq<string>, k: nat)
    reads w
  {
    k <= |texts| && w.body == Frames(texts[..k]) && w.capacity == capacity - k
  }

  /** The body when the write of event k has failed. */
  ghost predicate Broken(w: Response, capacity: nat, texts: seq<string>)
    reads w
  {
    capacity < |texts| && w.body == Frames(texts[..capacity]) + UpTo(RawFrame(texts[capacity]), w.cut)
  }

  method WriteEvent(w: Response, ghost capacity: nat, ghost texts: seq<string>, ghost k: nat, text: string)
    returns (ok: bool)
    requires Sent(w, capacity, texts, k) && k < |texts| && texts[k] == text
    modifies w`body, w`capacity
    ensures ok ==> Sent(w, capacity, texts, k + 1)
    ensures !ok ==> Broken(w, capacity, texts)
  {
    hide Frames;
    ok := w.Write(PREFIX + text + SEPARATOR);
    FramesSnoc(texts[..k], text);
    assert texts[..k] + [text] == texts[..k + 1];
  }

  /** The inner loop: every line of one command, escaped and framed. */
  method WriteLines(w: Response, ghost capacity: nat, ghost texts: seq<string>, ghost start: nat,
                    lines: seq<string>, ghost tail: seq<string>)
    returns (ok: bool, ghost k: nat)
    requires Sent(w, capacity, texts, start) && texts[start..] == EscapeAll(lines) + tail
    modifies w`body, w`capacity
    ensures ok ==> Sent(w, capacity, texts, k) && texts[k..] == tail
    ensures !ok ==> Broken(w, capacity, texts)
  {
    hide Frames, EscapeAll, Escape, RawFrame;
    k := start;
    assert lines[0..] == lines;
    for j := 0 to |lines|
      invariant Sent(w, capacity, texts, k) && texts[k..] == EscapeAll(lines[j..]) + tail
    {
      EscapeAllAt(lines, j);
      assert texts[k..][0] == texts[k];
      ok := WriteEvent(w, capacity, texts, k, Escape(lines[j]));
      if !ok { return; }
      assert texts[k + 1..] == texts[k..][1..];
      k := k + 1;
    }
    NothingWritten();
    ok := true;
  }

  /** What the loop over the commands leaves when the first of them, if any, could be started. */
  twostate predicate Streamed(w: Response, runs: seq<CommandRun>)
    reads w
  {
    && w.status == old(w.status)
    && (if runs == [] then w.eventStream == old(w.eventStream) else w.eventStream)
    && (if |Events(runs)| <= old(w.capacity) then w.body == Frames(Events(runs))
        else Broken(w, old(w.capacity), Events(runs)))
  }

  /** The loop over the commands. */
  method StreamCommands(action: Action, runs: seq<CommandRun>, w: Response, digests: Digests)
    requires w.body == ""
    modifies w, digests
    ensures runs != [] && runs[0].NotStarted? ==>
              w.status == 500 && w.body == ErrorBody(NOT_STARTED) && w.eventStream == old(w.eventStream)
    ensures runs == [] || runs[0].Ran? ==> Streamed(w, runs)
    ensures digests.invalidations == old(digests.invalidations) +
              if AllSucceeded(runs) && |Events(runs)| <= old(w.capacity) && InvalidatesDigests(action) then 1 else 0
  {
    hide Frames, Events, EscapeAll, Escape, RawFrame, ErrorBody;
    ghost var texts, capacity := Events(runs), w.capacity;
    ghost var k: nat := 0;
    assert runs[0..] == runs;
    assert texts[0..] == texts;
    assert Frames(texts[..0]) == "" by { NothingWritten(); }
    var headersSet := false;
    for i := 0 to |runs|
      invariant headersSet == (i > 0) && w.eventStream == (i > 0 || old(w.eventStream))
      invariant w.status == old(w.status) && digests.invalidations == old(digests.invalidations)
      invariant i == 0 ==> w.body == ""
      invariant Sent(w, capacity, texts, k) && texts[k..] == Events(runs[i..])
      invariant forall h :: 0 <= h < i ==> Succeeded(runs[h])
    {
      EventsAt(runs, i);
      if runs[i].NotStarted? {
        if !headersSet {
          w.WriteError(500, NOT_STARTED);
          return;
        }
        assert texts[k..][0] == texts[k];
        var ok := WriteEvent(w, capacity, texts, k, START_FAILED + runs[i].error);
        assert texts[..k + 1] == texts;
        return;
      }
      if !headersSet {
        w.eventStream := true;
        headersSet := true;
      }
      ghost var tail := if runs[i].exit.Some? then [COMMAND_FAILED + runs[i].exit.value] else Events(runs[i + 1..]);
      var ok;
      ok, k := WriteLines(w, capacity, texts, k, runs[i].lines, tail);
      if !ok { return; }
      if runs[i].exit.Some? {
        assert texts[k..][0] == texts[k];
        ok := WriteEvent(w, capacity, texts, k, COMMAND_FAILED + runs[i].exit.value);
        assert texts[..k + 1] == texts;
        return;
      }
    }
    assert texts[k..] == [] by { assert runs[|runs|..] == []; NothingWritten(); }
    assert texts[..k] == texts;
    if InvalidatesDigests(action) {
      digests.Invalidate();
    }
  }

  /**
   The handler. Its inputs are the validity of the stack name, whether the writer can flush, the action
   and what StreamCompose gives for each of its commands.

   It answers with an error, or writes exactly the events of the runs, or the part that fits when the client
   goes away; and it invalidates the digest cache, once, exactly when every command succeeded, every event was
   written and the action is `pull` or `update`: of the actions of the table, one with a command that pulls.
   */
  method HandleStackActionStream(nameOk: bool, canFlush: bool, action: Action, runs: seq<CommandRun>,
                                 w: Response, digests: Digests)
    requires w.body == "" && |runs| == |action.cmds|
    modifies w, digests
    ensures !nameOk ==> w.status == 400 && w.body == "{\"error\":\"" + "invalid stack name" + "\"}\n"
    ensures nameOk && !canFlush ==> w.status == 500 && w.body == "{\"error\":\"" + "streaming unsupported" + "\"}\n"
    ensures nameOk && canFlush && runs != [] && runs[0].NotStarted? ==>
              w.status == 500 && w.body == "{\"error\":\"" + "failed to start compose command" + "\"}\n"
    ensures !(nameOk && canFlush) || (runs != [] && runs[0].NotStarted?) ==> w.eventStream == old(w.eventStream)
    ensures nameOk && canFlush && (runs == [] || runs[0].Ran?) ==> Streamed(w, runs)
    ensures digests.invalidations == old(digests.invalidations) +
              if && nameOk && canFlush && (action.path == "pull" || action.path == "update")
                 && (forall i :: 0 <= i < |runs| ==> runs[i].Ran? && runs[i].exit.None?)
                 && |Events(runs)| <= old(w.capacity)
              then 1 else 0
    ensures action in STACK_ACTIONS && nameOk && canFlush && |Events(runs)| <= old(w.capacity) &&
            (forall i :: 0 <= i < |runs| ==> runs[i].Ran? && runs[i].exit.None?) ==>
              (digests.invalidations == old(digests.invalidations) + 1 <==>
               exists i :: 0 <= i < |action.cmds| && action.cmds[i] != [] && action.cmds[i][0] == "pull")
  {
    hide Streamed, Events;
    if action in STACK_ACTIONS {
      TableInvalidates(action);
    }
    if !nameOk {
      w.WriteError(400, BAD_NAME);
      return;
    }
    if !canFlush {
      w.WriteError(500, NO_STREAMING);
      return;
    }
    StreamCommands(action, runs, w, digests);
  }

  lemma NothingWritten()
    ensures Frames([]) == "" && EscapeAll([]) == [] && Events([]) == [] && Visible([]) == []
  {}

  // ---------------------------------------------------------------- end to end

  /**
   One command as it happened: it failed to start, a schedule ran to its end, or a schedule got as far as some
   state, in which it still runs, its client has left or it hangs.
   */
  datatype Execution =
    | StartFailure(error: string)
    | Completed(cfg: SC.Config, acts: seq<SC.Action>)
    | Unfinished(cfg: SC.Config, acts: seq<SC.Action>)

  ghost predicate ValidExecution(e: Execution) {
    !e.StartFailure? ==>
      var end := SC.Run(e.cfg, SC.Initial(e.cfg), e.acts);
      end.Some? && (e.Completed? ==> end.value.consumer.Got?)
  }

  ghost predicate ValidPlan(plan: seq<Execution>) {
    forall i :: 0 <= i < |plan| ==> ValidExecution(plan[i])
  }

  function FinalState(e: Execution): SC.State
    requires !e.StartFailure? && SC.Run(e.cfg, SC.Initial(e.cfg), e.acts).Some?
  {
    SC.Run(e.cfg, SC.Initial(e.cfg), e.acts).value
  }

  /** What the handler has taken from the channel of a command that was started. */
  function Taken(e: Execution): seq<string>
    requires !e.StartFailure? && ValidExecution(e)
  {
    SC.Yielded(FinalState(e).received)
  }

  /** The events of a plan: the handler goes on to the next command only when one has ended with success. */
  function PlanEvents(plan: seq<Execution>): seq<string>
    requires ValidPlan(plan)
  {
    if plan == [] then []
    else match plan[0]
      case StartFailure(error) => [START_FAILED + error]
      case Unfinished(_, _) => EscapeAll(Taken(plan[0]))
      case Completed(_, _) =>
        EscapeAll(Taken(plan[0])) +
        (match FinalState(plan[0]).consumer.exit
         case Some(error) => [COMMAND_FAILED + error]
         case None => PlanEvents(plan[1..]))
  }

  predicate AllEnded(plan: seq<Execution>) {
    forall i :: 0 <= i < |plan| ==> !plan[i].Unfinished?
  }

  /** What the handler sees of an execution that has ended. */
  function RunOf(e: Execution): CommandRun
    requires ValidExecution(e) && !e.Unfinished?
  {
    match e
    case StartFailure(error) => NotStarted(error)
    case Completed(_, _) => Ran(Taken(e), FinalState(e).consumer.exit)
  }

  function RunsOf(plan: seq<Execution>): (runs: seq<CommandRun>)
    requires ValidPlan(plan) && AllEnded(plan)
    ensures |runs| == |plan|
  {
    if plan == [] then [] else [RunOf(plan[0])] + RunsOf(plan[1..])
  }

  /** Once every command has ended, the events are those that the handler writes. */
  lemma {:induction false} HandlerWritesPlan(plan: seq<Execution>)
    requires ValidPlan(plan) && AllEnded(plan)
    ensures Events(RunsOf(plan)) == PlanEvents(plan)
  {
    hide EscapeAll, SC.Run, SC.Yielded, SC.Valid;
    if plan != [] {
      HandlerWritesPlan(plan[1..]);
      assert RunsOf(plan)[1..] == RunsOf(plan[1..]);
    }
  }

  /** No output line is mistaken for a heartbeat, and the error texts, which are not escaped, have no newline. */
  ghost predicate Presentable(e: Execution) {
    match e
    case StartFailure(error) => OneLine(error)
    case Unfinished(cfg, _) => NoBeats(cfg)
    case Completed(cfg, _) =>
      NoBeats(cfg) &&
      (ValidExecution(e) && FinalState(e).consumer.exit.Some? ==> OneLine(FinalState(e).consumer.exit.value))
  }

  predicate NoBeats(cfg: SC.Config) {
    HEARTBEAT !in SC.Texts(cfg, SC.Stdout) && HEARTBEAT !in SC.Texts(cfg, SC.Stderr)
  }

  ghost predicate PresentablePlan(plan: seq<Execution>) {
    forall i :: 0 <= i < |plan| ==> Presentable(plan[i])
  }

  /** w merges a part of the output of each pipe, from its start. */
  ghost predicate MergesPart(cfg: SC.Config, w: seq<string>) {
    exists a, b :: a <= SC.Texts(cfg, SC.Stdout) && b <= SC.Texts(cfg, SC.Stderr) && SC.Interleaves(w, a, b)
  }

  /** ws[i] merges the output of command i, all of it if the command has ended. */
  ghost predicate Merges(plan: seq<Execution>, ws: seq<seq<string>>) {
    |ws| == |plan| && forall i :: 0 <= i < |plan| ==> MergesOne(plan[i], ws[i])
  }

  ghost predicate MergesOne(e: Execution, w: seq<string>) {
    match e
    case StartFailure(_) => true
    case Completed(cfg, _) => SC.Interleaves(w, SC.Texts(cfg, SC.Stdout), SC.Texts(cfg, SC.Stderr))
    case Unfinished(cfg, _) => MergesPart(cfg, w)
  }

  /** The command line, once it has been received, and the output. */
  function Shown(e: Execution, w: seq<string>): seq<string>
    requires !e.StartFailure? && ValidExecution(e)
  {
    if FinalState(e).received == [] then [] else EscapeAll([SC.CommandLine(e.cfg)] + w)
  }

  /**
   What the user should see: for each command its command line and its merged output, up to and with the
   first failing command, which is followed by its error line, or the first one that has not ended.
   */
  function Expected(plan: seq<Execution>, ws: seq<seq<string>>): seq<string>
    requires ValidPlan(plan) && |ws| == |plan|
  {
    if plan == [] then []
    else match plan[0]
      case StartFailure(error) => [START_FAILED + error]
      case Unfinished(_, _) => Shown(plan[0], ws[0])
      case Completed(_, _) =>
        Shown(plan[0], ws[0]) +
        (match FinalState(plan[0]).consumer.exit
         case Some(error) => [COMMAND_FAILED + error]
         case None => Expected(plan[1..], ws[1..]))
  }

  predicate NoBeatLines(items: seq<SC.Item>) {
    forall i :: 0 <= i < |items| && items[i].Line? ==> items[i].text != HEARTBEAT
  }

  lemma {:induction false} LineInTexts(items: seq<SC.Item>, i: nat)
    requires i < |items| && items[i].Line?
    ensures items[i].text in SC.TextsOf(items, items[i].source)
    decreases |items|
  {
    var front := items[..|items| - 1];
    if i < |front| {
      LineInTexts(front, i);
    }
  }

  /** Dropping the heartbeats from what the range loop yields leaves the command line and the output lines. */
  lemma {:induction false} VisibleYielded(items: seq<SC.Item>)
    requires items != [] && items[0].Command? && items[0].text != HEARTBEAT && NoBeatLines(items)
    requires forall i :: 1 <= i < |items| ==> !items[i].Command?
    ensures Visible(SC.Yielded(items)) == [items[0].text] + SC.LineTexts(items)
    decreases |items|
  {
    hide Visible;
    var n := |items| - 1;
    var front, last := items[..n], SC.ItemText(items[n]);
    VisibleConcat(SC.Yielded(front), [last]);
    VisibleOne(last);
    if n == 0 {
      assert SC.Yielded(items) == [] + [last] && SC.LineTexts(items) == [];
      NothingWritten();
    } else {
      VisibleYielded(front);
      if items[n].Line? {
        assert [items[0].text] + SC.LineTexts(front) + [last] == [items[0].text] + SC.LineTexts(items);
      }
    }
  }

  lemma VisibleOne(text: string)
    ensures Visible([text]) == if text == "\U{200B}" then [] else [text]
  {
    assert Visible([text][1..]) == [];
  }

  /** Whatever state a command is in: what was received is its command line and a merge of the texts received. */
  lemma ReceivedMerges(cfg: SC.Config, acts: seq<SC.Action>, s: SC.State)
    requires SC.Reaches(cfg, acts, s)
    ensures SC.Interleaves(SC.LineTexts(s.received), SC.TextsOf(s.received, SC.Stdout),
                           SC.TextsOf(s.received, SC.Stderr))
    ensures SC.TextsOf(s.received, SC.Stdout) <= SC.Texts(cfg, SC.Stdout)
    ensures SC.TextsOf(s.received, SC.Stderr) <= SC.Texts(cfg, SC.Stderr)
    ensures s.received != [] ==> s.received[0] == SC.Command(SC.CommandLine(cfg))
    ensures forall i :: 1 <= i < |s.received| ==> !s.received[i].Command?
  {
    hide SC.Texts, SC.TextsOf, SC.LineTexts, SC.Interleaves, SC.CommandLine, SC.Run, SC.ControlOk, SC.PipeOk, SC.Valid;
    SC.ReachableInv(cfg, acts, s);
    SC.ProjectionsInterleave(s.received);
  }

  lemma ReceivedShows(cfg: SC.Config, acts: seq<SC.Action>, s: SC.State)
    requires SC.Reaches(cfg, acts, s) && NoBeats(cfg)
    ensures Visible(EscapeAll(SC.Yielded(s.received))) ==
            if s.received == [] then [] else EscapeAll([SC.CommandLine(cfg)] + SC.LineTexts(s.received))
  {
    hide Visible, EscapeAll, SC.Texts, SC.Interleaves, SC.Run, SC.Reaches, SC.TextsOf, SC.LineTexts, SC.Valid;
    var items := s.received;
    ReceivedMerges(cfg, acts, s);
    if items == [] {
      NothingWritten();
    } else {
      forall i | 0 <= i < |items| && items[i].Line? ensures items[i].text != HEARTBEAT {
        LineInTexts(items, i);
        assert items[i].source == SC.Stdout || items[i].source == SC.Stderr;
      }
      VisibleYielded(items);
      VisibleEscapeAll(SC.Yielded(items));
    }
  }

  /** The visible lines of one command that was started, escaped or not: its command line and a merge of its output. */
  lemma CommandShows(e: Execution) returns (w: seq<string>)
    requires !e.StartFailure? && ValidExecution(e) && Presentable(e)
    ensures MergesOne(e, w) && Visible(EscapeAll(Taken(e))) == Shown(e, w)
  {
    hide Visible, EscapeAll, SC.Texts, SC.Interleaves, SC.Run, SC.TextsOf, SC.LineTexts, SC.Yielded, SC.CommandLine;
    var end := FinalState(e);
    w := SC.LineTexts(end.received);
    assert SC.Reaches(e.cfg, e.acts, end);
    ReceivedShows(e.cfg, e.acts, end);
    if e.Completed? {
      SC.DrainedIsInterleaving(e.cfg, e.acts, end);
    } else {
      ReceivedMerges(e.cfg, e.acts, end);
    }
  }

  lemma {:induction false} EventsOneLine(plan: seq<Execution>)
    requires ValidPlan(plan) && PresentablePlan(plan)
    ensures OneLineEach(PlanEvents(plan))
  {
    hide EscapeAll, SC.Run, SC.Yielded, SC.Texts, SC.Valid, NoBeats;
    if plan != [] {
      EventsOneLine(plan[1..]);
      if !plan[0].StartFailure? {
        EscapeAllOneLine(Taken(plan[0]));
      }
    }
  }

  /** The visible part of the events of a plan, from those of its first command. */
  lemma VisibleEvents(plan: seq<Execution>)
    requires ValidPlan(plan) && plan != []
    ensures Visible(PlanEvents(plan)) ==
            match plan[0]
              case StartFailure(error) => [START_FAILED + error]
              case Unfinished(_, _) => Visible(EscapeAll(Taken(plan[0])))
              case Completed(_, _) =>
                Visible(EscapeAll(Taken(plan[0]))) +
                (match FinalState(plan[0]).consumer.exit
                 case Some(error) => [COMMAND_FAILED + error]
                 case None => Visible(PlanEvents(plan[1..])))
  {
    hide Visible, EscapeAll, SC.Run, SC.Yielded, SC.Valid;
    match plan[0]
    case StartFailure(error) => VisibleOne(START_FAILED + error);
    case Unfinished(_, _) =>
    case Completed(_, _) =>
      var lines := EscapeAll(Taken(plan[0]));
      match FinalState(plan[0]).consumer.exit {
        case Some(error) =>
          VisibleConcat(lines, [COMMAND_FAILED + error]);
          VisibleOne(COMMAND_FAILED + error);
        case None => VisibleConcat(lines, PlanEvents(plan[1..]));
      }
  }

  lemma {:induction false} PlanShows(plan: seq<Execution>) returns (ws: seq<seq<string>>)
    requires ValidPlan(plan) && PresentablePlan(plan)
    ensures Merges(plan, ws) && Visible(PlanEvents(plan)) == Expected(plan, ws)
  {
    if plan == [] {
      ws := [];
      NothingWritten();
    } else {
      hide Visible, EscapeAll, SC.Run, SC.Valid, PlanEvents, Taken, Shown, MergesPart, SC.Interleaves, SC.Texts,
        Presentable;
      var rest := PlanShows(plan[1..]);
      var w: seq<string> := [];
      if !plan[0].StartFailure? {
        w := CommandShows(plan[0]);
      }
      VisibleEvents(plan);
      ws := [w] + rest;
      assert ws[1..] == rest;
    }
  }

  lemma {:induction false} VisiblePrefix(a: seq<string>, b: seq<string>)
    requires a <= b
    ensures Visible(a) <= Visible(b)
  {
    hide Visible;
    VisibleConcat(a, b[|a|..]);
    assert a + b[|a|..] == b;
  }

  /**
   From the processes to the screen. Whatever the goroutines' schedules and however far they have got, however
   the response is cut into chunks and wherever it breaks off, the visible lines are a prefix of: each command's
   line and a merge of its output, up to and with the first failing command and its error line, or the first
   command that has not ended, with a merge of what its pipes have given so far. A text that arrives whole
   shows all of it.
   */
  lemma EndToEnd(plan: seq<Execution>, chunks: seq<string>) returns (ws: seq<seq<string>>)
    requires ValidPlan(plan) && PresentablePlan(plan)
    requires Concat(chunks) <= Frames(PlanEvents(plan))
    ensures Merges(plan, ws)
    ensures Visible(Parse(Concat(chunks)).lines) <= Expected(plan, ws)
    ensures Concat(chunks) == Frames(PlanEvents(plan)) ==>
              Visible(Parse(Concat(chunks)).lines) == Expected(plan, ws)
  {
    hide Visible, Parse, Frames, PlanEvents, Expected, Merges, OneLineEach, ValidPlan, PresentablePlan;
    ws := PlanShows(plan);
    EventsOneLine(plan);
    var texts := PlanEvents(plan);
    ParseFrames(texts);
    var text := Frames(texts);
    TruncationYieldsPrefix(text, |Concat(chunks)|);
    assert text[..|Concat(chunks)|] == Concat(chunks);
    VisiblePrefix(Parse(Concat(chunks)).lines, texts);
  }

  /** A body whose write failed is such a broken-off text. */
  lemma BrokenIsPrefix(w: Response, capacity: nat, texts: seq<string>)
    requires Broken(w, capacity, texts)
    ensures w.body <= Frames(texts)
  {
    hide Frames, RawFrame;
    assert texts == texts[..capacity] + [texts[capacity]] + texts[capacity + 1..];
    FramesConcat(texts[..capacity] + [texts[capacity]], texts[capacity + 1..]);
    FramesSnoc(texts[..capacity], texts[capacity]);
  }

  /** A failed write ends the handler, so what a command would still have printed makes no difference to the body. */
  lemma BrokenIgnoresTheRest(w: Response, capacity: nat, taken: seq<string>, rest: seq<string>)
    requires Broken(w, capacity, taken + rest) && capacity < |taken|
    ensures Broken(w, capacity, taken) && w.body <= Frames(taken)
  {
    hide Frames, RawFrame;
    assert (taken + rest)[..capacity] == taken[..capacity];
    BrokenIsPrefix(w, capacity, taken);
  }

  lemma {:induction false} FramesConcat(a: seq<string>, b: seq<string>)
    ensures Frames(a + b) == Frames(a) + Frames(b)
  {
    hide RawFrame;
    if a == [] {
      assert a + b == b;
    } else {
      FramesConcat(a[1..], b);
      assert (a + b)[1..] == a[1..] + b;
      assert RawFrame(a[0]) + (Frames(a[1..]) + Frames(b)) == (RawFrame(a[0]) + Frames(a[1..])) + Frames(b);
    }
  }
}
