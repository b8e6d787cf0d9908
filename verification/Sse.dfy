/**
 The text protocol between handleStackActionStream (the printer, Go) and sseStream
 (the incremental parser, TypeScript). Text is a sequence of characters after decoding.
 The wire format is a subset of server-sent events: HTML Living Standard,
 sections 9.2.5 (parsing) and 9.2.6 (interpreting).
 */
module Sse {
  import opened Common
  import opened Text

  const PREFIX: string := "data: "
  const SEPARATOR: string := "\n\n"

  // ---------------------------------------------------------------- printer

  /** strings.ReplaceAll(line, "\n", "\\n") */
  function Escape(line: string): string {
    if line == "" then ""
    else (if line[0] == '\n' then "\\n" else [line[0]]) + Escape(line[1..])
  }

  function EscapeAll(lines: seq<string>): (es: seq<string>)
    ensures |es| == |lines|
  {
    if lines == [] then [] else [Escape(lines[0])] + EscapeAll(lines[1..])
  }

  /** One event carrying a text that is written as it is. */
  function RawFrame(text: string): string {
    PREFIX + text + SEPARATOR
  }

  function Frames(texts: seq<string>): string {
    if texts == [] then "" else RawFrame(texts[0]) + Frames(texts[1..])
  }

  predicate OneLine(text: string) {
    '\n' !in text
  }

  predicate OneLineEach(texts: seq<string>) {
    forall i :: 0 <= i < |texts| ==> OneLine(texts[i])
  }

  // ---------------------------------------------------------------- parser specification

  /** buffer.indexOf("\n\n") */
  function IndexOfSeparator(buffer: string): (idx: int)
    ensures -1 <= idx <= |buffer| - 2 || idx == -1
    ensures idx >= 0 ==> buffer[idx] == '\n' && buffer[idx + 1] == '\n'
    ensures forall k :: 0 <= k < |buffer| - 1 && (idx == -1 || k < idx) ==>
              !(buffer[k] == '\n' && buffer[k + 1] == '\n')
  {
    if |buffer| < 2 then -1
    else if buffer[0] == '\n' && buffer[1] == '\n' then 0
    else
      var rest := IndexOfSeparator(buffer[1..]);
      assert forall k :: 1 <= k < |buffer| - 1 ==> buffer[k] == buffer[1..][k - 1] && buffer[k + 1] == buffer[1..][k];
      if rest == -1 then -1 else rest + 1
  }

  /** The payloads of the lines that start with the prefix. */
  function DataLines(lines: seq<string>): seq<string> {
    if lines == [] then []
    else (if PREFIX <= lines[0] then [lines[0][|PREFIX|..]] else []) + DataLines(lines[1..])
  }

  /** A line yields what follows `data: ` if it starts so, and nothing otherwise. */
  lemma {:induction false} DataLinesOf(lines: seq<string>, line: string)
    ensures DataLines([]) == []
    ensures DataLines(lines + [line]) == DataLines(lines) + if "data: " <= line then [line[6..]] else []
  {
    if lines == [] {
      assert [] + [line] == [line] && [line][1..] == [];
    } else {
      DataLinesOf(lines[1..], line);
      assert (lines + [line])[1..] == lines[1..] + [line];
    }
  }

  datatype Parsed = Parsed(lines: seq<string>, rest: string)

  /** What a complete text yields, and the unfinished part that stays buffered. */
  function Parse(text: string): Parsed
    decreases |text|
  {
    var idx := IndexOfSeparator(text);
    if idx == -1 then Parsed([], text)
    else
      var tail := Parse(text[idx + 2..]);
      Parsed(DataLines(Split(text[..idx], '\n')) + tail.lines, tail.rest)
  }

  /** One unfolding of Parse, for proofs that keep its definition hidden. */
  lemma ParseStep(text: string)
    ensures var idx := IndexOfSeparator(text);
            Parse(text) ==
            if idx == -1 then Parsed([], text)
            else
              var tail := Parse(text[idx + 2..]);
              Parsed(DataLines(Split(text[..idx], '\n')) + tail.lines, tail.rest)
  {
    hide IndexOfSeparator, Split, DataLines;
  }

  // ---------------------------------------------------------------- the reader

  /** The local state of sseStream: the text received and not yet split off. */
  class SseReader {
    var buffer: string

    constructor ()
      ensures buffer == ""
    {
      buffer := "";
    }

    /** One iteration of the outer loop: a decoded chunk arrives, the lines yielded for it come back. */
    method Feed(value: string) returns (yielded: seq<string>)
      modifies this
      ensures Parse(old(buffer) + value) == Parsed(yielded, buffer)
    {
      hide IndexOfSeparator, Split, DataLines, Parse;
      buffer := buffer + value;
      ghost var text := buffer;
      yielded := [];
      var idx := IndexOfSeparator(buffer);
      while idx != -1
        invariant idx == IndexOfSeparator(buffer)
        invariant Parse(text) == Parsed(yielded + Parse(buffer).lines, Parse(buffer).rest)
        decreases |buffer|
      {
        ParseStep(buffer);
        var chunk := buffer[..idx];
        ghost var before, yieldedBefore := buffer, yielded;
        buffer := buffer[idx + 2..];
        var lines := Split(chunk, '\n');
        for i := 0 to |lines|
          invariant yielded + DataLines(lines[i..]) == yieldedBefore + DataLines(lines)
          invariant buffer == before[idx + 2..]
        {
          DataLinesStep(lines, i);
          if !(PREFIX <= lines[i]) { continue; }
          yielded := yielded + [lines[i][|PREFIX|..]];
        }
        DataLinesStep(lines, |lines|);
        assert yielded == yieldedBefore + DataLines(lines);
        assert yieldedBefore + (DataLines(lines) + Parse(buffer).lines) == yielded + Parse(buffer).lines;
        idx := IndexOfSeparator(buffer);
      }
      ParseStep(buffer);
    }
  }

  lemma DataLinesStep(lines: seq<string>, i: nat)
    requires i <= |lines|
    ensures i == |lines| ==> DataLines(lines[i..]) == []
    ensures i < |lines| && PREFIX <= lines[i] ==>
              DataLines(lines[i..]) == [lines[i][|PREFIX|..]] + DataLines(lines[i + 1..])
    ensures i < |lines| && !(PREFIX <= lines[i]) ==> DataLines(lines[i..]) == DataLines(lines[i + 1..])
  {
    if i < |lines| {
      assert lines[i..][0] == lines[i] && lines[i..][1..] == lines[i + 1..];
    }
  }

  /** The whole of sseStream: read the chunks in order, collect what is yielded. */
  method Receive(chunks: seq<string>) returns (yielded: seq<string>)
    ensures yielded == Parse(Concat(chunks)).lines
  {
    hide Parse, IndexOfSeparator;
    assert Parse("") == Parsed([], "") by { ParseEmpty(); }
    var reader := new SseReader();
    yielded := [];
    var text := "";
    for i := 0 to |chunks|
      invariant text + Concat(chunks[i..]) == Concat(chunks)
      invariant Parse(text) == Parsed(yielded, reader.buffer)
    {
      var more := reader.Feed(chunks[i]);
      ParseIncremental(text, chunks[i]);
      assert chunks[i..][1..] == chunks[i + 1..];
      assert text + (chunks[i] + Concat(chunks[i + 1..])) == (text + chunks[i]) + Concat(chunks[i + 1..]);
      text := text + chunks[i];
      yielded := yielded + more;
    }
    assert text + "" == text;
  }

  // ---------------------------------------------------------------- incremental parsing

  lemma SeparatorStable(a: string, b: string)
    requires IndexOfSeparator(a) != -1
    ensures IndexOfSeparator(a + b) == IndexOfSeparator(a)
  {
    var i, j := IndexOfSeparator(a), IndexOfSeparator(a + b);
    assert (a + b)[i] == '\n' && (a + b)[i + 1] == '\n';
    assert forall k :: 0 <= k < |a| ==> (a + b)[k] == a[k];
    assert !(j < i);
  }

  /** Parsing a text is parsing any prefix of it and then the buffered remainder with what follows. */
  lemma {:induction false} ParseIncremental(a: string, b: string)
    ensures Parse(a + b) ==
            Parsed(Parse(a).lines + Parse(Parse(a).rest + b).lines, Parse(Parse(a).rest + b).rest)
    decreases |a|
  {
    hide DataLines, Split, IndexOfSeparator, Parse;
    var idx := IndexOfSeparator(a);
    ParseStep(a);
    ParseStep(a + b);
    if idx == -1 {
      assert Parse(a) == Parsed([], a);
    } else {
      SeparatorStable(a, b);
      assert (a + b)[..idx] == a[..idx];
      assert (a + b)[idx + 2..] == a[idx + 2..] + b;
      ParseIncremental(a[idx + 2..], b);
      var head := DataLines(Split(a[..idx], '\n'));
      var tail := Parse(a[idx + 2..]);
      var next := Parse(tail.rest + b);
      assert Parse(a) == Parsed(head + tail.lines, tail.rest);
      assert Parse(a + b) == Parsed(head + (tail.lines + next.lines), next.rest);
      assert head + (tail.lines + next.lines) == (head + tail.lines) + next.lines;
    }
  }

  lemma ParseEmpty()
    ensures Parse("") == Parsed([], "")
  {}

  /** A stream that breaks off anywhere yields a prefix of the lines of the whole stream. */
  lemma TruncationYieldsPrefix(text: string, cut: nat)
    requires cut <= |text|
    ensures Parse(text[..cut]).lines <= Parse(text).lines
  {
    hide *;
    ParseIncremental(text[..cut], text[cut..]);
    assert text[..cut] + text[cut..] == text;
  }

  // ---------------------------------------------------------------- round trip

  lemma {:induction false} EscapeOneLine(line: string)
    ensures OneLine(Escape(line))
    ensures OneLine(line) ==> Escape(line) == line
  {
    if line != "" {
      EscapeOneLine(line[1..]);
    }
  }

  /** A newline becomes a backslash and an n. */
  lemma {:induction false} EscapeNewline(line: string, more: string)
    requires OneLine(line)
    ensures Escape(line + ['\n'] + more) == line + ['\\', 'n'] + Escape(more)
  {
    var whole := line + ['\n'] + more;
    if line == "" {
      assert whole[1..] == more;
    } else {
      assert whole[1..] == line[1..] + ['\n'] + more;
      EscapeNewline(line[1..], more);
      assert line == [line[0]] + line[1..];
    }
  }

  /** Where the first event of a text ends. */
  lemma FrameSeparator(text: string, more: string)
    requires OneLine(text)
    ensures IndexOfSeparator(RawFrame(text) + more) == |PREFIX| + |text|
  {
    hide IndexOfSeparator;
    var s := RawFrame(text) + more;
    var n := |PREFIX| + |text|;
    assert s[n] == '\n' && s[n + 1] == '\n';
    assert forall k :: 0 <= k < |PREFIX| ==> s[k] == PREFIX[k] && s[k] != '\n';
    assert forall k :: 0 <= k < |text| ==> s[|PREFIX| + k] == text[k];
    assert forall k :: 0 <= k < n ==> s[k] != '\n';
  }

  lemma DataOfOneLine(text: string)
    requires OneLine(text)
    ensures DataLines(Split(PREFIX + text, '\n')) == [text]
  {
    hide Split;
    SplitOne(PREFIX + text, '\n');
    assert DataLines([PREFIX + text]) == [text] + DataLines([]);
  }

  /** Reading one well-formed event yields its text and goes on with what follows. */
  lemma ParseFrame(text: string, more: string)
    requires OneLine(text)
    ensures Parse(RawFrame(text) + more) == Parsed([text] + Parse(more).lines, Parse(more).rest)
  {
    hide Parse, IndexOfSeparator, Split, DataLines, OneLine;
    var s := RawFrame(text) + more;
    FrameSeparator(text, more);
    var n := |PREFIX| + |text|;
    assert s[..n] == PREFIX + text;
    assert s[n + 2..] == more;
    ParseStep(s);
    DataOfOneLine(text);
  }

  lemma {:induction false} ParseFrames(texts: seq<string>)
    requires OneLineEach(texts)
    ensures Parse(Frames(texts)) == Parsed(texts, "")
  {
    hide Parse, RawFrame;
    if texts != [] {
      ParseFrame(texts[0], Frames(texts[1..]));
      assert forall i :: 0 <= i < |texts[1..]| ==> texts[1..][i] == texts[i + 1];
      ParseFrames(texts[1..]);
      assert [texts[0]] + texts[1..] == texts;
    } else {
      ParseEmpty();
    }
  }

  lemma {:induction false} EscapeAllOneLine(lines: seq<string>)
    ensures OneLineEach(EscapeAll(lines))
  {
    hide Escape;
    if lines != [] {
      EscapeOneLine(lines[0]);
      EscapeAllOneLine(lines[1..]);
    }
  }

  /** Every list of output lines arrives escaped, complete and in order, however the text is chunked. */
  lemma RoundTrip(lines: seq<string>, chunks: seq<string>)
    requires Concat(chunks) == Frames(EscapeAll(lines))
    ensures Parse(Concat(chunks)) == Parsed(EscapeAll(lines), "")
  {
    EscapeAllOneLine(lines);
    ParseFrames(EscapeAll(lines));
  }

  lemma {:induction false} FirstSplit(text: string, n: nat)
    requires n < |text| && text[n] == '\n' && OneLine(text[..n])
    ensures Split(text, '\n')[0] == text[..n]
  {
    if n > 0 {
      assert text[1..][..n - 1] == text[..n][1..];
      FirstSplit(text[1..], n - 1);
      assert [text[0]] + text[1..][..n - 1] == text[..n];
    }
  }

  function FirstNewline(text: string): (n: nat)
    requires !OneLine(text)
    ensures n < |text| && text[n] == '\n' && OneLine(text[..n])
  {
    if text[0] == '\n' then 0
    else
      var k := FirstNewline(text[1..]);
      assert text[..k + 1] == [text[0]] + text[1..][..k];
      k + 1
  }

  /**
   Two error texts are written without escaping. A text written that way arrives as it is
   exactly when it holds no newline; otherwise the client sees it cut at its first newline.
   */
  lemma RawFrameArrivesIff(text: string)
    ensures Parse(RawFrame(text)).lines == [text] <==> OneLine(text)
    ensures !OneLine(text) ==>
              var lines := Parse(RawFrame(text)).lines;
              lines != [] && lines[0] == text[..FirstNewline(text)]
  {
    if OneLine(text) {
      ParseFrame(text, "");
      assert RawFrame(text) + "" == RawFrame(text);
    } else {
      RawFrameCut(text);
    }
  }

  /** The first event of an unescaped text ends no earlier than the text's first newline. */
  lemma RawFrameChunk(text: string) returns (chunk: string)
    requires !OneLine(text)
    ensures IndexOfSeparator(RawFrame(text)) >= 0 && chunk == RawFrame(text)[..IndexOfSeparator(RawFrame(text))]
    ensures var n := |PREFIX| + FirstNewline(text);
            |chunk| >= n && chunk[..n] == PREFIX + text[..n - |PREFIX|] && (|chunk| > n ==> chunk[n] == '\n')
  {
    hide IndexOfSeparator, FirstNewline;
    var s := RawFrame(text);
    var n := FirstNewline(text);
    var end := |PREFIX| + |text|;
    assert s[end] == '\n' && s[end + 1] == '\n';
    assert forall k :: 0 <= k < |PREFIX| ==> s[k] == PREFIX[k] && s[k] != '\n';
    assert forall k :: 0 <= k < n ==> s[|PREFIX| + k] == text[..n][k] && s[|PREFIX| + k] != '\n';
    chunk := s[..IndexOfSeparator(s)];
    assert |chunk| >= |PREFIX| + n;
    assert chunk[..|PREFIX| + n] == PREFIX + text[..n];
    assert s[|PREFIX| + n] == text[n];
  }

  lemma RawFrameCut(text: string)
    requires !OneLine(text)
    ensures var lines := Parse(RawFrame(text)).lines;
            lines != [] && lines[0] == text[..FirstNewline(text)]
  {
    hide IndexOfSeparator, Split, DataLines, FirstNewline, Parse, RawFrame;
    var n := FirstNewline(text);
    var chunk := RawFrameChunk(text);
    var lines := Split(chunk, '\n');
    assert lines[0] == PREFIX + text[..n] by {
      if |chunk| == |PREFIX| + n {
        assert chunk == PREFIX + text[..n];
        SplitOne(chunk, '\n');
      } else {
        FirstSplit(chunk, |PREFIX| + n);
      }
    }
    FirstData(lines, text[..n]);
    ParseStep(RawFrame(text));
  }

  lemma FirstData(lines: seq<string>, payload: string)
    requires lines != [] && lines[0] == PREFIX + payload
    ensures DataLines(lines) != [] && DataLines(lines)[0] == payload
  {}

  // ---------------------------------------------------------------- heartbeats

  /** The lines the action dialog shows: those that are not a heartbeat. */
  function Visible(lines: seq<string>): seq<string> {
    if lines == [] then []
    else if lines[0] == HEARTBEAT then Visible(lines[1..])
    else [lines[0]] + Visible(lines[1..])
  }

  lemma {:induction false} VisibleConcat(a: seq<string>, b: seq<string>)
    ensures Visible(a + b) == Visible(a) + Visible(b)
  {
    if a == [] {
      assert a + b == b;
    } else {
      assert (a + b)[0] == a[0] && (a + b)[1..] == a[1..] + b;
      VisibleConcat(a[1..], b);
      if a[0] != HEARTBEAT {
        assert [a[0]] + (Visible(a[1..]) + Visible(b)) == ([a[0]] + Visible(a[1..])) + Visible(b);
      }
    }
  }

  /** Escaping neither makes nor hides a heartbeat. */
  lemma EscapeHeartbeat(line: string)
    ensures Escape(line) == HEARTBEAT <==> line == HEARTBEAT
  {
    if OneLine(line) {
      EscapeOneLine(line);
    } else if line[0] == '\n' {
      assert Escape(line)[0] == '\\';
    } else {
      EscapeNonEmpty(line[1..]);
      assert |Escape(line)| >= 2;
    }
  }

  lemma EscapeNonEmpty(line: string)
    requires line != ""
    ensures Escape(line) != ""
  {}

  lemma {:induction false} VisibleEscapeAll(lines: seq<string>)
    ensures Visible(EscapeAll(lines)) == EscapeAll(Visible(lines))
  {
    hide Escape;
    if lines != [] {
      EscapeHeartbeat(lines[0]);
      VisibleEscapeAll(lines[1..]);
    }
  }
}
