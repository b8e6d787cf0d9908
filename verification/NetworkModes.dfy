/**
 resolveServiceNetworkModes: the rewriting of `network_mode: service:X` directives to container IDs.

 The regular expression is read as a deterministic matcher: at the start of a line, white space that may
 span lines, `network_mode:`, white space, an optional quote, `service:`, a name, an optional quote, blanks
 and a comment up to the end of the line. MatchSound and MatchComplete tie the matcher to the grammar
 that the expression denotes.
 */
module NetworkModes {
  import opened Common
  import opened Text

  const KEY: string := "network_mode:"
  const SERVICE: string := "service:"
  const CONTAINER: string := "container:"

  // ---------------------------------------------------------------- character classes

  predicate IsSpace(c: char) { c == ' ' || c == '\t' || c == '\n' || c == '\r' || c == '\U{000C}' }

  predicate IsBlank(c: char) { c == ' ' || c == '\t' }

  predicate IsQuote(c: char) { c == '"' || c == '\'' }

  predicate IsName(c: char) {
    'A' <= c <= 'Z' || 'a' <= c <= 'z' || '0' <= c <= '9' || c == '_' || c == '.' || c == '-'
  }

  predicate InLine(c: char) { c != '\n' }

  // ---------------------------------------------------------------- the matcher

  function OptionalQuote(x: string): (c: Cut)
    ensures |c.head| + |c.rest| == |x|
  {
    if x != "" && IsQuote(x[0]) then Cut([x[0]], x[1..]) else Cut("", x)
  }

  function OptionalComment(x: string): (c: Cut)
    ensures |c.head| + |c.rest| == |x|
  {
    if x != "" && x[0] == '#' then While(InLine, x) else Cut("", x)
  }

  predicate AtLineEnd(rest: string) {
    rest == "" || rest[0] == '\n'
  }

  /** An optional quote, blanks and a comment up to the end of the line. */
  function MatchEnding(x: string): (m: Option<Cut>)
    ensures m.Some? ==> |m.value.head| + |m.value.rest| == |x| && AtLineEnd(m.value.rest)
  {
    var q := OptionalQuote(x);
    var b := While(IsBlank, q.rest);
    var c := OptionalComment(b.rest);
    if AtLineEnd(c.rest) then Some(Cut(q.head + b.head + c.head, c.rest)) else None
  }

  datatype Tail = Tail(name: string, text: string, rest: string)

  /** The part of the expression from the optional quote before the word `service:` to the end of the line. */
  function MatchTail(word: string, x: string): (m: Option<Tail>)
    ensures m.Some? ==> |m.value.text| + |m.value.rest| == |x| && AtLineEnd(m.value.rest) && m.value.text != ""
  {
    var q := OptionalQuote(x);
    if !(word <= q.rest) then None
    else
      var n := While(IsName, q.rest[|word|..]);
      if n.head == "" then None
      else match MatchEnding(n.rest)
        case None => None
        case Some(e) => Some(Tail(n.head, q.head + word + n.head + e.head, e.rest))
  }

  /** A match: the first group, the rest of the matched text, the second group and the text after the match. */
  datatype Directive = Directive(lead: string, target: string, name: string, rest: string)

  function MatchLead(key: string, word: string, s: string): (m: Option<Directive>)
    ensures m.Some? ==>
              |m.value.lead| + |m.value.target| + |m.value.rest| == |s| && m.value.target != "" &&
              AtLineEnd(m.value.rest)
  {
    var w := While(IsSpace, s);
    if !(key <= w.rest) then None
    else
      var v := While(IsSpace, w.rest[|key|..]);
      match MatchTail(word, v.rest)
      case None => None
      case Some(t) => Some(Directive(w.head + key + v.head, t.text, t.name, t.rest))
  }

  /** The expression at the start of a line. */
  function MatchHere(s: string): (m: Option<Directive>)
    ensures m.Some? ==>
              |m.value.lead| + |m.value.target| + |m.value.rest| == |s| && m.value.target != "" &&
              AtLineEnd(m.value.rest)
  {
    MatchLead(KEY, SERVICE, s)
  }

  // ---------------------------------------------------------------- the rewriting

  /** What a match is replaced by. */
  function Replacement(ids: map<string, string>, d: Directive): string {
    d.lead + if d.name in ids then CONTAINER + ids[d.name] else d.target
  }

  /** What the text becomes; lineStart says whether it begins at the start of a line. */
  function Rewrite(ids: map<string, string>, lineStart: bool, s: string): string
    decreases |s|
  {
    if s == "" then ""
    else if lineStart && MatchHere(s).Some? then
      Replacement(ids, MatchHere(s).value) + Rewrite(ids, false, MatchHere(s).value.rest)
    else [s[0]] + Rewrite(ids, s[0] == '\n', s[1..])
  }

  /** Whether some directive names a service that has a container. */
  predicate Resolves(ids: map<string, string>, lineStart: bool, s: string)
    decreases |s|
  {
    if s == "" then false
    else if lineStart && MatchHere(s).Some? then
      MatchHere(s).value.name in ids || Resolves(ids, false, MatchHere(s).value.rest)
    else Resolves(ids, s[0] == '\n', s[1..])
  }

  // one unfolding, for proofs that keep the definitions hidden

  lemma RewriteEmpty(ids: map<string, string>, lineStart: bool)
    ensures Rewrite(ids, lineStart, "") == "" && !Resolves(ids, lineStart, "")
  {}

  lemma RewriteMatch(ids: map<string, string>, s: string)
    requires MatchHere(s).Some?
    ensures var d := MatchHere(s).value;
            && Rewrite(ids, true, s) == Replacement(ids, d) + Rewrite(ids, false, d.rest)
            && (Resolves(ids, true, s) <==> d.name in ids || Resolves(ids, false, d.rest))
  {
    hide MatchHere, Replacement;
  }

  lemma RewriteCopy(ids: map<string, string>, lineStart: bool, s: string)
    requires s != "" && !(lineStart && MatchHere(s).Some?)
    ensures Rewrite(ids, lineStart, s) == [s[0]] + Rewrite(ids, s[0] == '\n', s[1..])
    ensures Resolves(ids, lineStart, s) <==> Resolves(ids, s[0] == '\n', s[1..])
  {
    hide MatchHere, Replacement;
  }

  // ---------------------------------------------------------------- the grammar

  ghost predicate IsOptionalQuote(q: string) {
    q == "" || (|q| == 1 && IsQuote(q[0]))
  }

  ghost predicate IsComment(c: string) {
    c == "" || (c[0] == '#' && All(InLine, c))
  }

  ghost predicate IsEnding(text: string, q: string, blanks: string, comment: string) {
    text == q + blanks + comment && IsOptionalQuote(q) && All(IsBlank, blanks) && IsComment(comment)
  }

  /** The language of the part after the name. */
  ghost predicate Ending(text: string) {
    exists q, blanks, comment :: IsEnding(text, q, blanks, comment)
  }

  ghost predicate IsTail(word: string, text: string, name: string, q: string, ending: string) {
    text == q + word + name + ending && IsOptionalQuote(q) && name != "" && All(IsName, name) && Ending(ending)
  }

  /** The language of the part after the first group. */
  ghost predicate TailOf(word: string, text: string, name: string) {
    exists q, ending :: IsTail(word, text, name, q, ending)
  }

  ghost predicate IsLead(key: string, lead: string, w: string, v: string) {
    lead == w + key + v && All(IsSpace, w) && All(IsSpace, v)
  }

  /** The language of the first group. */
  ghost predicate Lead(key: string, lead: string) {
    exists w, v :: IsLead(key, lead, w, v)
  }

  /** The language of the expression, with its two groups. */
  ghost predicate IsDirective(lead: string, target: string, name: string) {
    Lead(KEY, lead) && TailOf(SERVICE, target, name)
  }

  /** The expression spelled out, piece by piece. */
  ghost predicate Spelled(lead: string, target: string, name: string,
                          w: string, v: string, q: string, q': string, blanks: string, comment: string)
  {
    && lead == w + "network_mode:" + v
    && target == q + "service:" + name + (q' + blanks + comment)
    && (forall c :: c in w || c in v ==> c == ' ' || c == '\t' || c == '\n' || c == '\r' || c == '\U{000C}')
    && (q == "" || q == ['"'] || q == ['\'']) && (q' == "" || q' == ['"'] || q' == ['\''])
    && name != ""
    && (forall c :: c in name ==>
          'A' <= c <= 'Z' || 'a' <= c <= 'z' || '0' <= c <= '9' || c == '_' || c == '.' || c == '-')
    && (forall c :: c in blanks ==> c == ' ' || c == '\t')
    && (comment == "" || (comment[0] == '#' && '\n' !in comment))
  }

  lemma DirectiveSpelled(lead: string, target: string, name: string)
    ensures IsDirective(lead, target, name) <==>
            exists w, v, q, q', blanks, comment :: Spelled(lead, target, name, w, v, q, q', blanks, comment)
  {
    hide Spelled, IsLead, IsTail, IsEnding;
    if IsDirective(lead, target, name) {
      var w, v :| IsLead(KEY, lead, w, v);
      var q, ending :| IsTail(SERVICE, target, name, q, ending);
      assert Ending(ending) by { TailEnds(SERVICE, target, name, q, ending); }
      var q', blanks, comment :| IsEnding(ending, q', blanks, comment);
      PiecesSpelled(lead, target, name, w, v, q, ending, q', blanks, comment);
    }
    if w, v, q, q', blanks, comment :| Spelled(lead, target, name, w, v, q, q', blanks, comment) {
      PiecesSpelled(lead, target, name, w, v, q, q' + blanks + comment, q', blanks, comment);
    }
  }

  lemma TailEnds(word: string, text: string, name: string, q: string, ending: string)
    requires IsTail(word, text, name, q, ending)
    ensures Ending(ending)
  {}

  lemma PiecesSpelled(lead: string, target: string, name: string, w: string, v: string, q: string, ending: string,
                      q': string, blanks: string, comment: string)
    ensures (IsLead(KEY, lead, w, v) && IsTail(SERVICE, target, name, q, ending) &&
             IsEnding(ending, q', blanks, comment)) <==>
            (Spelled(lead, target, name, w, v, q, q', blanks, comment) && ending == q' + blanks + comment)
  {
    assert IsEnding(ending, q', blanks, comment) ==> Ending(ending);
    AllIn(IsSpace, w);
    AllIn(IsSpace, v);
    AllIn(IsName, name);
    AllIn(IsBlank, blanks);
    AllIn(InLine, comment);
    QuoteSpelled(q);
    QuoteSpelled(q');
    hide All, Ending, IsOptionalQuote;
  }

  lemma QuoteSpelled(q: string)
    ensures IsOptionalQuote(q) <==> q == "" || q == ['"'] || q == ['\'']
  {}

  lemma QuoteParts(x: string)
    ensures var c := OptionalQuote(x); x == c.head + c.rest && IsOptionalQuote(c.head)
  {}

  lemma QuoteIs(q: string, rest: string)
    requires IsOptionalQuote(q) && (rest != "" ==> !IsQuote(rest[0]))
    ensures OptionalQuote(q + rest) == Cut(q, rest)
  {
    assert q == "" ==> q + rest == rest;
    assert q != "" ==> (q + rest)[0] == q[0] && (q + rest)[1..] == rest && [q[0]] == q;
  }

  lemma CommentParts(x: string)
    ensures var c := OptionalComment(x); x == c.head + c.rest && IsComment(c.head)
  {
    WhileParts(InLine, x);
    var c := While(InLine, x);
    assert c.head != "" ==> c.head[0] == x[0];
  }

  lemma CommentIs(c: string, rest: string)
    requires IsComment(c) && AtLineEnd(rest)
    ensures OptionalComment(c + rest) == Cut(c, rest)
  {
    hide While;
    if c == "" {
      assert c + rest == rest;
    } else {
      assert (c + rest)[0] == c[0];
      WhileIs(InLine, c, rest);
    }
  }

  lemma EndingSound(x: string)
    requires MatchEnding(x).Some?
    ensures var m := MatchEnding(x).value; x == m.head + m.rest && Ending(m.head)
  {
    hide OptionalQuote, OptionalComment, While, All, IsComment, IsOptionalQuote;
    var q := OptionalQuote(x);
    var b := While(IsBlank, q.rest);
    var c := OptionalComment(b.rest);
    QuoteParts(x);
    WhileParts(IsBlank, q.rest);
    CommentParts(b.rest);
    Regroup4(q.head, b.head, c.head, c.rest);
    assert IsEnding(q.head + b.head + c.head, q.head, b.head, c.head);
  }

  /** No ending, with the end of a line after it, starts like a longer name. */
  lemma EndingStarts(text: string, rest: string, q: string, blanks: string, comment: string)
    requires IsEnding(text, q, blanks, comment) && AtLineEnd(rest)
    ensures text + rest == q + (blanks + (comment + rest))
    ensures text + rest != "" ==> !IsName((text + rest)[0])
    ensures var y := blanks + (comment + rest); y != "" ==> !IsQuote(y[0])
    ensures var z := comment + rest; z != "" ==> !IsBlank(z[0])
  {
    Regroup4(q, blanks, comment, rest);
    var z := comment + rest;
    assert z != "" ==> z[0] == if comment != "" then comment[0] else rest[0];
    var y := blanks + z;
    assert y != "" ==> y[0] == if blanks != "" then blanks[0] else z[0];
    assert q + y != "" ==> (q + y)[0] == if q != "" then q[0] else y[0];
  }

  lemma EndingComplete(text: string, rest: string)
    requires Ending(text) && AtLineEnd(rest)
    ensures MatchEnding(text + rest) == Some(Cut(text, rest))
  {
    hide OptionalQuote, OptionalComment, While, All, IsComment, IsOptionalQuote;
    var q, blanks, comment :| IsEnding(text, q, blanks, comment);
    EndingStarts(text, rest, q, blanks, comment);
    QuoteIs(q, blanks + (comment + rest));
    WhileIs(IsBlank, blanks, comment + rest);
    CommentIs(comment, rest);
  }

  lemma TailSound(word: string, x: string)
    requires MatchTail(word, x).Some?
    ensures var m := MatchTail(word, x).value; x == m.text + m.rest && TailOf(word, m.text, m.name)
  {
    hide OptionalQuote, While, All, IsOptionalQuote, MatchEnding, Ending;
    var q := OptionalQuote(x);
    var n := While(IsName, q.rest[|word|..]);
    var e := MatchEnding(n.rest).value;
    QuoteParts(x);
    WordSplit(word, q.rest);
    WhileParts(IsName, q.rest[|word|..]);
    EndingSound(n.rest);
    Regroup(n.head, e.head, e.rest);
    Regroup4(q.head, word, n.head + e.head, e.rest);
    Regroup(q.head + word, n.head, e.head);
    assert IsTail(word, q.head + word + n.head + e.head, n.head, q.head, e.head);
  }

  lemma TailUnfold(word: string, x: string, q: string, name: string, z: string)
    requires OptionalQuote(x) == Cut(q, word + (name + z)) && While(IsName, name + z) == Cut(name, z) && name != ""
    ensures MatchTail(word, x) ==
            match MatchEnding(z) case None => None case Some(e) => Some(Tail(name, q + word + name + e.head, e.rest))
  {
    hide OptionalQuote, While, MatchEnding;
    WordPrefix(word, name + z);
  }

  lemma TailComplete(word: string, text: string, name: string, rest: string)
    requires TailOf(word, text, name) && AtLineEnd(rest)
    requires word != "" && !IsQuote(word[0])
    ensures MatchTail(word, text + rest) == Some(Tail(name, text, rest))
  {
    hide OptionalQuote, OptionalComment, While, All, IsComment, IsOptionalQuote, MatchEnding, MatchTail;
    var q, ending :| IsTail(word, text, name, q, ending);
    var q', blanks, comment :| IsEnding(ending, q', blanks, comment);
    EndingStarts(ending, rest, q', blanks, comment);
    Regroup(name, ending, rest);
    Regroup4(q, word, name + ending, rest);
    Regroup(q + word, name, ending);
    assert (word + (name + (ending + rest)))[0] == word[0];
    QuoteIs(q, word + (name + (ending + rest)));
    WhileIs(IsName, name, ending + rest);
    EndingComplete(ending, rest);
    TailUnfold(word, text + rest, q, name, ending + rest);
  }

  lemma LeadSound(key: string, word: string, s: string)
    requires MatchLead(key, word, s).Some?
    ensures var d := MatchLead(key, word, s).value;
            s == d.lead + (d.target + d.rest) && Lead(key, d.lead) && TailOf(word, d.target, d.name)
  {
    hide While, All, MatchTail, TailOf;
    var w := While(IsSpace, s);
    var v := While(IsSpace, w.rest[|key|..]);
    WhileParts(IsSpace, s);
    WordSplit(key, w.rest);
    WhileParts(IsSpace, w.rest[|key|..]);
    TailSound(word, v.rest);
    Regroup4(w.head, key, v.head, v.rest);
    assert IsLead(key, w.head + key + v.head, w.head, v.head);
  }

  lemma LeadUnfold(key: string, word: string, s: string, w: string, v: string, x: string)
    requires While(IsSpace, s) == Cut(w, key + (v + x)) && While(IsSpace, v + x) == Cut(v, x)
    ensures MatchLead(key, word, s) ==
            match MatchTail(word, x)
            case None => None case Some(t) => Some(Directive(w + key + v, t.text, t.name, t.rest))
  {
    hide While, MatchTail;
    WordPrefix(key, v + x);
  }

  /** Where the white space of a first group ends. */
  lemma LeadUnfoldsAt(key: string, word: string, w: string, v: string, x: string)
    requires All(IsSpace, w) && All(IsSpace, v) && (x != "" ==> !IsSpace(x[0]))
    requires key != "" && !IsSpace(key[0])
    ensures MatchLead(key, word, w + (key + (v + x))) ==
            match MatchTail(word, x)
            case None => None case Some(t) => Some(Directive(w + key + v, t.text, t.name, t.rest))
  {
    hide While, MatchTail, MatchLead;
    assert (key + (v + x))[0] == key[0];
    WhileIs(IsSpace, w, key + (v + x));
    WhileIs(IsSpace, v, x);
    LeadUnfold(key, word, w + (key + (v + x)), w, v, x);
  }

  lemma TailStarts(word: string, text: string, name: string)
    requires TailOf(word, text, name) && word != ""
    ensures text != "" && (IsQuote(text[0]) || text[0] == word[0])
  {
    hide Ending;
    var q, ending :| IsTail(word, text, name, q, ending);
    assert text[0] == if q == "" then word[0] else q[0];
  }

  /** What the matcher finds is in the language and ends where a line ends. */
  lemma MatchSound(s: string)
    requires MatchHere(s).Some?
    ensures var d := MatchHere(s).value;
            s == d.lead + (d.target + d.rest) && IsDirective(d.lead, d.target, d.name) && AtLineEnd(d.rest)
  {
    hide MatchLead, Lead, TailOf;
    LeadSound(KEY, SERVICE, s);
  }

  /** Every member of the language that ends where a line ends is found, with its groups. */
  lemma MatchComplete(lead: string, target: string, name: string, rest: string)
    requires IsDirective(lead, target, name) && AtLineEnd(rest)
    ensures MatchHere(lead + (target + rest)) == Some(Directive(lead, target, name, rest))
  {
    hide While, All, MatchTail, MatchLead, TailOf;
    var w, v :| IsLead(KEY, lead, w, v);
    TailStarts(SERVICE, target, name);
    assert (target + rest)[0] == target[0];
    Regroup4(w, KEY, v, target + rest);
    LeadUnfoldsAt(KEY, SERVICE, w, v, target + rest);
    TailComplete(SERVICE, target, name, rest);
  }

  /** Matching the matched text alone gives the same groups. */
  lemma SubmatchSame(d: Directive)
    requires IsDirective(d.lead, d.target, d.name)
    ensures MatchHere(d.lead + d.target) == Some(d.(rest := ""))
  {
    hide MatchHere, IsDirective;
    MatchComplete(d.lead, d.target, d.name, "");
    assert d.target + "" == d.target;
  }

  // ---------------------------------------------------------------- the method

  /** The parts of a container summary that the rewriting reads. */
  datatype Container = Container(id: string, service: Option<string>)

  /** For each service the ID of its last container. */
  function Ids(containers: seq<Container>): map<string, string> {
    if containers == [] then map[]
    else
      var c := containers[|containers| - 1];
      var before := Ids(containers[..|containers| - 1]);
      if c.service.Some? then before[c.service.value := c.id] else before
  }

  lemma IdsSnoc(containers: seq<Container>, i: nat)
    requires i < |containers|
    ensures Ids([]) == map[]
    ensures Ids(containers[..i + 1]) ==
            var c, before := containers[i], Ids(containers[..i]);
            if c.service.Some? then before[c.service.value := c.id] else before
  {
    assert containers[..i + 1][..i] == containers[..i];
  }

  lemma NoIds()
    ensures Ids([]) == map[]
  {}

  /** The function passed to ReplaceAllFunc, which matches the line it is given once more. */
  method ReplaceFunc(ids: map<string, string>, line: string, ghost d: Directive) returns (text: string, found: bool)
    requires IsDirective(d.lead, d.target, d.name) && line == d.lead + d.target
    ensures text == Replacement(ids, d)
    ensures found <==> d.name in ids
  {
    hide MatchHere, IsDirective;
    SubmatchSame(d);
    var m := MatchHere(line).value;
    if m.name !in ids { return line, false; }
    return m.lead + (CONTAINER + ids[m.name]), true;
  }

  method ResolveServiceNetworkModes(compose: string, containers: seq<Container>) returns (out: string, resolved: bool)
    ensures out == Rewrite(Ids(containers), true, compose)
    ensures resolved <==> Resolves(Ids(containers), true, compose)
    ensures resolved <==> out != compose
    ensures exists segs, pieces ::
              && IsCut(true, segs) && Originals(segs) == compose
              && AllBecome(containers, segs, pieces) && out == Concat(pieces)
  {
    hide MatchHere, Rewrite, Resolves, Ids, Replacement, IsDirective, AtLineEnd;
    var ids: map<string, string> := map[];
    NoIds();
    for i := 0 to |containers|
      invariant ids == Ids(containers[..i])
    {
      var c := containers[i];
      IdsSnoc(containers, i);
      if c.service.Some? {
        ids := ids[c.service.value := c.id];
      }
    }
    assert containers[..|containers|] == containers;

    out, resolved := "", false;
    var rest, lineStart := compose, true;
    while rest != ""
      invariant out + Rewrite(ids, lineStart, rest) == Rewrite(ids, true, compose)
      invariant resolved || Resolves(ids, lineStart, rest) <==> Resolves(ids, true, compose)
      decreases |rest|
    {
      ghost var was := out;
      var m := MatchHere(rest);
      if lineStart && m.Some? {
        RewriteMatch(ids, rest);
        MatchSound(rest);
        var d := m.value;
        var text, found := ReplaceFunc(ids, d.lead + d.target, d);
        out, resolved, rest, lineStart := out + text, resolved || found, d.rest, false;
        Regroup(was, text, Rewrite(ids, false, d.rest));
      } else {
        RewriteCopy(ids, lineStart, rest);
        var c, next := rest[0], rest[1..];
        out, rest, lineStart := out + [c], next, c == '\n';
        Regroup(was, [c], Rewrite(ids, c == '\n', next));
      }
    }
    RewriteEmpty(ids, lineStart);
    assert out + "" == out;
    ResolvesIffChanged(ids, true, compose);
    hide IsCut, Originals, AllBecome, Concat;
    var segs, pieces := OnlyDirectivesChange(containers, true, compose);
  }

  // ---------------------------------------------------------------- nothing else changes

  /** A piece of a text: a character that is copied, or a directive. */
  datatype Segment = Copied(c: char) | Matched(d: Directive)

  function Original(seg: Segment): string {
    match seg case Copied(c) => [c] case Matched(d) => d.lead + d.target
  }

  function Originals(segs: seq<Segment>): string {
    if segs == [] then "" else Original(segs[0]) + Originals(segs[1..])
  }

  /** Container i is the last one of a service. */
  ghost predicate IsLast(containers: seq<Container>, i: nat, service: string) {
    && i < |containers| && containers[i].service == Some(service)
    && forall j :: i < j < |containers| ==> containers[j].service != Some(service)
  }

  /**
   What becomes of a piece: a directive refers to the last container of its service instead, and stays as it is
   if the service has none, like any other character.
   */
  ghost predicate Becomes(containers: seq<Container>, seg: Segment, piece: string) {
    match seg
    case Copied(c) => piece == [c]
    case Matched(d) =>
      (forall i: nat :: IsLast(containers, i, d.name) ==> piece == d.lead + ("container:" + containers[i].id)) &&
      ((forall i :: 0 <= i < |containers| ==> containers[i].service != Some(d.name)) ==> piece == d.lead + d.target)
  }

  ghost predicate AllBecome(containers: seq<Container>, segs: seq<Segment>, pieces: seq<string>) {
    |pieces| == |segs| && forall k :: 0 <= k < |segs| ==> Becomes(containers, segs[k], pieces[k])
  }

  /** Some directive begins here and ends where a line ends. */
  ghost predicate Starts(s: string) {
    exists lead, target, name, rest :: DirectiveAt(s, lead, target, name, rest)
  }

  ghost predicate DirectiveAt(s: string, lead: string, target: string, name: string, rest: string) {
    IsDirective(lead, target, name) && (rest == "" || rest[0] == '\n') && s == lead + (target + rest)
  }

  /**
   How a text is cut from left to right: a directive wherever one begins at the start of a line, and single
   characters everywhere else.
   */
  ghost predicate IsCut(lineStart: bool, segs: seq<Segment>)
    decreases |segs|
  {
    segs == [] ||
    match segs[0]
    case Copied(c) => !(lineStart && Starts(Originals(segs))) && IsCut(c == '\n', segs[1..])
    case Matched(d) => lineStart && IsDirective(d.lead, d.target, d.name) && d.rest == Originals(segs[1..]) &&
                       (d.rest == "" || d.rest[0] == '\n') && IsCut(false, segs[1..])
  }

  lemma StartsIff(s: string)
    ensures Starts(s) <==> MatchHere(s).Some?
  {
    hide MatchHere, IsDirective;
    if MatchHere(s).Some? {
      MatchSound(s);
      var d := MatchHere(s).value;
      assert DirectiveAt(s, d.lead, d.target, d.name, d.rest);
    }
    if Starts(s) {
      var lead, target, name, rest :| DirectiveAt(s, lead, target, name, rest);
      MatchComplete(lead, target, name, rest);
    }
  }

  lemma SegmentsCons(containers: seq<Container>, seg: Segment, piece: string, segs: seq<Segment>, pieces: seq<string>)
    requires Becomes(containers, seg, piece) && AllBecome(containers, segs, pieces)
    ensures Originals([seg] + segs) == Original(seg) + Originals(segs)
    ensures Concat([piece] + pieces) == piece + Concat(pieces)
    ensures AllBecome(containers, [seg] + segs, [piece] + pieces)
  {
    hide IsDirective, Original, Becomes;
    assert ([seg] + segs)[1..] == segs && ([piece] + pieces)[1..] == pieces;
  }

  lemma {:induction false} IdsOfLast(containers: seq<Container>, service: string)
    ensures service in Ids(containers) ==>
              exists i: nat :: IsLast(containers, i, service) && containers[i].id == Ids(containers)[service]
    ensures service !in Ids(containers) ==> forall i :: 0 <= i < |containers| ==> containers[i].service != Some(service)
  {
    if containers != [] {
      var n := |containers| - 1;
      IdsOfLast(containers[..n], service);
      if containers[n].service == Some(service) {
        assert IsLast(containers, n, service);
      } else if service in Ids(containers) {
        var i: nat :| IsLast(containers[..n], i, service) && containers[..n][i].id == Ids(containers)[service];
        assert forall j :: i < j < n ==> containers[..n][j] == containers[j];
        assert IsLast(containers, i, service);
      }
    }
  }

  lemma DirectiveBecomes(containers: seq<Container>, d: Directive)
    ensures Becomes(containers, Matched(d), Replacement(Ids(containers), d))
  {
    hide Ids;
    IdsOfLast(containers, d.name);
  }

  lemma CutCopied(lineStart: bool, c: char, segs: seq<Segment>)
    requires IsCut(c == '\n', segs) && !(lineStart && Starts(Originals([Copied(c)] + segs)))
    ensures IsCut(lineStart, [Copied(c)] + segs)
  {
    hide Starts;
    assert ([Copied(c)] + segs)[1..] == segs;
  }

  lemma CutMatched(d: Directive, segs: seq<Segment>)
    requires IsCut(false, segs) && IsDirective(d.lead, d.target, d.name)
    requires d.rest == Originals(segs) && AtLineEnd(d.rest)
    ensures IsCut(true, [Matched(d)] + segs)
  {
    hide Starts, IsDirective;
    assert ([Matched(d)] + segs)[1..] == segs;
  }

  lemma SegmentsNone(containers: seq<Container>)
    ensures Originals([]) == "" && Concat([]) == "" && AllBecome(containers, [], [])
    ensures forall start :: IsCut(start, [])
  {}

  /**
   The text is cut into directives and other characters, and all that changes is that a directive whose
   service has a container gets the container instead of what follows its first group.
   */
  lemma {:induction false} OnlyDirectivesChange(containers: seq<Container>, lineStart: bool, s: string)
    returns (segs: seq<Segment>, pieces: seq<string>)
    ensures IsCut(lineStart, segs) && Originals(segs) == s
    ensures AllBecome(containers, segs, pieces) && Concat(pieces) == Rewrite(Ids(containers), lineStart, s)
    decreases |s|
  {
    hide MatchHere, IsDirective, Rewrite, Replacement, Originals, Concat, IsCut, Starts, Ids, AllBecome;
    var ids := Ids(containers);
    StartsIff(s);
    if s == "" {
      RewriteEmpty(ids, lineStart);
      SegmentsNone(containers);
      segs, pieces := [], [];
    } else if lineStart && MatchHere(s).Some? {
      var d := MatchHere(s).value;
      RewriteMatch(ids, s);
      MatchSound(s);
      var segs', pieces' := OnlyDirectivesChange(containers, false, d.rest);
      DirectiveBecomes(containers, d);
      SegmentsCons(containers, Matched(d), Replacement(ids, d), segs', pieces');
      CutMatched(d, segs');
      segs, pieces := [Matched(d)] + segs', [Replacement(ids, d)] + pieces';
      Regroup(d.lead, d.target, d.rest);
    } else {
      RewriteCopy(ids, lineStart, s);
      var segs', pieces' := OnlyDirectivesChange(containers, s[0] == '\n', s[1..]);
      SegmentsCons(containers, Copied(s[0]), [s[0]], segs', pieces');
      segs, pieces := [Copied(s[0])] + segs', [[s[0]]] + pieces';
      assert [s[0]] + s[1..] == s;
      CutCopied(lineStart, s[0], segs');
    }
  }

  /** The flag is true exactly when the text changed. */
  lemma {:induction false} ResolvesIffChanged(ids: map<string, string>, lineStart: bool, s: string)
    ensures Resolves(ids, lineStart, s) <==> Rewrite(ids, lineStart, s) != s
    decreases |s|
  {
    hide MatchHere, Rewrite, Resolves, AtLineEnd, IsDirective;
    if s == "" {
      RewriteEmpty(ids, lineStart);
    } else if lineStart && MatchHere(s).Some? {
      var d := MatchHere(s).value;
      RewriteMatch(ids, s);
      MatchSound(s);
      var out := Rewrite(ids, false, d.rest);
      if d.name in ids {
        Regroup(d.lead, CONTAINER + ids[d.name], out);
        SameHead(d.lead, CONTAINER + ids[d.name] + out, d.target + d.rest);
        TargetStarts(d);
        assert (CONTAINER + ids[d.name] + out)[0] == CONTAINER[0];
        assert (d.target + d.rest)[0] == d.target[0];
      } else {
        ResolvesIffChanged(ids, false, d.rest);
        Regroup(d.lead, d.target, d.rest);
        SameHead(d.lead + d.target, out, d.rest);
      }
    } else {
      RewriteCopy(ids, lineStart, s);
      ResolvesIffChanged(ids, s[0] == '\n', s[1..]);
      SameHead([s[0]], Rewrite(ids, s[0] == '\n', s[1..]), s[1..]);
      assert [s[0]] + s[1..] == s;
    }
  }

  lemma TargetStarts(d: Directive)
    requires IsDirective(d.lead, d.target, d.name)
    ensures d.target != "" && d.target[0] != CONTAINER[0] && !IsSpace(d.target[0])
  {
    hide Lead, TailOf;
    TailStarts(SERVICE, d.target, d.name);
  }

  // ---------------------------------------------------------------- newlines

  function Newlines(s: string): nat {
    if s == "" then 0 else (if s[0] == '\n' then 1 else 0) + Newlines(s[1..])
  }

  lemma {:induction false} NewlinesConcat(a: string, b: string)
    ensures Newlines(a + b) == Newlines(a) + Newlines(b)
  {
    if a == "" {
      assert a + b == b;
    } else {
      NewlinesConcat(a[1..], b);
      assert (a + b)[1..] == a[1..] + b;
    }
  }

  lemma {:induction false} NoNewlines(s: string)
    requires All(InLine, s)
    ensures Newlines(s) == 0
  {
    if s != "" {
      NoNewlines(s[1..]);
    }
  }

  ghost predicate OneLineIds(ids: map<string, string>) {
    forall name :: name in ids ==> All(InLine, ids[name])
  }

  /** Nothing after the first group of a match is a newline. */
  lemma TargetInLine(d: Directive)
    requires IsDirective(d.lead, d.target, d.name)
    ensures All(InLine, d.target)
  {
    hide Lead;
    var q, ending :| IsTail(SERVICE, d.target, d.name, q, ending);
    var q', blanks, comment :| IsEnding(ending, q', blanks, comment);
    QuoteInLine(q);
    QuoteInLine(q');
    assert All(InLine, d.name) && All(InLine, blanks) && All(InLine, comment);
    hide All;
    AllConcat(InLine, q', blanks);
    AllConcat(InLine, q' + blanks, comment);
    WordsInLine();
    AllConcat(InLine, q, SERVICE);
    AllConcat(InLine, q + SERVICE, d.name);
    AllConcat(InLine, q + SERVICE + d.name, ending);
  }

  lemma QuoteInLine(q: string)
    requires IsOptionalQuote(q)
    ensures All(InLine, q)
  {}

  lemma WordsInLine()
    ensures All(InLine, KEY) && All(InLine, SERVICE) && All(InLine, CONTAINER)
  {}

  lemma ReplacementNewlines(ids: map<string, string>, d: Directive)
    requires OneLineIds(ids) && IsDirective(d.lead, d.target, d.name)
    ensures Newlines(Replacement(ids, d)) == Newlines(d.lead + d.target)
  {
    hide IsDirective, Newlines, All;
    if d.name in ids {
      TargetInLine(d);
      WordsInLine();
      AllConcat(InLine, CONTAINER, ids[d.name]);
      NoNewlines(d.target);
      NoNewlines(CONTAINER + ids[d.name]);
      NewlinesConcat(d.lead, d.target);
      NewlinesConcat(d.lead, CONTAINER + ids[d.name]);
    }
  }

  /** The number of lines stays, although a match may span several. */
  lemma {:induction false} NewlinesKept(ids: map<string, string>, lineStart: bool, s: string)
    requires OneLineIds(ids)
    ensures Newlines(Rewrite(ids, lineStart, s)) == Newlines(s)
    decreases |s|
  {
    hide MatchHere, Rewrite, Resolves, Newlines, Replacement, IsDirective, AtLineEnd, OneLineIds;
    if s == "" {
      RewriteEmpty(ids, lineStart);
    } else if lineStart && MatchHere(s).Some? {
      var d := MatchHere(s).value;
      RewriteMatch(ids, s);
      MatchSound(s);
      NewlinesKept(ids, false, d.rest);
      NewlinesConcat(Replacement(ids, d), Rewrite(ids, false, d.rest));
      Regroup(d.lead, d.target, d.rest);
      NewlinesConcat(d.lead + d.target, d.rest);
      ReplacementNewlines(ids, d);
    } else {
      RewriteCopy(ids, lineStart, s);
      NewlinesKept(ids, s[0] == '\n', s[1..]);
      NewlinesConcat([s[0]], Rewrite(ids, s[0] == '\n', s[1..]));
      NewlinesConcat([s[0]], s[1..]);
      assert [s[0]] + s[1..] == s;
    }
  }

  // ---------------------------------------------------------------- idempotence

  /** Whether, after white space, the rest of a directive follows. */
  predicate TailFollows(v: string) {
    MatchTail(SERVICE, While(IsSpace, v).rest).Some?
  }

  lemma StartIrrelevant(ids: map<string, string>, lineStart: bool, s: string)
    requires MatchHere(s).None?
    ensures Rewrite(ids, lineStart, s) == Rewrite(ids, false, s)
  {
    hide MatchHere;
  }

  /** A piece of a line, past its start, is copied. */
  lemma {:induction false} CopyInLine(ids: map<string, string>, t: string, rest: string)
    requires All(InLine, t)
    ensures Rewrite(ids, false, t + rest) == t + Rewrite(ids, false, rest)
  {
    hide Rewrite, MatchHere;
    if t == "" {
      assert t + rest == rest;
    } else {
      assert t == [t[0]] + t[1..];
      AllCons(InLine, t[0], t[1..]);
      assert (t + rest)[0] == t[0] && (t + rest)[1..] == t[1..] + rest;
      RewriteCopy(ids, false, t + rest);
      CopyInLine(ids, t[1..], rest);
      Regroup([t[0]], t[1..], Rewrite(ids, false, rest));
    }
  }

  lemma LineEndStays(ids: map<string, string>, rest: string)
    requires AtLineEnd(rest)
    ensures AtLineEnd(Rewrite(ids, false, rest))
  {
    hide MatchHere;
  }

  lemma LineIs(t: string, rest: string)
    requires All(InLine, t) && AtLineEnd(rest)
    ensures While(InLine, t + rest) == Cut(t, rest)
  {
    hide While, All;
    WhileIs(InLine, t, rest);
  }

  /** Whether a tail matches depends on its line only. */
  lemma TailOnLine(t: string, r1: string, r2: string)
    requires All(InLine, t) && AtLineEnd(r1) && AtLineEnd(r2)
    ensures MatchTail(SERVICE, t + r1).Some? ==> MatchTail(SERVICE, t + r2).Some?
  {
    hide MatchTail, While, All, TailOf, AtLineEnd;
    if MatchTail(SERVICE, t + r1).Some? {
      TailSound(SERVICE, t + r1);
      var m := MatchTail(SERVICE, t + r1).value;
      TailTextInLine(m.text, m.name);
      LineIs(t, r1);
      LineIs(m.text, m.rest);
      TailComplete(SERVICE, t, m.name, r2);
    }
  }

  lemma TailTextInLine(text: string, name: string)
    requires TailOf(SERVICE, text, name)
    ensures All(InLine, text)
  {
    hide All, TailOf;
    assert IsLead(KEY, KEY, "", "") by { AllNone(IsSpace); assert "" + KEY + "" == KEY; }
    TargetInLine(Directive(KEY, text, name, ""));
  }

  lemma PrefixOnLine(k: string, t: string, rest: string)
    requires All(InLine, k) && AtLineEnd(rest)
    ensures k <= t + rest ==> k <= t
  {
    if k <= t + rest {
      var whole := t + rest;
      assert forall i :: 0 <= i < |k| ==> whole[i] == k[i] && InLine(whole[i]);
      assert rest != "" ==> whole[|t|] == rest[0];
      assert |k| <= |t|;
      assert forall i :: 0 <= i < |k| ==> k[i] == whole[i] == t[i];
    }
  }

  lemma SpaceShift(c: char, s: string)
    requires IsSpace(c)
    ensures MatchHere([c] + s).Some? <==> MatchHere(s).Some?
    ensures TailFollows([c] + s) <==> TailFollows(s)
  {
    hide MatchTail;
    assert ([c] + s)[0] == c && ([c] + s)[1..] == s;
  }

  lemma NoSpace(s: string)
    requires s != "" && !IsSpace(s[0])
    ensures While(IsSpace, s) == Cut("", s)
    ensures !(KEY <= s) ==> MatchHere(s).None?
    ensures TailFollows(s) <==> MatchTail(SERVICE, s).Some?
  {
    hide MatchTail;
  }

  lemma KeyThenTail(v: string)
    ensures MatchHere(KEY + v).Some? <==> TailFollows(v)
  {
    hide MatchTail, While, MatchLead;
    WhileParts(IsSpace, v);
    var c := While(IsSpace, v);
    AllNone(IsSpace);
    LeadUnfoldsAt(KEY, SERVICE, "", c.head, c.rest);
    assert "" + (KEY + (c.head + c.rest)) == KEY + v;
  }

  /** What begins with a first group is no tail. */
  lemma LeadBlocksTail(lead: string, y: string)
    requires Lead(KEY, lead)
    ensures !TailFollows(lead + y)
  {
    hide While, All;
    var w, v :| IsLead(KEY, lead, w, v);
    Regroup4(w, KEY, v, y);
    assert (KEY + (v + y))[0] == KEY[0];
    WhileIs(IsSpace, w, KEY + (v + y));
    NotAQuote(KEY + (v + y));
  }

  /** Neither `n...` nor `c...` is a tail. */
  lemma NotAQuote(y: string)
    requires y != "" && !IsQuote(y[0]) && y[0] != SERVICE[0]
    ensures MatchTail(SERVICE, y).None?
  {
    hide While, MatchEnding;
  }

  /** Rewriting what follows does not complete a directive that was not one. */
  lemma {:induction false} TailStable(ids: map<string, string>, lineStart: bool, v: string)
    requires !TailFollows(v)
    ensures !TailFollows(Rewrite(ids, lineStart, v))
    decreases |v|
  {
    hide Rewrite, MatchHere, MatchTail, TailFollows, Lead, TailOf, AtLineEnd;
    if v == "" {
      RewriteEmpty(ids, lineStart);
    } else if lineStart && MatchHere(v).Some? {
      var d := MatchHere(v).value;
      RewriteMatch(ids, v);
      MatchSound(v);
      var after := if d.name in ids then CONTAINER + ids[d.name] else d.target;
      Regroup(d.lead, after, Rewrite(ids, false, d.rest));
      LeadBlocksTail(d.lead, after + Rewrite(ids, false, d.rest));
    } else {
      RewriteCopy(ids, lineStart, v);
      var c, next := v[0], v[1..];
      assert v == [c] + next;
      if IsSpace(c) {
        SpaceShift(c, next);
        TailStable(ids, c == '\n', next);
        SpaceShift(c, Rewrite(ids, c == '\n', next));
      } else {
        LineTailStable(ids, v);
        RewriteCopy(ids, false, v);
      }
    }
  }

  lemma LineTailStable(ids: map<string, string>, v: string)
    requires v != "" && !IsSpace(v[0]) && !TailFollows(v)
    ensures !TailFollows(Rewrite(ids, false, v))
  {
    hide Rewrite, MatchHere, MatchTail, While, TailFollows, All, AtLineEnd;
    WhileParts(InLine, v);
    var line := While(InLine, v);
    EndsLine(line.rest);
    CopyInLine(ids, line.head, line.rest);
    LineEndStays(ids, line.rest);
    var out := line.head + Rewrite(ids, false, line.rest);
    assert line.head != "" by { FirstOfLine(v); }
    assert out[0] == line.head[0] == v[0];
    NoSpace(v);
    NoSpace(out);
    TailOnLine(line.head, Rewrite(ids, false, line.rest), line.rest);
  }

  lemma EndsLine(rest: string)
    requires rest != "" ==> !InLine(rest[0])
    ensures AtLineEnd(rest)
  {}

  lemma FirstOfLine(v: string)
    requires v != "" && v[0] != '\n'
    ensures While(InLine, v).head != ""
  {}

  /** Where no directive starts, none starts after rewriting what follows. */
  lemma {:induction false} NoneStable(ids: map<string, string>, s: string)
    requires MatchHere(s).None?
    ensures MatchHere(Rewrite(ids, false, s)).None?
    decreases |s|
  {
    hide Rewrite, MatchHere, TailFollows;
    if s == "" {
      RewriteEmpty(ids, false);
    } else if IsSpace(s[0]) {
      var c, next := s[0], s[1..];
      assert s == [c] + next;
      RewriteCopy(ids, false, s);
      SpaceShift(c, next);
      StartIrrelevant(ids, c == '\n', next);
      NoneStable(ids, next);
      SpaceShift(c, Rewrite(ids, false, next));
    } else if KEY <= s {
      var v := s[|KEY|..];
      WordSplit(KEY, s);
      WordsInLine();
      CopyInLine(ids, KEY, v);
      KeyThenTail(v);
      TailStable(ids, false, v);
      KeyThenTail(Rewrite(ids, false, v));
    } else {
      LineNoneStable(ids, s);
    }
  }

  lemma LineNoneStable(ids: map<string, string>, s: string)
    requires s != "" && !IsSpace(s[0]) && !(KEY <= s)
    ensures MatchHere(Rewrite(ids, false, s)).None?
  {
    hide Rewrite, MatchHere, While, All, AtLineEnd;
    WhileParts(InLine, s);
    var line := While(InLine, s);
    EndsLine(line.rest);
    CopyInLine(ids, line.head, line.rest);
    LineEndStays(ids, line.rest);
    var out := line.head + Rewrite(ids, false, line.rest);
    assert line.head != "" by { FirstOfLine(s); }
    assert out[0] == line.head[0] == s[0];
    WordsInLine();
    PrefixOnLine(KEY, line.head, Rewrite(ids, false, line.rest));
    PrefixAppend(KEY, line.head, line.rest);
    NoSpace(out);
  }

  /** White space before something that is neither white space nor a directive's key is copied. */
  lemma {:induction false} CopySpace(ids: map<string, string>, lineStart: bool, v: string, y: string)
    requires All(IsSpace, v) && y != "" && !IsSpace(y[0]) && !(KEY <= y)
    ensures Rewrite(ids, lineStart, v + y) == v + Rewrite(ids, false, y)
    ensures MatchHere(v + y).None?
    decreases |v|
  {
    hide Rewrite, MatchHere;
    if v == "" {
      assert v + y == y;
      NoSpace(y);
      StartIrrelevant(ids, lineStart, y);
    } else {
      var c, next := v[0], v[1..];
      assert v == [c] + next;
      AllCons(IsSpace, c, next);
      Regroup([c], next, y);
      CopySpace(ids, c == '\n', next, y);
      SpaceShift(c, next + y);
      assert (v + y)[0] == c && (v + y)[1..] == next + y;
      RewriteCopy(ids, lineStart, v + y);
      Regroup([c], next, Rewrite(ids, false, y));
    }
  }

  /** A first group that nothing matching follows is copied. */
  lemma {:induction false} CopyLead(ids: map<string, string>, lineStart: bool, w: string, v: string, y: string)
    requires All(IsSpace, w) && All(IsSpace, v)
    requires y != "" && !IsSpace(y[0]) && !(KEY <= y) && MatchTail(SERVICE, y).None?
    ensures Rewrite(ids, lineStart, w + (KEY + (v + y))) == w + (KEY + (v + Rewrite(ids, false, y)))
    ensures MatchHere(w + (KEY + (v + y))).None?
    decreases |w|
  {
    hide Rewrite, MatchHere, MatchTail, While;
    var k := KEY + (v + y);
    if w == "" {
      assert w + k == k;
      assert w + (KEY + (v + Rewrite(ids, false, y))) == KEY + (v + Rewrite(ids, false, y));
      WhileIs(IsSpace, v, y);
      KeyThenTail(v + y);
      StartIrrelevant(ids, lineStart, k);
      WordsInLine();
      CopyInLine(ids, KEY, v + y);
      CopySpace(ids, false, v, y);
    } else {
      var c, next := w[0], w[1..];
      assert w == [c] + next;
      AllCons(IsSpace, c, next);
      Regroup([c], next, k);
      CopyLead(ids, c == '\n', next, v, y);
      SpaceShift(c, next + k);
      assert (w + k)[0] == c && (w + k)[1..] == next + k;
      RewriteCopy(ids, lineStart, w + k);
      Regroup([c], next, KEY + (v + Rewrite(ids, false, y)));
    }
  }

  /** A directive that has been rewritten is left alone. */
  lemma RewrittenStays(ids: map<string, string>, lead: string, id: string, rest: string)
    requires Lead(KEY, lead) && All(InLine, id)
    ensures Rewrite(ids, true, lead + (CONTAINER + id + rest)) == lead + (CONTAINER + id + Rewrite(ids, false, rest))
  {
    hide Rewrite, MatchHere, MatchTail, All;
    var w, v :| IsLead(KEY, lead, w, v);
    var y := CONTAINER + id + rest;
    assert y[0] == CONTAINER[0];
    NotAQuote(y);
    Regroup4(w, KEY, v, y);
    CopyLead(ids, true, w, v, y);
    WordsInLine();
    AllConcat(InLine, CONTAINER, id);
    CopyInLine(ids, CONTAINER + id, rest);
    Regroup4(w, KEY, v, Rewrite(ids, false, y));
  }

  /** Rewriting twice with the same containers is rewriting once. */
  lemma {:induction false} RewriteIdempotent(ids: map<string, string>, lineStart: bool, s: string)
    requires OneLineIds(ids)
    ensures Rewrite(ids, lineStart, Rewrite(ids, lineStart, s)) == Rewrite(ids, lineStart, s)
    decreases |s|
  {
    hide Rewrite, MatchHere, Lead, TailOf, All;
    if s == "" {
      RewriteEmpty(ids, lineStart);
    } else if lineStart && MatchHere(s).Some? {
      var d := MatchHere(s).value;
      RewriteMatch(ids, s);
      MatchSound(s);
      RewriteIdempotent(ids, false, d.rest);
      var out := Rewrite(ids, false, d.rest);
      if d.name in ids {
        Regroup(d.lead, CONTAINER + ids[d.name], out);
        RewrittenStays(ids, d.lead, ids[d.name], out);
      } else {
        LineEndStays(ids, d.rest);
        Regroup(d.lead, d.target, out);
        MatchComplete(d.lead, d.target, d.name, out);
        RewriteMatch(ids, d.lead + (d.target + out));
      }
    } else {
      var c, next := s[0], s[1..];
      RewriteCopy(ids, lineStart, s);
      var out := Rewrite(ids, c == '\n', next);
      if lineStart {
        RewriteCopy(ids, false, s);
        NoneStable(ids, s);
      }
      RewriteIdempotent(ids, c == '\n', next);
      assert ([c] + out)[0] == c && ([c] + out)[1..] == out;
      RewriteCopy(ids, lineStart, [c] + out);
    }
  }
}
