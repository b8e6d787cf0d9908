/** Strings: joining and splitting them, cutting them by classes of characters, and their order. */
module Text {

  // ---------------------------------------------------------------- joining and splitting

  function Concat(chunks: seq<string>): string {
    if chunks == [] then "" else chunks[0] + Concat(chunks[1..])
  }

  /** `strings.Split` on one character. */
  function Split(s: string, c: char): (parts: seq<string>)
    ensures parts != []
  {
    if s == "" then [""]
    else
      var rest := Split(s[1..], c);
      if s[0] == c then [""] + rest else [[s[0]] + rest[0]] + rest[1..]
  }

  function Join(parts: seq<string>, c: char): string {
    if parts == [] then "" else if |parts| == 1 then parts[0] else parts[0] + [c] + Join(parts[1..], c)
  }

  lemma {:induction false} SplitOne(s: string, c: char)
    requires c !in s
    ensures Split(s, c) == [s]
  {
    if s != "" {
      SplitOne(s[1..], c);
      assert s == [s[0]] + s[1..];
    }
  }

  lemma {:induction false} SplitFirst(s: string, c: char, more: string)
    requires c !in s
    ensures Split(s + [c] + more, c) == [s] + Split(more, c)
  {
    var whole := s + [c] + more;
    if s == "" {
      assert whole == [c] + more;
      assert whole[1..] == more;
    } else {
      SplitFirst(s[1..], c, more);
      assert whole[1..] == s[1..] + [c] + more;
      assert s == [s[0]] + s[1..];
    }
  }

  /** Splitting gives the fields back, if the separator is in none of them. */
  lemma {:induction false} SplitInvertsJoin(parts: seq<string>, c: char)
    requires parts != [] && forall i :: 0 <= i < |parts| ==> c !in parts[i]
    ensures Split(Join(parts, c), c) == parts
  {
    if |parts| == 1 {
      SplitOne(parts[0], c);
    } else {
      SplitInvertsJoin(parts[1..], c);
      SplitFirst(parts[0], c, Join(parts[1..], c));
      assert parts == [parts[0]] + parts[1..];
    }
  }

  /** The fields have no separator in them, and joining them gives the text back. */
  lemma {:induction false} JoinInvertsSplit(s: string, c: char)
    ensures Join(Split(s, c), c) == s && forall i :: 0 <= i < |Split(s, c)| ==> c !in Split(s, c)[i]
  {
    if s != "" {
      JoinInvertsSplit(s[1..], c);
      var rest := Split(s[1..], c);
      assert s == [s[0]] + s[1..];
      if s[0] == c {
        assert ([""] + rest)[1..] == rest;
        assert "" + [c] + s[1..] == s;
      } else {
        var parts := [[s[0]] + rest[0]] + rest[1..];
        assert parts[1..] == rest[1..] && |parts| == |rest|;
        assert |rest| > 1 ==>
          [s[0]] + (rest[0] + [c] + Join(rest[1..], c)) == [s[0]] + rest[0] + [c] + Join(rest[1..], c);
      }
    }
  }

  lemma {:induction false} JoinSnoc(parts: seq<string>, part: string, c: char)
    ensures Join([], c) == "" && Join([part], c) == part
    ensures parts != [] ==> Join(parts + [part], c) == Join(parts, c) + [c] + part
  {
    if |parts| == 1 {
      assert (parts + [part])[1..] == [part];
    } else if parts != [] {
      JoinSnoc(parts[1..], part, c);
      assert (parts + [part])[1..] == parts[1..] + [part];
    }
  }

  lemma JoinFive(a: string, b: string, d: string, e: string, f: string, c: char)
    ensures Join([a, b, d, e, f], c) == a + [c] + b + [c] + d + [c] + e + [c] + f
  {
    assert [e, f][1..] == [f] && [d, e, f][1..] == [e, f];
    assert [b, d, e, f][1..] == [d, e, f] && [a, b, d, e, f][1..] == [b, d, e, f];
    assert Join([e, f], c) == e + [c] + f;
    assert Join([d, e, f], c) == d + [c] + Join([e, f], c) == d + [c] + e + [c] + f;
    assert Join([b, d, e, f], c) == b + [c] + Join([d, e, f], c) == b + [c] + d + [c] + e + [c] + f;
  }

  // ---------------------------------------------------------------- classes of characters

  predicate All(p: char -> bool, s: string) {
    forall i :: 0 <= i < |s| ==> p(s[i])
  }

  /** A text cut in two. */
  datatype Cut = Cut(head: string, rest: string)

  /** The longest prefix whose characters satisfy p, a greedy star, and what follows it. */
  function While(p: char -> bool, s: string): (c: Cut)
    ensures |c.head| + |c.rest| == |s|
  {
    if s == "" || !p(s[0]) then Cut("", s)
    else
      var c := While(p, s[1..]);
      Cut([s[0]] + c.head, c.rest)
  }

  lemma {:induction false} WhileParts(p: char -> bool, s: string)
    ensures var c := While(p, s);
            s == c.head + c.rest && All(p, c.head) && (c.rest != "" ==> !p(c.rest[0]))
  {
    hide All;
    if s != "" && p(s[0]) {
      WhileParts(p, s[1..]);
      var c := While(p, s[1..]);
      assert s == [s[0]] + s[1..];
      Regroup([s[0]], c.head, c.rest);
      AllCons(p, s[0], c.head);
    } else {
      AllNone(p);
      assert s == "" + s;
    }
  }

  lemma AllCons(p: char -> bool, c: char, s: string)
    ensures All(p, [c] + s) <==> p(c) && All(p, s)
  {
    assert forall i :: 0 <= i < |s| ==> ([c] + s)[i + 1] == s[i];
    assert ([c] + s)[0] == c;
  }

  lemma AllNone(p: char -> bool)
    ensures All(p, "")
  {}

  lemma {:induction false} WhileIs(p: char -> bool, a: string, b: string)
    requires All(p, a) && (b != "" ==> !p(b[0]))
    ensures While(p, a + b) == Cut(a, b)
  {
    if a == "" {
      assert a + b == b;
    } else {
      assert a == [a[0]] + a[1..];
      AllCons(p, a[0], a[1..]);
      WhileIs(p, a[1..], b);
      assert (a + b)[0] == a[0] && (a + b)[1..] == a[1..] + b;
      assert [a[0]] + a[1..] == a;
    }
  }

  lemma Regroup(a: string, b: string, c: string)
    ensures a + (b + c) == (a + b) + c
  {}

  /** Four pieces from the left and from the right. */
  lemma Regroup4(a: string, b: string, c: string, d: string)
    ensures a + (b + (c + d)) == (a + b + c) + d
  {
    Regroup(b, c, d);
    Regroup(a, b + c, d);
    Regroup(a, b, c);
  }

  lemma WordSplit(word: string, x: string)
    requires word <= x
    ensures x == word + x[|word|..]
  {}

  lemma WordPrefix(word: string, x: string)
    ensures word <= word + x && (word + x)[|word|..] == x
  {}

  lemma AllConcat(p: char -> bool, a: string, b: string)
    requires All(p, a) && All(p, b)
    ensures All(p, a + b)
  {}

  lemma AllIn(p: char -> bool, s: string)
    ensures All(p, s) <==> forall c :: c in s ==> p(c)
  {}

  lemma SameHead(head: string, a: string, b: string)
    ensures head + a == head + b <==> a == b
  {
    assert (head + a)[|head|..] == a && (head + b)[|head|..] == b;
  }

  lemma PrefixAppend(k: string, t: string, rest: string)
    ensures k <= t ==> k <= t + rest
  {}

  // ---------------------------------------------------------------- order

  /** The order of strings that Go's `<` and `sort.Strings` use. */
  predicate Less(s: string, t: string) {
    t != "" && (s == "" || s[0] < t[0] || (s[0] == t[0] && Less(s[1..], t[1..])))
  }

  /** The first difference decides, and a prefix comes before what goes on. */
  lemma {:induction false} LessMeans(s: string, t: string)
    ensures Less(s, t) <==>
            exists k :: 0 <= k <= |s| && k < |t| && s[..k] == t[..k] && (k == |s| || s[k] < t[k])
  {
    if Less(s, t) && s != "" && s[0] == t[0] {
      LessMeans(s[1..], t[1..]);
      var a, b := s[1..], t[1..];
      var k :| 0 <= k <= |a| && k < |b| && a[..k] == b[..k] && (k == |a| || a[k] < b[k]);
      assert s[..k + 1] == [s[0]] + a[..k] && t[..k + 1] == [t[0]] + b[..k];
    } else if Less(s, t) {
      assert s[..0] == t[..0];
    }
    if k :| 0 <= k <= |s| && k < |t| && s[..k] == t[..k] && (k == |s| || s[k] < t[k]) {
      if k > 0 {
        assert s[0] == s[..k][0] == t[..k][0] == t[0];
        assert s[1..][..k - 1] == s[..k][1..] && t[1..][..k - 1] == t[..k][1..];
        LessMeans(s[1..], t[1..]);
      }
    }
  }

  lemma {:induction false} LessTotal(s: string, t: string)
    ensures Less(s, t) || Less(t, s) || s == t
    ensures !(Less(s, t) && Less(t, s)) && !Less(s, s)
  {
    if s != "" && t != "" && s[0] == t[0] {
      LessTotal(s[1..], t[1..]);
      assert s == [s[0]] + s[1..] && t == [t[0]] + t[1..];
    }
    if s != "" {
      LessTotal(s[1..], s[1..]);
    }
  }

  lemma {:induction false} LessTransitive(s: string, t: string, u: string)
    requires Less(s, t) && Less(t, u)
    ensures Less(s, u)
  {
    if s != "" && s[0] == t[0] == u[0] {
      LessTransitive(s[1..], t[1..], u[1..]);
    }
  }

  /** No element's key comes before the key of an earlier one. */
  ghost predicate SortedBy<T>(xs: seq<T>, key: T -> string) {
    forall i, j :: 0 <= i < j < |xs| ==> !Less(key(xs[j]), key(xs[i]))
  }

  /** Puts `x` before the first element whose key is greater. */
  function Inserted<T>(x: T, xs: seq<T>, key: T -> string): seq<T> {
    if xs == [] || Less(key(x), key(xs[0])) then [x] + xs else [xs[0]] + Inserted(x, xs[1..], key)
  }

  /** Stands for the library's sorting. */
  function Sort<T>(xs: seq<T>, key: T -> string): seq<T> {
    if xs == [] then [] else Inserted(xs[0], Sort(xs[1..], key), key)
  }

  lemma {:induction false} InsertedKeeps<T>(x: T, xs: seq<T>, key: T -> string)
    requires SortedBy(xs, key)
    ensures SortedBy(Inserted(x, xs, key), key)
    ensures multiset(Inserted(x, xs, key)) == multiset{x} + multiset(xs)
  {
    hide Less;
    if xs == [] {
    } else if Less(key(x), key(xs[0])) {
      forall j | 0 <= j < |xs|
        ensures !Less(key(xs[j]), key(x))
      {
        FirstIsLeast(x, xs, j, key);
      }
    } else {
      var tail := xs[1..];
      assert xs == [xs[0]] + tail;
      assert forall i :: 0 <= i < |tail| ==> tail[i] == xs[i + 1];
      InsertedKeeps(x, tail, key);
      var rest := Inserted(x, tail, key);
      forall j | 0 <= j < |rest|
        ensures !Less(key(rest[j]), key(xs[0]))
      {
        assert rest[j] in multiset(rest);
        assert rest[j] in multiset(tail) ==> rest[j] in tail;
      }
    }
  }

  lemma FirstIsLeast<T>(x: T, xs: seq<T>, j: nat, key: T -> string)
    requires SortedBy(xs, key) && j < |xs| && Less(key(x), key(xs[0]))
    ensures !Less(key(xs[j]), key(x))
  {
    hide Less;
    if Less(key(xs[j]), key(x)) {
      LessTransitive(key(xs[j]), key(x), key(xs[0]));
      LessTotal(key(xs[j]), key(xs[0]));
    }
  }

  /** Sorting orders by key and neither loses nor adds an element. */
  lemma {:induction false} SortSorts<T>(xs: seq<T>, key: T -> string)
    ensures SortedBy(Sort(xs, key), key) && multiset(Sort(xs, key)) == multiset(xs)
  {
    if xs == [] {
    } else {
      SortSorts(xs[1..], key);
      InsertedKeeps(xs[0], Sort(xs[1..], key), key);
      assert xs == [xs[0]] + xs[1..];
    }
  }

  lemma {:induction false} AtMostOnce<T>(p: seq<T>, x: T)
    requires forall i, j :: 0 <= i < j < |p| ==> p[i] != p[j]
    ensures multiset(p)[x] <= 1
  {
    if p != [] {
      var tail := p[1..];
      assert p == [p[0]] + tail;
      assert forall i :: 0 <= i < |tail| ==> tail[i] == p[i + 1];
      AtMostOnce(tail, x);
      assert p[0] !in tail;
    }
  }

  lemma AtLeastTwice<T>(p: seq<T>, i: nat, j: nat)
    requires i < j < |p| && p[i] == p[j]
    ensures multiset(p)[p[i]] >= 2
  {
    assert p == p[..j] + p[j..];
    assert p[..j][i] in p[..j] && p[j..][0] in p[j..];
  }
}
