/**
 The rate limit of API keys: one conditional UPDATE of a row. Times are in milliseconds.

 The documentation promises a number of requests per minute. The statement counts something else: the
 length of the current chain of admitted requests, where a request joins the chain of the one before unless
 more than a window has passed. What it promises, what it does, and when the two agree are below.
 */
module ApiKeyRateLimit {
  import opened Common

  const DEFAULT_MAX: int := 100
  const DEFAULT_WINDOW: int := 60000

  function RateLimitMax(configured: int): (max: int)
    ensures max >= 1 && (configured >= 1 ==> max == configured) && (configured < 1 ==> max == 100)
  {
    if configured <= 0 then DEFAULT_MAX else configured
  }

  function RateLimitWindow(configured: int): (window: int)
    ensures window >= 1 && (configured >= 1 ==> window == configured) && (configured < 1 ==> window == 60000)
  {
    if configured <= 0 then DEFAULT_WINDOW else configured
  }

  /** The two columns that the statement changes; lastRequestAt is NULL at first. */
  datatype Row = Row(requestCount: int, lastRequestAt: Option<int>)

  const NEW_ROW: Row := Row(0, None)

  /** last_request_at IS NULL OR last_request_at < windowStart */
  predicate NewChain(row: Row, windowStart: int) {
    row.lastRequestAt.None? || row.lastRequestAt.value < windowStart
  }

  predicate Admits(row: Row, now: int, max: int, window: int) {
    row.requestCount < max || NewChain(row, now - window)
  }

  function Updated(row: Row, now: int, window: int): Row {
    Row(if NewChain(row, now - window) then 1 else row.requestCount + 1, Some(now))
  }

  class ApiKeys {
    var rows: map<string, Row>

    /** RateLimit: whether the UPDATE changed the row of the key. */
    method RateLimit(keyId: string, max: int, windowMs: int, now: int) returns (ok: bool)
      modifies this
      ensures ok <==> keyId in old(rows) && Admits(old(rows)[keyId], now, max, windowMs)
      ensures rows == if ok then old(rows)[keyId := Updated(old(rows)[keyId], now, windowMs)] else old(rows)
      ensures keyId in old(rows) ==>
                var row := old(rows)[keyId];
                var isNew := row.lastRequestAt.None? || now - row.lastRequestAt.value > windowMs;
                && (ok <==> row.requestCount < max || isNew)
                && (ok ==> rows[keyId] == Row(if isNew then 1 else row.requestCount + 1, Some(now)))
    {
      var windowStart := now - windowMs;
      if keyId !in rows { return false; }
      var row := rows[keyId];
      var isNew := row.lastRequestAt.None? || row.lastRequestAt.value < windowStart;
      if !(row.requestCount < max || isNew) { return false; }
      rows := rows[keyId := Row(if isNew then 1 else row.requestCount + 1, Some(now))];
      return true;
    }
  }

  // ---------------------------------------------------------------- runs of one key

  /** The row after requests at the given times. */
  function RowAfter(times: seq<int>, max: int, window: int): Row {
    if times == [] then NEW_ROW
    else
      var n := |times| - 1;
      var row := RowAfter(times[..n], max, window);
      if Admits(row, times[n], max, window) then Updated(row, times[n], window) else row
  }

  /** The times of the admitted ones. */
  function Admitted(times: seq<int>, max: int, window: int): seq<int> {
    if times == [] then []
    else
      var n := |times| - 1;
      var before := Admitted(times[..n], max, window);
      if Admits(RowAfter(times[..n], max, window), times[n], max, window) then before + [times[n]] else before
  }

  /** The number of requests at the end of s that follow each other within a window. */
  function ChainLength(s: seq<int>, window: int): nat
    ensures ChainLength(s, window) <= |s|
    ensures s != [] ==> ChainLength(s, window) >= 1
  {
    if s == [] then 0
    else
      var n := |s| - 1;
      if n > 0 && s[n - 1] >= s[n] - window then 1 + ChainLength(s[..n], window) else 1
  }

  ghost predicate RowMeans(row: Row, admitted: seq<int>, max: int, window: int) {
    && row.requestCount == ChainLength(admitted, window)
    && row.lastRequestAt == (if admitted == [] then None else Some(admitted[|admitted| - 1]))
    && row.requestCount <= max
  }

  lemma ChainLengthSnoc(s: seq<int>, t: int, window: int)
    ensures ChainLength(s + [t], window) ==
            if s != [] && s[|s| - 1] >= t - window then 1 + ChainLength(s, window) else 1
  {
    assert (s + [t])[..|s|] == s;
  }

  lemma RequestMeans(row: Row, s: seq<int>, now: int, max: int, window: int)
    requires max >= 1 && RowMeans(row, s, max, window)
    ensures Admits(row, now, max, window) ==> RowMeans(Updated(row, now, window), s + [now], max, window)
  {
    hide ChainLength;
    ChainLengthSnoc(s, now, window);
  }

  /** The row holds the length of the chain and its last member, however many requests were denied meanwhile. */
  lemma {:induction false} RowIsChain(times: seq<int>, max: int, window: int)
    requires max >= 1
    ensures RowMeans(RowAfter(times, max, window), Admitted(times, max, window), max, window)
  {
    hide Admits, Updated, RowMeans;
    if times == [] {
      EmptyMeans(max, window);
    } else {
      var n := |times| - 1;
      RowIsChain(times[..n], max, window);
      RequestMeans(RowAfter(times[..n], max, window), Admitted(times[..n], max, window), times[n], max, window);
    }
  }

  lemma EmptyMeans(max: int, window: int)
    requires max >= 1
    ensures RowMeans(NEW_ROW, [], max, window)
  {}

  lemma {:induction false} AdmittedInOrder(times: seq<int>, max: int, window: int)
    requires Nondecreasing(times)
    ensures Nondecreasing(Admitted(times, max, window))
    ensures Admitted(times, max, window) != [] ==>
              times != [] && Admitted(times, max, window)[|Admitted(times, max, window)| - 1] <= times[|times| - 1]
  {
    hide Admits, RowAfter;
    if times != [] {
      AdmittedInOrder(times[..|times| - 1], max, window);
    }
  }

  /** Consecutive members of a sequence lie no further apart than a window. */
  predicate Chained(s: seq<int>, window: int) {
    forall i :: 0 < i < |s| ==> s[i - 1] >= s[i] - window
  }

  lemma {:induction false} ChainLengthOf(s: seq<int>, k: nat, window: int)
    requires k < |s| && Chained(s[k..], window)
    ensures ChainLength(s, window) >= |s| - k
    decreases |s|
  {
    var n := |s| - 1;
    if k < n {
      assert s[k..][n - k] == s[n] && s[k..][n - k - 1] == s[n - 1];
      assert s[..n][k..] == s[k..][..n - k];
      ChainLengthOf(s[..n], k, window);
    }
  }

  /** No chain of admitted requests is longer than the maximum. */
  lemma {:induction false} ChainsAreShort(times: seq<int>, max: int, window: int, i: nat, j: nat)
    requires max >= 1
    requires var s := Admitted(times, max, window); i <= j <= |s| && Chained(s[i..j], window)
    ensures j - i <= max
    decreases |times|
  {
    if i < j {
      var n := |times| - 1;
      var s := Admitted(times, max, window);
      var before := Admitted(times[..n], max, window);
      if j == |s| {
        assert s[i..j] == s[i..];
        ChainLengthOf(s, i, window);
        RowIsChain(times, max, window);
      } else {
        assert before[i..j] == s[i..j];
        ChainsAreShort(times[..n], max, window, i, j);
      }
    }
  }

  /**
   The promise is kept in one direction: any closed interval no longer than the window contains at most max
   admitted requests.
   */
  lemma WindowBound(times: seq<int>, max: int, window: int, i: nat, j: nat, a: int, b: int)
    requires max >= 1 && Nondecreasing(times) && a <= b <= a + window
    requires var s := Admitted(times, max, window); i <= j <= |s| && forall k :: i <= k < j ==> a <= s[k] <= b
    ensures j - i <= max
  {
    hide Admitted;
    ChainsAreShort(times, max, window, i, j);
  }

  /**
   A request more than a window after the last admitted one is always admitted, and requests denied in
   between do not postpone that moment.
   */
  lemma {:induction false} DenialsDoNotDelay(times: seq<int>, denied: seq<int>, now: int, max: int, window: int)
    requires max >= 1
    requires Admitted(times + denied, max, window) == Admitted(times, max, window)
    ensures RowAfter(times + denied, max, window) == RowAfter(times, max, window)
    ensures var s := Admitted(times, max, window);
            s == [] || s[|s| - 1] < now - window ==>
              Admitted(times + denied + [now], max, window) == s + [now]
    decreases |denied|
  {
    var s := Admitted(times, max, window);
    if denied == [] {
      assert times + denied == times;
    } else {
      var n := |denied| - 1;
      assert (times + denied)[..|times| + n] == times + denied[..n];
      AdmittedGrows(times, denied[..n], max, window);
      AdmittedGrows(times, denied, max, window);
      DenialsDoNotDelay(times, denied[..n], now, max, window);
    }
    assert (times + denied + [now])[..|times + denied|] == times + denied;
    RowIsChain(times, max, window);
  }

  lemma {:induction false} AdmittedGrows(times: seq<int>, more: seq<int>, max: int, window: int)
    ensures Admitted(times, max, window) <= Admitted(times + more, max, window)
    ensures more != [] ==> |Admitted(times + more[..|more| - 1], max, window)| <= |Admitted(times + more, max, window)|
    decreases |more|
  {
    hide Admits, RowAfter;
    if more == [] {
      assert times + more == times;
    } else {
      var n := |more| - 1;
      assert (times + more)[..|times| + n] == times + more[..n];
      AdmittedGrows(times, more[..n], max, window);
    }
  }

  // ---------------------------------------------------------------- what is documented

  /** The admitted requests that a sliding window ending now still holds. */
  function InWindow(s: seq<int>, now: int, window: int): nat {
    if s == [] then 0
    else InWindow(s[..|s| - 1], now, window) + if s[|s| - 1] >= now - window then 1 else 0
  }

  /** The documented rule: at most max requests per window. */
  predicate DocumentedAdmits(s: seq<int>, now: int, max: int, window: int) {
    InWindow(s, now, window) < max
  }

  /** The time of the first request of the chain at the end of s. */
  function ChainStart(s: seq<int>, window: int): int {
    if s == [] then 0 else s[|s| - ChainLength(s, window)]
  }

  lemma {:induction false} InWindowSuffix(s: seq<int>, k: nat, now: int, window: int)
    requires Nondecreasing(s) && k <= |s|
    requires k < |s| ==> s[k] >= now - window
    requires k > 0 ==> s[k - 1] < now - window
    ensures InWindow(s, now, window) == |s| - k
  {
    if s != [] {
      var n := |s| - 1;
      if k < |s| {
        assert s[n] >= s[k];
        InWindowSuffix(s[..n], k, now, window);
      } else {
        assert forall i :: 0 <= i < n ==> s[i] <= s[n];
        InWindowSuffix(s[..n], n, now, window);
      }
    }
  }

  lemma {:induction false} WindowCut(s: seq<int>, now: int, window: int) returns (k: nat)
    requires Nondecreasing(s)
    ensures k <= |s| && (k < |s| ==> s[k] >= now - window) && (k > 0 ==> s[k - 1] < now - window)
  {
    if s == [] || s[|s| - 1] < now - window {
      k := |s|;
    } else {
      k := WindowCut(s[..|s| - 1], now, window);
    }
  }

  lemma {:induction false} ChainLengthBreak(s: seq<int>, window: int)
    requires Nondecreasing(s) && s != []
    ensures var c := |s| - ChainLength(s, window); c > 0 ==> s[c - 1] < s[c] - window
    ensures forall i :: |s| - ChainLength(s, window) < i < |s| ==> s[i - 1] >= s[i] - window
  {
    var n := |s| - 1;
    if n > 0 && s[n - 1] >= s[n] - window {
      ChainLengthBreak(s[..n], window);
    }
  }

  /** The times of n requests a whole window apart. */
  function Steady(n: nat, window: int): seq<int> {
    if n == 0 then [] else Steady(n - 1, window) + [(n - 1) * window]
  }

  lemma {:induction false} SteadyAdmitted(n: nat, max: int, window: int)
    requires n <= max && window >= 1
    ensures RowAfter(Steady(n, window), max, window) == if n == 0 then NEW_ROW else Row(n, Some((n - 1) * window))
    ensures Admitted(Steady(n, window), max, window) == Steady(n, window)
  {
    if n > 0 {
      var before, t := Steady(n - 1, window), (n - 1) * window;
      SteadyAdmitted(n - 1, max, window);
      assert (before + [t])[..|before + [t]| - 1] == before;
      assert n > 1 ==> t - window == (n - 2) * window;
    }
  }

  lemma {:induction false} NoneInWindow(n: nat, now: int, window: int)
    requires window >= 1 && n * window < now
    ensures InWindow(Steady(n, window), now, window) == 0
  {
    if n > 0 {
      var before, t := Steady(n - 1, window), (n - 1) * window;
      assert t + window == n * window;
      NoneInWindow(n - 1, now, window);
      assert (before + [t])[..|before + [t]| - 1] == before;
    }
  }

  /**
   Where code and documentation part. A client that sends one request per window is denied as soon as it
   has sent as many as are allowed in each window, although the window then holds only the one before.
   */
  lemma SteadyClientDenied(max: int, window: int)
    requires max >= 2 && window >= 1
    ensures var times, now := Steady(max, window), max * window;
            && Admitted(times, max, window) == times
            && InWindow(times, now, window) == 1
            && DocumentedAdmits(times, now, max, window)
            && !Admits(RowAfter(times, max, window), now, max, window)
  {
    var before, t := Steady(max - 1, window), (max - 1) * window;
    SteadyAdmitted(max, max, window);
    assert t + window == max * window;
    NoneInWindow(max - 1, max * window, window);
    assert (before + [t])[..|before + [t]| - 1] == before;
  }

  /** The key of an unchanged row: the hundred and first of requests a minute apart is denied. */
  lemma DefaultKeyDenied()
    ensures var times, now := Steady(DEFAULT_MAX, DEFAULT_WINDOW), DEFAULT_MAX * DEFAULT_WINDOW;
            && DocumentedAdmits(Admitted(times, DEFAULT_MAX, DEFAULT_WINDOW), now, DEFAULT_MAX, DEFAULT_WINDOW)
            && !Admits(RowAfter(times, DEFAULT_MAX, DEFAULT_WINDOW), now, DEFAULT_MAX, DEFAULT_WINDOW)
  {
    SteadyClientDenied(DEFAULT_MAX, DEFAULT_WINDOW);
  }

  /**
   Exactly when they agree: the code gives the documented answer unless the chain is full, still open and
   began before the window. (The code never admits a request that the documented rule denies.)
   */
  lemma AgreesWithDocumentationIff(times: seq<int>, now: int, max: int, window: int)
    requires max >= 1 && window >= 0 && Nondecreasing(times + [now])
    ensures var s, row := Admitted(times, max, window), RowAfter(times, max, window);
            && (Admits(row, now, max, window) ==> DocumentedAdmits(s, now, max, window))
            && ((Admits(row, now, max, window) <==> DocumentedAdmits(s, now, max, window)) <==>
                row.requestCount < max || NewChain(row, now - window) || ChainStart(s, window) >= now - window)
  {
    hide RowAfter, Admitted, ChainLength;
    var s, row := Admitted(times, max, window), RowAfter(times, max, window);
    assert Nondecreasing(times) by {
      assert forall i :: 0 <= i < |times| ==> (times + [now])[i] == times[i];
    }
    assert (times + [now])[|times|] == now;
    assert times != [] ==> (times + [now])[|times| - 1] <= (times + [now])[|times|];
    RowIsChain(times, max, window);
    AdmittedInOrder(times, max, window);
    var k := WindowCut(s, now, window);
    InWindowSuffix(s, k, now, window);
    if s != [] {
      ChainLengthBreak(s, window);
      var c := |s| - ChainLength(s, window);
      assert s[|s| - 1] <= now;
      assert !(k < c);  // the window does not reach back beyond the chain's start
    }
  }
}
