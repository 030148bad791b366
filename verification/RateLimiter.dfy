/** The sliding-window request limit of QueryService::checkFrequencyLimit. */
module RateLimiter {

  const MAX_REQUESTS := 10
  const SECOND := 1_000_000_000  // steady_clock ticks

  ghost predicate NonDecreasing(s: seq<int>) {
    forall i, j :: 0 <= i < j < |s| ==> s[i] <= s[j]
  }

  // How many of the recorded times lie in [low, high].
  function CountIn(times: seq<int>, low: int, high: int): nat {
    if times == [] then 0
    else CountIn(times[..|times| - 1], low, high) + if low <= times[|times| - 1] <= high then 1 else 0
  }

  // The reference: decide by counting over the whole history of accepted requests.
  function Accepts(history: seq<int>, now: int): bool {
    CountIn(history, now - SECOND, now) < MAX_REQUESTS
  }

  function Record(history: seq<int>, now: int): seq<int> {
    if Accepts(history, now) then history + [now] else history
  }

  function Replay(requests: seq<int>): seq<int> {
    if requests == [] then [] else Record(Replay(requests[..|requests| - 1]), requests[|requests| - 1])
  }

  // The requests in [low, high], each by its place.
  ghost function Within(times: seq<int>, low: int, high: int): set<nat> {
    set i: nat | i < |times| && low <= times[i] <= high
  }

  lemma {:induction false} CountIsWithin(times: seq<int>, low: int, high: int)
    ensures CountIn(times, low, high) == |Within(times, low, high)|
  {
    if times != [] {
      var n := |times| - 1;
      CountIsWithin(times[..n], low, high);
      assert Within(times, low, high)
          == Within(times[..n], low, high) + if low <= times[n] <= high then {n} else {};
    } else {
      assert Within(times, low, high) == {};
    }
  }

  // A request is accepted exactly while fewer than ten lie in the second up to it, in nanoseconds.
  lemma AcceptsIff(history: seq<int>, now: int)
    ensures Accepts(history, now) <==> |Within(history, now - 1_000_000_000, now)| < 10
  {
    CountIsWithin(history, now - 1_000_000_000, now);
  }

  // Eleven accepted requests span more than a second.
  ghost predicate Spaced(history: seq<int>) {
    forall i, j :: 0 <= i && i + MAX_REQUESTS <= j < |history| ==> history[j] - history[i] > SECOND
  }

  lemma {:induction false} CountNone(times: seq<int>, low: int, high: int)
    requires forall i :: 0 <= i < |times| ==> times[i] < low
    ensures CountIn(times, low, high) == 0
  {
    if times != [] {
      CountNone(times[..|times| - 1], low, high);
    }
  }

  lemma {:induction false} CountAll(times: seq<int>, low: int, high: int)
    requires forall i :: 0 <= i < |times| ==> low <= times[i] <= high
    ensures CountIn(times, low, high) == |times|
  {
    if times != [] {
      CountAll(times[..|times| - 1], low, high);
    }
  }

  lemma {:induction false} CountSplit(a: seq<int>, b: seq<int>, low: int, high: int)
    ensures CountIn(a + b, low, high) == CountIn(a, low, high) + CountIn(b, low, high)
  {
    if b == [] {
      assert a + b == a;
    } else {
      assert (a + b)[..|a + b| - 1] == a + b[..|b| - 1];
      CountSplit(a, b[..|b| - 1], low, high);
    }
  }

  lemma RecordOrdered(history: seq<int>, now: int)
    requires NonDecreasing(history) && (history != [] ==> history[|history| - 1] <= now)
    ensures NonDecreasing(Record(history, now))
    ensures (Record(history, now) != [] ==> Record(history, now)[|Record(history, now)| - 1] <= now)
  {
  }

  lemma RecordKeepsSpacing(history: seq<int>, now: int)
    requires NonDecreasing(history) && Spaced(history)
    requires history != [] ==> history[|history| - 1] <= now
    ensures NonDecreasing(Record(history, now)) && Spaced(Record(history, now))
  {
    if Accepts(history, now) {
      if |history| >= MAX_REQUESTS {
        TenthIsOld(history, now);
      }
      var longer := history + [now];
      forall i, j | 0 <= i && i + MAX_REQUESTS <= j < |longer| ensures longer[j] - longer[i] > SECOND {
        if j == |history| {
          assert history[i] <= history[|history| - MAX_REQUESTS];
        }
      }
    }
  }

  // If fewer than ten accepted requests lie in the last second, the tenth last one is older.
  lemma TenthIsOld(history: seq<int>, now: int)
    requires NonDecreasing(history) && |history| >= MAX_REQUESTS && history[|history| - 1] <= now
    requires Accepts(history, now)
    ensures history[|history| - MAX_REQUESTS] < now - SECOND
  {
    var k := |history| - MAX_REQUESTS;
    CountSplit(history[..k], history[k..], now - SECOND, now);
    assert history == history[..k] + history[k..];
    if history[k] >= now - SECOND {
      CountAll(history[k..], now - SECOND, now);
    }
  }

  lemma {:induction false} ReplaySpaced(requests: seq<int>)
    requires NonDecreasing(requests)
    ensures NonDecreasing(Replay(requests)) && Spaced(Replay(requests))
    ensures Replay(requests) != [] ==>
      requests != [] && Replay(requests)[|Replay(requests)| - 1] <= requests[|requests| - 1]
  {
    if requests != [] {
      ReplaySpaced(requests[..|requests| - 1]);
      RecordKeepsSpacing(Replay(requests[..|requests| - 1]), requests[|requests| - 1]);
    }
  }

  // Over any run with a non-decreasing clock, every closed window of one second
  // holds at most ten accepted requests.
  lemma WindowBound(requests: seq<int>, start: int)
    requires NonDecreasing(requests)
    ensures |Within(Replay(requests), start, start + 1_000_000_000)| <= 10
  {
    ReplaySpaced(requests);
    SpacedBound(Replay(requests), start);
    CountIsWithin(Replay(requests), start, start + 1_000_000_000);
  }

  lemma SpacedPrefix(history: seq<int>, n: nat)
    requires NonDecreasing(history) && Spaced(history) && n <= |history|
    ensures NonDecreasing(history[..n]) && Spaced(history[..n])
  {
    forall i, j | 0 <= i && i + MAX_REQUESTS <= j < n ensures history[..n][j] - history[..n][i] > SECOND {
      assert history[j] - history[i] > SECOND;
    }
  }

  // When the last request lies in the window, all but the last ten lie before it.
  lemma OthersAreOld(history: seq<int>, start: int)
    requires Spaced(history) && |history| > MAX_REQUESTS && history[|history| - 1] <= start + SECOND
    ensures CountIn(history[..|history| - MAX_REQUESTS], start, start + SECOND) == 0
  {
    var k := |history| - MAX_REQUESTS;
    forall i | 0 <= i < k ensures history[..k][i] < start {
      assert history[|history| - 1] - history[i] > SECOND;
    }
    CountNone(history[..k], start, start + SECOND);
  }

  lemma RecentBound(history: seq<int>, start: int)
    requires Spaced(history) && |history| > MAX_REQUESTS && history[|history| - 1] <= start + SECOND
    ensures CountIn(history, start, start + SECOND) <= MAX_REQUESTS
  {
    var k := |history| - MAX_REQUESTS;
    CountSplit(history[..k], history[k..], start, start + SECOND);
    OthersAreOld(history, start);
    CountAtMost(history[k..], start, start + SECOND);
    assert history[..k] + history[k..] == history;
  }

  lemma {:induction false} SpacedBound(history: seq<int>, start: int)
    requires NonDecreasing(history) && Spaced(history)
    ensures CountIn(history, start, start + SECOND) <= MAX_REQUESTS
  {
    if |history| <= MAX_REQUESTS {
      CountAtMost(history, start, start + SECOND);
    } else if history[|history| - 1] <= start + SECOND {
      RecentBound(history, start);
    } else {
      SpacedPrefix(history, |history| - 1);
      SpacedBound(history[..|history| - 1], start);
    }
  }

  lemma {:induction false} CountAtMost(times: seq<int>, low: int, high: int)
    ensures CountIn(times, low, high) <= |times|
  {
    if times != [] {
      CountAtMost(times[..|times| - 1], low, high);
    }
  }

  // The deque holds the history from some point on, and at that point the window begins.
  ghost predicate IsWindow(window: seq<int>, history: seq<int>, dropped: nat, cutoff: int) {
    && dropped <= |history| && window == history[dropped..]
    && forall i :: 0 <= i < dropped ==> history[i] < cutoff
  }

  lemma WindowCount(history: seq<int>, window: seq<int>, dropped: nat, now: int)
    requires NonDecreasing(history) && (history != [] ==> history[|history| - 1] <= now)
    requires IsWindow(window, history, dropped, now - SECOND)
    requires window != [] ==> window[0] >= now - SECOND
    ensures CountIn(history, now - SECOND, now) == |window|
  {
    assert history == history[..dropped] + window;
    CountSplit(history[..dropped], window, now - SECOND, now);
    CountNone(history[..dropped], now - SECOND, now);
    CountAll(window, now - SECOND, now);
  }

  ghost predicate WindowAt(window: seq<int>, history: seq<int>, dropped: nat, clock: int) {
    && NonDecreasing(history) && (history != [] ==> history[|history| - 1] <= clock)
    && IsWindow(window, history, dropped, clock - SECOND)
  }

  lemma RequestKeepsWindow(window: seq<int>, history: seq<int>, dropped: nat, now: int)
    requires WindowAt(window, history, dropped, now)
    ensures WindowAt(if Accepts(history, now) then window + [now] else window, Record(history, now), dropped, now)
  {
    RecordOrdered(history, now);
    assert (history + [now])[dropped..] == history[dropped..] + [now];
  }

  class RateLimiter {
    var requestTimestamps: seq<int>
    ghost var history: seq<int>  // every accepted request
    ghost var dropped: nat       // how many of them were popped
    ghost var clock: int         // no earlier than any request so far

    ghost predicate Valid()
      reads this
    {
      WindowAt(requestTimestamps, history, dropped, clock)
    }

    constructor ()
      ensures Valid() && history == []
    {
      requestTimestamps, history, dropped, clock := [], [], 0, 0;
    }

    // Rejected exactly when ten accepted requests lie in the last second.
    method CheckFrequencyLimit(now: int) returns (ok: bool)
      requires Valid() && (clock <= now || history == [])
      modifies this
      ensures Valid() && clock == now
      ensures ok == Accepts(old(history), now)
      ensures history == Record(old(history), now)
      ensures ok <==> |Within(old(history), now - 1_000_000_000, now)| < 10
      ensures history == if ok then old(history) + [now] else old(history)
    {
      AcceptsIff(history, now);
      PopOld(now - SECOND);
      WindowCount(history, requestTimestamps, dropped, now);
      RequestKeepsWindow(requestTimestamps, history, dropped, now);
      ok := |requestTimestamps| < MAX_REQUESTS;
      if ok {
        requestTimestamps := requestTimestamps + [now];
      }
      history := Record(history, now);
      clock := now;
    }

    method PopOld(cutoff: int)
      requires IsWindow(requestTimestamps, history, dropped, clock - SECOND)
      requires clock - SECOND <= cutoff || history == []
      modifies this`requestTimestamps, this`dropped
      ensures IsWindow(requestTimestamps, history, dropped, cutoff)
      ensures requestTimestamps != [] ==> requestTimestamps[0] >= cutoff
    {
      while requestTimestamps != [] && requestTimestamps[0] < cutoff
        invariant IsWindow(requestTimestamps, history, dropped, cutoff)
        decreases |requestTimestamps|
      {
        requestTimestamps := requestTimestamps[1..];
        dropped := dropped + 1;
      }
    }
  }
}
