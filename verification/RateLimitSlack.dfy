/**
 * How far a fixed window falls short of a sliding one. Messages kept for the end of a window and the
 * start of the next put 2 * limit - 1 accepted messages into one interval of the window's length.
 */
module RateLimitSlack {
  import opened Sequences
  import opened RateLimits

  /** n times d. */
  function Span(n: nat, d: nat): nat {
    if n == 0 then 0 else Span(n - 1, d) + d
  }

  lemma {:induction false} SpanIsProduct(n: nat, d: nat)
    ensures Span(n, d) == n * d
  {
    if n > 0 {
      SpanIsProduct(n - 1, d);
      assert n * d == (n - 1) * d + d;
    }
  }

  lemma {:induction false} SpanMonotone(m: nat, n: nat, d: nat)
    requires m <= n
    ensures Span(m, d) <= Span(n, d)
    ensures m < n ==> Span(m, d) + d <= Span(n, d)
  {
    if m < n {
      SpanMonotone(m, n - 1, d);
    }
  }

  function Gap(d: nat): nat {
    if d == 0 then 1 else d
  }

  /** One message opens the window, limit - 1 end it, limit more begin the next; d seconds between them. */
  function Time(w: Window, d: nat, i: nat): int {
    if i == 0 then 0
    else if i < w.limit then w.ttl - Gap(d) - Span(w.limit - 1 - i, d)
    else w.ttl + Span(i - w.limit, d)
  }

  function Times(w: Window, d: nat, n: nat): seq<int> {
    seq(n, i requires 0 <= i < n => Time(w, d, i))
  }

  /**
   * The k-th window leaves room for that schedule, the earlier ones never fill up at one message in d
   * seconds, and the later ones admit all of it.
   */
  ghost predicate LeavesRoom(ws: seq<Window>, k: nat, d: nat) {
    && k < |ws| && (forall j :: 0 <= j < |ws| ==> Proper(ws[j]))
    && Gap(d) + Span(ws[k].limit - 1, d) + Span(Pred(ws[k].limit - 1), d) < ws[k].ttl
    && (forall j :: 0 <= j < k ==> d >= 1 && ws[j].ttl <= Span(ws[j].limit, d))
    && (forall j :: k < j < |ws| ==> 2 * ws[k].limit <= ws[j].limit)
  }

  /** Consecutive messages lie d seconds apart or more. */
  lemma Apart(w: Window, d: nat, i: nat)
    requires w.limit >= 1 && Gap(d) + Span(w.limit - 1, d) + Span(Pred(w.limit - 1), d) < w.ttl
    ensures Time(w, d, i) + d <= Time(w, d, i + 1)
    ensures i >= 1 ==> 0 < Time(w, d, 1) <= Time(w, d, i)
    decreases i
  {
    if i > 1 {
      Apart(w, d, i - 1);
    }
    if i + 1 < w.limit {
      SpanMonotone(w.limit - 2 - i, w.limit - 1 - i, d);
      SpanMonotone(w.limit - 2 - i, Pred(w.limit - 1), d);
      SpanMonotone(1, w.limit - 1, d);
    }
  }

  /** The state of the j-th window after the first n messages. */
  ghost predicate CounterOk(ws: seq<Window>, k: nat, d: nat, n: nat, j: nat, c: Option<Counter>)
    requires k < |ws| && j < |ws|
  {
    if n == 0 then c.None?
    else
      && c.Some? && c.value.count >= 1
      && var anchor := c.value.expiresAt - ws[j].ttl;
         if j < k then anchor + Span(c.value.count - 1, d) <= Time(ws[k], d, n - 1)
         else if j > k then c.value.count <= n
         else c.value == if n <= ws[k].limit then Counter(n, ws[k].ttl) else Counter(n - ws[k].limit, 2 * ws[k].ttl)
  }

  lemma EarlierAccepts(ws: seq<Window>, k: nat, d: nat, n: nat, j: nat, c: Option<Counter>)
    requires LeavesRoom(ws, k, d) && j < k && CounterOk(ws, k, d, n, j, c)
    ensures var hit := Hit(c, Time(ws[k], d, n), ws[j].ttl);
            hit.count <= ws[j].limit && CounterOk(ws, k, d, n + 1, j, Some(hit))
  {
    var now, w := Time(ws[k], d, n), ws[j];
    if c.Some? && now < c.value.expiresAt {
      Apart(ws[k], d, n - 1);
      if c.value.count >= w.limit {
        SpanMonotone(w.limit, c.value.count, d);
      }
    }
  }

  lemma OwnAccepts(ws: seq<Window>, k: nat, d: nat, n: nat, c: Option<Counter>)
    requires LeavesRoom(ws, k, d) && n < 2 * ws[k].limit && CounterOk(ws, k, d, n, k, c)
    ensures var hit := Hit(c, Time(ws[k], d, n), ws[k].ttl);
            hit.count <= ws[k].limit && CounterOk(ws, k, d, n + 1, k, Some(hit))
  {
    var w := ws[k];
    if n >= w.limit {
      SpanMonotone(n - w.limit, w.limit - 1, d);
    }
  }

  lemma Accepts(ws: seq<Window>, k: nat, d: nat, n: nat, j: nat, c: Option<Counter>)
    requires LeavesRoom(ws, k, d) && j < |ws| && n < 2 * ws[k].limit && CounterOk(ws, k, d, n, j, c)
    ensures var hit := Hit(c, Time(ws[k], d, n), ws[j].ttl);
            hit.count <= ws[j].limit && CounterOk(ws, k, d, n + 1, j, Some(hit))
  {
    if j < k {
      EarlierAccepts(ws, k, d, n, j, c);
    } else if j == k {
      OwnAccepts(ws, k, d, n, c);
    }
  }

  /** A chain whose windows all accept counts in each of them. */
  lemma {:induction false} ChainAccepts(ws: seq<Window>, counters: seq<Option<Counter>>, now: int)
    requires |ws| == |counters|
    requires forall j :: 0 <= j < |ws| ==> Hit(counters[j], now, ws[j].ttl).count <= ws[j].limit
    ensures var (ok, counters') := Chain(ws, counters, now);
            && ok && |counters'| == |ws|
            && forall j :: 0 <= j < |ws| ==> counters'[j] == Some(Hit(counters[j], now, ws[j].ttl))
  {
    if ws != [] {
      ChainAccepts(ws[1..], counters[1..], now);
    }
  }

  lemma RunAccepts(ws: seq<Window>, times: seq<int>, now: int)
    requires forall j :: 0 <= j < |ws| ==> Hit(RunChain(ws, times).1[j], now, ws[j].ttl).count <= ws[j].limit
    ensures RunChain(ws, times + [now]).0 == RunChain(ws, times).0 + [now]
    ensures forall j :: 0 <= j < |ws| ==>
              RunChain(ws, times + [now]).1[j] == Some(Hit(RunChain(ws, times).1[j], now, ws[j].ttl))
  {
    assert (times + [now])[..|times|] == times;
    ChainAccepts(ws, RunChain(ws, times).1, now);
  }

  lemma TimesNext(w: Window, d: nat, n: nat)
    ensures Times(w, d, n + 1) == Times(w, d, n) + [Time(w, d, n)]
  {
  }

  /** What the induction carries: all n messages were accepted, and every counter is as far as it should be. */
  ghost predicate AcceptedSoFar(ws: seq<Window>, k: nat, d: nat, n: nat)
    requires k < |ws|
  {
    var times := Times(ws[k], d, n);
    && RunChain(ws, times).0 == times
    && forall j :: 0 <= j < |ws| ==> CounterOk(ws, k, d, n, j, RunChain(ws, times).1[j])
  }

  lemma OneMoreAccepted(ws: seq<Window>, k: nat, d: nat, n: nat)
    requires LeavesRoom(ws, k, d) && n < 2 * ws[k].limit && AcceptedSoFar(ws, k, d, n)
    ensures AcceptedSoFar(ws, k, d, n + 1)
  {
    var times, now := Times(ws[k], d, n), Time(ws[k], d, n);
    TimesNext(ws[k], d, n);
    var counters := RunChain(ws, times).1;
    forall j | 0 <= j < |ws|
      ensures Hit(counters[j], now, ws[j].ttl).count <= ws[j].limit
              && CounterOk(ws, k, d, n + 1, j, Some(Hit(counters[j], now, ws[j].ttl)))
    {
      Accepts(ws, k, d, n, j, counters[j]);
    }
    RunAccepts(ws, times, now);
  }

  lemma {:induction false} AllAccepted(ws: seq<Window>, k: nat, d: nat, n: nat)
    requires LeavesRoom(ws, k, d) && n <= 2 * ws[k].limit
    ensures AcceptedSoFar(ws, k, d, n)
  {
    if n > 0 {
      AllAccepted(ws, k, d, n - 1);
      OneMoreAccepted(ws, k, d, n - 1);
    }
  }

  /** From the second message on all lie in one interval, and the first does not. */
  lemma InInterval(w: Window, d: nat, i: nat)
    requires w.limit >= 1 && Gap(d) + Span(w.limit - 1, d) + Span(Pred(w.limit - 1), d) < w.ttl
    requires i < 2 * w.limit
    ensures Time(w, d, 1) <= Time(w, d, i) < Time(w, d, 1) + w.ttl <==> i >= 1
  {
    Apart(w, d, 1);
    if i >= 1 {
      Apart(w, d, i);
      if i >= w.limit {
        SpanMonotone(i - w.limit, w.limit - 1, d);
      }
    }
  }

  lemma {:induction false} AllButTheFirst(w: Window, d: nat, n: nat)
    requires w.limit >= 1 && Gap(d) + Span(w.limit - 1, d) + Span(Pred(w.limit - 1), d) < w.ttl
    requires 1 <= n <= 2 * w.limit
    ensures CountFrom(Times(w, d, n), Time(w, d, 1), w.ttl) == n - 1
  {
    var a, before, t := Time(w, d, 1), Times(w, d, n - 1), Time(w, d, n - 1);
    TimesNext(w, d, n - 1);
    CountAppend(before, t, a, a + w.ttl);
    InInterval(w, d, n - 1);
    if n == 1 {
      assert before == [];
    } else {
      AllButTheFirst(w, d, n - 1);
    }
  }

  lemma {:induction false} TimesInOrder(w: Window, d: nat, i: nat, j: nat)
    requires w.limit >= 1 && Gap(d) + Span(w.limit - 1, d) + Span(Pred(w.limit - 1), d) < w.ttl && i <= j
    ensures Time(w, d, i) <= Time(w, d, j)
  {
    if i < j {
      TimesInOrder(w, d, i, j - 1);
      Apart(w, d, j - 1);
    }
  }

  /** Some run of messages through the chain puts n accepted ones into one interval of the k-th window's ttl. */
  ghost predicate CanHold(ws: seq<Window>, k: nat, n: nat)
    requires k < |ws|
  {
    exists times, a: int :: NonDecreasing(times) && CountFrom(RunChain(ws, times).0, a, ws[k].ttl) >= n
  }

  /** In a chain that leaves room for it, 2 * limit - 1 are reached. */
  lemma BoundIsReached(ws: seq<Window>, k: nat, d: nat)
    requires LeavesRoom(ws, k, d)
    ensures CanHold(ws, k, 2 * ws[k].limit - 1)
  {
    var w := ws[k];
    var times := Times(w, d, 2 * w.limit);
    forall i, j | 0 <= i < j < |times| ensures times[i] <= times[j] {
      TimesInOrder(w, d, i, j);
    }
    AllAccepted(ws, k, d, 2 * w.limit);
    AllButTheFirst(w, d, 2 * w.limit);
    assert NonDecreasing(times) && CountFrom(RunChain(ws, times).0, Time(w, d, 1), w.ttl) == 2 * w.limit - 1;
  }

  /** All three windows of the assistant chat, each in the chain with the two others: 19, 199 and 999. */
  lemma AgentBoundsAreReached()
    ensures CanHold(AGENT_WINDOWS, 0, 19) && CanHold(AGENT_WINDOWS, 1, 199) && CanHold(AGENT_WINDOWS, 2, 999)
  {
    MinuteBoundIsReached();
    HourBoundIsReached();
    DayBoundIsReached();
  }

  /** So for each of them the most is exactly that, over every run through the chain. */
  lemma AgentBoundsAreExact(k: nat, n: nat)
    requires k < |AGENT_WINDOWS|
    ensures CanHold(AGENT_WINDOWS, k, n) <==> n <= 2 * AGENT_WINDOWS[k].limit - 1
  {
    var ws := AGENT_WINDOWS;
    if n <= 2 * ws[k].limit - 1 {
      AgentBoundsAreReached();
      var times, a: int :|
        NonDecreasing(times) && CountFrom(RunChain(ws, times).0, a, ws[k].ttl) >= 2 * ws[k].limit - 1;
      assert CountFrom(RunChain(ws, times).0, a, ws[k].ttl) >= n;
    } else {
      forall times, a: int | NonDecreasing(times) ensures CountFrom(RunChain(ws, times).0, a, ws[k].ttl) < n {
        AnySlidingWindowIsBounded(ws, times);
        assert Bounded(RunChain(ws, times).0, ws[k]);
      }
    }
  }

  lemma MinuteBoundIsReached()
    ensures CanHold(AGENT_WINDOWS, 0, 19)
  {
    SpanIsProduct(9, 1);
    SpanIsProduct(8, 1);
    BoundIsReached(AGENT_WINDOWS, 0, 1);
  }

  lemma HourBoundIsReached()
    ensures CanHold(AGENT_WINDOWS, 1, 199)
  {
    SpanIsProduct(99, 7);
    SpanIsProduct(98, 7);
    SpanIsProduct(10, 7);
    BoundIsReached(AGENT_WINDOWS, 1, 7);
  }

  lemma DayBoundIsReached()
    ensures CanHold(AGENT_WINDOWS, 2, 999)
  {
    SpanIsProduct(499, 36);
    SpanIsProduct(498, 36);
    SpanIsProduct(10, 36);
    SpanIsProduct(100, 36);
    BoundIsReached(AGENT_WINDOWS, 2, 36);
  }

  // ---- when a window does what its limit says ----

  /** With a ttl of one tick the counter counts the messages of one instant. */
  lemma {:induction false} OneTick(w: Window, times: seq<int>, a: int)
    requires NonDecreasing(times) && Proper(w) && w.ttl == 1
    ensures CountFrom(RunChain([w], times).0, a, 1) <= w.limit
  {
    if times != [] {
      var front, now := times[..|times| - 1], times[|times| - 1];
      OneTick(w, front, a);
      RunChainInvariant([w], front);
      RunChainInvariant([w], times);
      var accepted := RunChain([w], times).0;
      var c := RunChain([w], times).1[0].value;
      if accepted != RunChain([w], front).0 {
        CountAppend(RunChain([w], front).0, now, a, a + 1);
        assert c.expiresAt - 1 <= now;
        assert now in accepted && now < c.expiresAt;
      }
    }
  }

  /** A window on its own reaches its bound whenever its ttl is at least two. */
  lemma SingleBoundIsReached(w: Window)
    requires w.limit >= 1 && w.ttl >= 2
    ensures CanHold([w], 0, 2 * w.limit - 1)
  {
    SpanIsProduct(w.limit - 1, 0);
    SpanIsProduct(Pred(w.limit - 1), 0);
    BoundIsReached([w], 0, 0);
  }

  /**
   * An interval of one ttl can hold more than limit accepted messages if and only if the limit and the
   * ttl are both at least two, which they are in every window the program uses.
   */
  lemma SlackExactly(w: Window)
    requires Proper(w)
    ensures CanHold([w], 0, w.limit + 1) <==> w.limit >= 2 && w.ttl >= 2
  {
    var ws := [w];
    if w.limit >= 2 && w.ttl >= 2 {
      SingleBoundIsReached(w);
      var times, a: int :|
        NonDecreasing(times) && CountFrom(RunChain(ws, times).0, a, ws[0].ttl) >= 2 * w.limit - 1;
      assert CountFrom(RunChain(ws, times).0, a, ws[0].ttl) >= w.limit + 1;
    } else {
      forall times, a: int | NonDecreasing(times) ensures CountFrom(RunChain(ws, times).0, a, w.ttl) < w.limit + 1 {
        if w.ttl == 1 {
          OneTick(w, times, a);
        } else {
          AnySlidingWindowIsBounded(ws, times);
          assert Bounded(RunChain(ws, times).0, ws[0]);
        }
      }
    }
  }

  // ---- the support chat ----

  lemma {:induction false} NoMoreThanSent(ws: seq<Window>, times: seq<int>)
    ensures |RunChain(ws, times).0| <= |times|
  {
    if times != [] {
      NoMoreThanSent(ws, times[..|times| - 1]);
    }
  }

  /** While its window refuses nothing, the support chat is just that window. */
  lemma {:induction false} ChatFollowsWindow(times: seq<int>)
    requires RunChain([CHAT_WINDOW], times).0 == times
    ensures RunChat(times).accepted == times
    ensures RunChat(times).guard == ChatGuard(RunChain([CHAT_WINDOW], times).1[0], None, None)
  {
    if times != [] {
      var n := |times| - 1;
      NoMoreThanSent([CHAT_WINDOW], times[..n]);
      assert times == times[..n] + [times[n]];
      ChatFollowsWindow(times[..n]);
    }
  }

  /** Nine messages within ten seconds pass the support chat's limit of five. */
  lemma ChatBoundIsReached()
    ensures exists times, a: int ::
              NonDecreasing(times) && CountFrom(RunChat(times).accepted, a, CHAT_WINDOW.ttl) == 2 * CHAT_WINDOW.limit - 1
  {
    var w := CHAT_WINDOW;
    var times := Times(w, 0, 2 * w.limit);
    SpanIsProduct(w.limit - 1, 0);
    SpanIsProduct(Pred(w.limit - 1), 0);
    forall i, j | 0 <= i < j < |times| ensures times[i] <= times[j] {
      TimesInOrder(w, 0, i, j);
    }
    AllAccepted([w], 0, 0, 2 * w.limit);
    AllButTheFirst(w, 0, 2 * w.limit);
    ChatFollowsWindow(times);
    assert NonDecreasing(times) && CountFrom(RunChat(times).accepted, Time(w, 0, 1), w.ttl) == 9;
  }
}
