/**
 * Redis fixed windows: a counter key gets its time to live when it is created, and a message is
 * accepted while the counter stays within the limit. Used by the assistant chat (three chained
 * windows), the support chat (with violations and a mute) and the feed (new sessions).
 */
module RateLimits {
  import opened Sequences

  datatype Counter = Counter(count: nat, expiresAt: int)

  datatype Window = Window(limit: nat, ttl: nat)

  /** `INCR`, then `EXPIRE` if the counter was just created. An expired key counts as absent. */
  function Hit(c: Option<Counter>, now: int, ttl: nat): Counter {
    if c.Some? && now < c.value.expiresAt then c.value.(count := c.value.count + 1)
    else Counter(1, now + ttl)
  }

  // ---- counting accepted messages ----

  /** How many of the times lie in [lo, hi). */
  ghost function CountIn(times: seq<int>, lo: int, hi: int): nat {
    if times == [] then 0
    else CountIn(times[..|times| - 1], lo, hi) + (if lo <= times[|times| - 1] < hi then 1 else 0)
  }

  lemma CountAppend(times: seq<int>, t: int, lo: int, hi: int)
    ensures CountIn(times + [t], lo, hi) == CountIn(times, lo, hi) + (if lo <= t < hi then 1 else 0)
  {
    assert (times + [t])[..|times|] == times;
  }

  lemma {:induction false} CountSplit(times: seq<int>, lo: int, mid: int, hi: int)
    requires lo <= mid <= hi
    ensures CountIn(times, lo, hi) == CountIn(times, lo, mid) + CountIn(times, mid, hi)
  {
    if times != [] {
      CountSplit(times[..|times| - 1], lo, mid, hi);
    }
  }

  /** Only the times actually present matter. */
  lemma {:induction false} CountWithin(times: seq<int>, lo: int, hi: int, lo': int, hi': int)
    requires forall t :: t in times && lo <= t < hi ==> lo' <= t < hi'
    ensures CountIn(times, lo, hi) <= CountIn(times, lo', hi')
  {
    if times != [] {
      var front, last := times[..|times| - 1], times[|times| - 1];
      assert last in times && forall t :: t in front ==> t in times;
      CountWithin(front, lo, hi, lo', hi');
    }
  }

  // ---- one window ----

  /** How many of the times lie in the interval of length ttl that starts at a. */
  ghost function CountFrom(times: seq<int>, a: int, ttl: nat): nat {
    CountIn(times, a, a + ttl)
  }

  /** The claim: no half-open interval of one ttl holds 2 * limit accepted messages. */
  ghost predicate Bounded(accepted: seq<int>, w: Window) {
    forall a: int :: CountFrom(accepted, a, w.ttl) < 2 * w.limit
  }

  function Pred(n: int): nat {
    if n <= 0 then 0 else n - 1
  }

  /**
   * What the counter knows about the accepted messages it has counted. The message that created the
   * key lies at the anchor itself, so strictly after the anchor one less is accepted.
   */
  ghost predicate WindowInvariant(accepted: seq<int>, c: Option<Counter>, w: Window) {
    && Bounded(accepted, w)
    && (c.None? ==> accepted == [])
    && (c.Some? ==>
         var anchor := c.value.expiresAt - w.ttl;
         && (forall t :: t in accepted ==> t < c.value.expiresAt)
         && CountIn(accepted, anchor, c.value.expiresAt) <= Min(c.value.count, w.limit)
         && CountIn(accepted, anchor + 1, c.value.expiresAt) <= Pred(Min(c.value.count, w.limit))
         && (forall x: int :: anchor - w.ttl < x ==> CountIn(accepted, x, anchor) < w.limit))
  }

  ghost predicate Proper(w: Window) {
    w.ttl >= 1 && w.limit >= 1
  }

  /** A new counter window starts: everything accepted so far lies in front of it. */
  lemma Restart(accepted: seq<int>, c: Option<Counter>, w: Window, now: int)
    requires Proper(w) && WindowInvariant(accepted, c, w)
    requires c.Some? ==> c.value.expiresAt <= now
    ensures WindowInvariant(accepted, Some(Counter(0, now + w.ttl)), w)
  {
    if c.Some? {
      var anchor := c.value.expiresAt - w.ttl;
      CountZero(accepted);
      CountWithin(accepted, now, now + w.ttl, 0, 0);
      CountWithin(accepted, now + 1, now + w.ttl, 0, 0);
      forall x: int | now - w.ttl < x ensures CountIn(accepted, x, now) < w.limit {
        CountWithin(accepted, x, now, anchor + 1, c.value.expiresAt);
      }
    }
  }

  lemma {:induction false} CountZero(times: seq<int>)
    ensures CountIn(times, 0, 0) == 0
  {
    if times != [] {
      CountZero(times[..|times| - 1]);
    }
  }

  /** Counting one more message in a live window; it may only be accepted within the limit. */
  lemma Accept(accepted: seq<int>, c: Counter, w: Window, now: int)
    requires Proper(w) && WindowInvariant(accepted, Some(c), w) && c.count < w.limit
    requires c.expiresAt - w.ttl <= now < c.expiresAt
    requires c.count == 0 ==> now == c.expiresAt - w.ttl
    ensures WindowInvariant(accepted + [now], Some(c.(count := c.count + 1)), w)
  {
    var acc, anchor := accepted + [now], c.expiresAt - w.ttl;
    CountAppend(accepted, now, anchor, c.expiresAt);
    CountAppend(accepted, now, anchor + 1, c.expiresAt);
    forall x: int | anchor - w.ttl < x ensures CountIn(acc, x, anchor) < w.limit {
      CountAppend(accepted, now, x, anchor);
    }
    forall a: int ensures CountFrom(acc, a, w.ttl) < 2 * w.limit {
      assert CountFrom(accepted, a, w.ttl) < 2 * w.limit;
      CountAppend(accepted, now, a, a + w.ttl);
      if a <= now < a + w.ttl {
        if a >= anchor {
          CountWithin(acc, a, a + w.ttl, anchor, c.expiresAt);
        } else {
          CountSplit(acc, a, anchor, a + w.ttl);
          CountWithin(acc, anchor, a + w.ttl, anchor, c.expiresAt);
        }
      }
    }
  }

  /** A stored counter has counted something and was created no later than now. */
  ghost predicate Started(c: Option<Counter>, w: Window, now: int) {
    c.Some? ==> c.value.count >= 1 && c.value.expiresAt - w.ttl <= now
  }

  /** One message through one window, whether or not it is finally accepted. */
  lemma HitKeepsInvariant(accepted: seq<int>, c: Option<Counter>, w: Window, now: int, ok: bool)
    requires Proper(w) && WindowInvariant(accepted, c, w)
    requires Started(c, w, now)
    requires ok ==> Hit(c, now, w.ttl).count <= w.limit
    ensures WindowInvariant(if ok then accepted + [now] else accepted, Some(Hit(c, now, w.ttl)), w)
    ensures Started(Some(Hit(c, now, w.ttl)), w, now)
  {
    if c.None? || c.value.expiresAt <= now {
      Restart(accepted, c, w, now);
      if ok {
        Accept(accepted, Counter(0, now + w.ttl), w, now);
      }
    } else if ok {
      Accept(accepted, c.value, w, now);
    }
  }

  // ---- chained windows: `AgentRateLimiter.check` ----

  const AGENT_WINDOWS: seq<Window> := [Window(10, 60), Window(100, 3600), Window(500, 86400)]

  const NEW_FEED_SESSIONS: seq<Window> := [Window(15, 60)]

  /** Count the message window by window; a refusal leaves the later windows uncounted. */
  ghost function Chain(ws: seq<Window>, counters: seq<Option<Counter>>, now: int): (bool, seq<Option<Counter>>)
    requires |ws| == |counters|
  {
    if ws == [] then (true, [])
    else
      var c := Hit(counters[0], now, ws[0].ttl);
      if c.count > ws[0].limit then (false, [Some(c)] + counters[1..])
      else
        var (ok, rest) := Chain(ws[1..], counters[1..], now);
        (ok, [Some(c)] + rest)
  }

  lemma {:induction false} ChainKeepsLength(ws: seq<Window>, counters: seq<Option<Counter>>, now: int)
    requires |ws| == |counters|
    ensures |Chain(ws, counters, now).1| == |ws|
  {
    if ws != [] {
      ChainKeepsLength(ws[1..], counters[1..], now);
    }
  }

  /** The message finds room in the k-th window. */
  predicate Passes(ws: seq<Window>, counters: seq<Option<Counter>>, now: int, k: nat)
    requires k < |ws| == |counters|
  {
    Hit(counters[k], now, ws[k].ttl).count <= ws[k].limit
  }

  predicate PassesFirst(ws: seq<Window>, counters: seq<Option<Counter>>, now: int, n: nat)
    requires n <= |ws| == |counters|
  {
    forall k :: 0 <= k < n ==> Passes(ws, counters, now, k)
  }

  lemma PassesTail(ws: seq<Window>, counters: seq<Option<Counter>>, now: int, n: nat)
    requires 1 <= n <= |ws| == |counters|
    ensures PassesFirst(ws, counters, now, n)
            <==> Passes(ws, counters, now, 0) && PassesFirst(ws[1..], counters[1..], now, n - 1)
  {
    forall k | 1 <= k < n ensures Passes(ws, counters, now, k) <==> Passes(ws[1..], counters[1..], now, k - 1) {
    }
    if PassesFirst(ws, counters, now, n) {
      forall k | 0 <= k < n - 1 ensures Passes(ws[1..], counters[1..], now, k) {
        assert Passes(ws, counters, now, k + 1);
      }
    }
  }

  /**
   * A message is accepted if and only if every window has room for it; it is counted in each window up to
   * the first that has none, that one included, and in no later one.
   */
  lemma {:induction false} ChainExactly(ws: seq<Window>, counters: seq<Option<Counter>>, now: int, j: nat)
    requires |ws| == |counters| && j < |ws|
    ensures var (ok, counters') := Chain(ws, counters, now);
            && |counters'| == |ws|
            && (ok <==> PassesFirst(ws, counters, now, |ws|))
            && counters'[j] == if PassesFirst(ws, counters, now, j) then Some(Hit(counters[j], now, ws[j].ttl))
                               else counters[j]
  {
    PassesTail(ws, counters, now, |ws|);
    ChainKeepsLength(ws, counters, now);
    ChainKeepsLength(ws[1..], counters[1..], now);
    if j >= 1 {
      PassesTail(ws, counters, now, j);
      ChainExactly(ws[1..], counters[1..], now, j - 1);
    } else if |ws| > 1 {
      ChainExactly(ws[1..], counters[1..], now, 0);
    }
  }

  lemma {:induction false} ChainKeepsInvariant(ws: seq<Window>, counters: seq<Option<Counter>>, now: int,
          accepted: seq<int>, ok: bool)
    requires |ws| == |counters| && (ok ==> Chain(ws, counters, now).0)
    requires forall k :: 0 <= k < |ws| ==> Proper(ws[k]) && WindowInvariant(accepted, counters[k], ws[k])
    requires forall k :: 0 <= k < |ws| ==> Started(counters[k], ws[k], now)
    ensures var counters' := Chain(ws, counters, now).1;
            && |counters'| == |ws|
            && (forall k :: 0 <= k < |ws| ==>
                  WindowInvariant(if ok then accepted + [now] else accepted, counters'[k], ws[k]))
            && (forall k :: 0 <= k < |ws| ==> Started(counters'[k], ws[k], now))
  {
    ChainKeepsLength(ws, counters, now);
    if ws != [] {
      HitKeepsInvariant(accepted, counters[0], ws[0], now, ok);
      if Hit(counters[0], now, ws[0].ttl).count <= ws[0].limit {
        ChainKeepsInvariant(ws[1..], counters[1..], now, accepted, ok);
      }
    }
  }

  /** The counters and the accepted times after the messages at the given times. */
  ghost function RunChain(ws: seq<Window>, times: seq<int>): (r: (seq<int>, seq<Option<Counter>>))
    ensures |r.1| == |ws|
  {
    if times == [] then ([], seq(|ws|, _ => None))
    else
      var now := times[|times| - 1];
      var (accepted, counters) := RunChain(ws, times[..|times| - 1]);
      ChainKeepsLength(ws, counters, now);
      var (ok, counters') := Chain(ws, counters, now);
      (if ok then accepted + [now] else accepted, counters')
  }

  ghost predicate NonDecreasing(times: seq<int>) {
    forall i, j :: 0 <= i < j < |times| ==> times[i] <= times[j]
  }

  lemma {:induction false} RunChainInvariant(ws: seq<Window>, times: seq<int>)
    requires NonDecreasing(times) && forall k :: 0 <= k < |ws| ==> Proper(ws[k])
    ensures var (accepted, counters) := RunChain(ws, times);
            && (forall k :: 0 <= k < |ws| ==> WindowInvariant(accepted, counters[k], ws[k]))
            && (forall k :: 0 <= k < |ws| ==>
                  if times == [] then counters[k].None? else Started(counters[k], ws[k], times[|times| - 1]))
  {
    if times == [] {
      forall k | 0 <= k < |ws| ensures WindowInvariant([], None, ws[k]) {
      }
    } else {
      var front, now := times[..|times| - 1], times[|times| - 1];
      RunChainInvariant(ws, front);
      var (accepted, counters) := RunChain(ws, front);
      ChainKeepsInvariant(ws, counters, now, accepted, Chain(ws, counters, now).0);
    }
  }

  /**
   * Over every timed message sequence, all chained windows at once: an interval of one ttl holds
   * fewer than 2 * limit accepted messages.
   */
  lemma AnySlidingWindowIsBounded(ws: seq<Window>, times: seq<int>)
    requires NonDecreasing(times) && forall k :: 0 <= k < |ws| ==> Proper(ws[k])
    ensures forall k :: 0 <= k < |ws| ==> Bounded(RunChain(ws, times).0, ws[k])
  {
    RunChainInvariant(ws, times);
  }

  /** The chain through the first i windows has left `view`, and the rest is still to come. */
  ghost predicate ChainedSoFar(start: seq<Option<Counter>>, view: seq<Option<Counter>>, now: int, i: nat) {
    && |start| == |view| == |AGENT_WINDOWS| && i <= |view|
    && view[i..] == start[i..]
    && var (ok, rest) := Chain(AGENT_WINDOWS[i..], start[i..], now);
       Chain(AGENT_WINDOWS, start, now) == (ok, view[..i] + rest)
  }

  lemma ChainStep(start: seq<Option<Counter>>, view: seq<Option<Counter>>, now: int, i: nat)
    requires ChainedSoFar(start, view, now, i) && i < |view|
    ensures var w := AGENT_WINDOWS[i];
            var c := Hit(view[i], now, w.ttl);
            var view' := view[i := Some(c)];
            if c.count > w.limit then Chain(AGENT_WINDOWS, start, now) == (false, view')
            else ChainedSoFar(start, view', now, i + 1)
  {
    var ws := AGENT_WINDOWS[i..];
    assert view[i] == view[i..][0] == start[i..][0];
    assert ws[1..] == AGENT_WINDOWS[i + 1..] && start[i..][1..] == start[i + 1..];
    var c := Hit(view[i], now, ws[0].ttl);
    var view' := view[i := Some(c)];
    assert view'[i + 1..] == view[i..][1..];
    assert view' == view[..i] + ([Some(c)] + view[i..][1..]);
    if c.count <= ws[0].limit {
      var (ok, rest) := Chain(ws[1..], start[i + 1..], now);
      assert view[..i] + ([Some(c)] + rest) == view'[..i + 1] + rest;
    }
  }

  /** The limiter of the assistant chat; keys are (user, window index). */
  class AgentRateLimiter {
    var counters: map<(int, nat), Counter>

    function Of(userId: int, i: nat): Option<Counter>
      reads this
    {
      if (userId, i) in counters then Some(counters[(userId, i)]) else None
    }

    ghost function View(userId: int): (r: seq<Option<Counter>>)
      reads this
      ensures |r| == |AGENT_WINDOWS|
    {
      seq(|AGENT_WINDOWS|, i requires 0 <= i < |AGENT_WINDOWS| reads this => Of(userId, i))
    }

    /** Returns the index of the window that refuses the message, if any. */
    method Check(userId: int, now: int) returns (refusedBy: Option<nat>)
      modifies this
      ensures (refusedBy.None?, View(userId)) == Chain(AGENT_WINDOWS, old(View(userId)), now)
      ensures refusedBy.Some? ==> refusedBy.value < |AGENT_WINDOWS|
      ensures forall u :: u != userId ==> View(u) == old(View(u))
    {
      ghost var start := View(userId);
      var i := 0;
      assert start[0..] == start && AGENT_WINDOWS[0..] == AGENT_WINDOWS;
      assert start[..0] + Chain(AGENT_WINDOWS, start, now).1 == Chain(AGENT_WINDOWS, start, now).1;
      while i < |AGENT_WINDOWS|
        invariant 0 <= i <= |AGENT_WINDOWS|
        invariant forall k :: i <= k < |AGENT_WINDOWS| ==> Of(userId, k) == start[k]
        invariant forall u, k :: u != userId ==> Of(u, k) == old(Of(u, k))
        invariant ChainedSoFar(start, View(userId), now, i)
      {
        var w := AGENT_WINDOWS[i];
        var c := Hit(Of(userId, i), now, w.ttl);
        ghost var before := View(userId);
        counters := counters[(userId, i) := c];
        assert View(userId) == before[i := Some(c)];
        ChainStep(start, before, now, i);
        if c.count > w.limit {
          return Some(i);
        }
        i := i + 1;
      }
      assert AGENT_WINDOWS[i..] == [];
      assert View(userId)[..i] + [] == View(userId);
      return None;
    }
  }

  // ---- the support chat: a rate window, violations and a mute ----

  const CHAT_WINDOW := Window(5, 10)
  const VIOLATIONS := Window(3, 300)
  const MUTE_TTL: nat := 60

  datatype Verdict = Allowed | TooMany | Muted

  datatype ChatGuard = ChatGuard(rate: Option<Counter>, violations: Option<Counter>, mutedUntil: Option<int>)

  predicate IsMuted(g: ChatGuard, now: int) {
    g.mutedUntil.Some? && now < g.mutedUntil.value
  }

  /** The specification of `_check_user_antispam` with `_register_spam_violation`. */
  function Antispam(g: ChatGuard, now: int): (Verdict, ChatGuard) {
    if IsMuted(g, now) then (Muted, g)
    else
      var rate := Hit(g.rate, now, CHAT_WINDOW.ttl);
      var g1 := g.(rate := Some(rate));
      if rate.count <= CHAT_WINDOW.limit then (Allowed, g1)
      else
        var v := Hit(g.violations, now, VIOLATIONS.ttl);
        if v.count >= VIOLATIONS.limit then (Muted, g1.(violations := None, mutedUntil := Some(now + MUTE_TTL)))
        else (TooMany, g1.(violations := Some(v)))
  }

  class SupportChatGuard {
    var guards: map<int, ChatGuard>

    function Of(userId: int): ChatGuard
      reads this
    {
      if userId in guards then guards[userId] else ChatGuard(None, None, None)
    }

    method Check(userId: int, now: int) returns (verdict: Verdict)
      modifies this
      ensures (verdict, Of(userId)) == Antispam(old(Of(userId)), now)
      ensures forall u :: u != userId ==> Of(u) == old(Of(u))
    {
      var g := Of(userId);
      if g.mutedUntil.Some? && now < g.mutedUntil.value {
        guards := guards[userId := g];
        return Muted;
      }
      var rate := Hit(g.rate, now, CHAT_WINDOW.ttl);
      g := g.(rate := Some(rate));
      if rate.count > CHAT_WINDOW.limit {
        verdict, g := RegisterViolation(g, now);
      } else {
        verdict := Allowed;
      }
      guards := guards[userId := g];
    }

    method RegisterViolation(g: ChatGuard, now: int) returns (verdict: Verdict, g': ChatGuard)
      ensures var v := Hit(g.violations, now, VIOLATIONS.ttl);
              if v.count >= VIOLATIONS.limit
              then verdict == Muted && g' == g.(violations := None, mutedUntil := Some(now + MUTE_TTL))
              else verdict == TooMany && g' == g.(violations := Some(v))
    {
      var v := Hit(g.violations, now, VIOLATIONS.ttl);
      g' := g.(violations := Some(v));
      if v.count >= VIOLATIONS.limit {
        g' := g'.(mutedUntil := Some(now + MUTE_TTL), violations := None);
        return Muted, g';
      }
      return TooMany, g';
    }
  }

  /** What a run leaves: accepted times, times at which a mute was set, refusals over the rate limit. */
  datatype ChatRun = ChatRun(guard: ChatGuard, accepted: seq<int>, mutes: seq<int>, overLimit: nat)

  ghost function ChatStep(r: ChatRun, now: int): ChatRun {
    var (verdict, g) := Antispam(r.guard, now);
    if IsMuted(r.guard, now) then r
    else match verdict
      case Allowed => r.(guard := g, accepted := r.accepted + [now])
      case TooMany => r.(guard := g, overLimit := r.overLimit + 1)
      case Muted => r.(guard := g, mutes := r.mutes + [now], overLimit := r.overLimit + 1)
  }

  ghost function RunChat(times: seq<int>): ChatRun {
    if times == [] then ChatRun(ChatGuard(None, None, None), [], [], 0)
    else ChatStep(RunChat(times[..|times| - 1]), times[|times| - 1])
  }

  /** Nothing accepted at t lies strictly inside the minute after a mute at m. */
  ghost predicate Silent(accepted: seq<int>, mutes: seq<int>) {
    forall t, m :: t in accepted && m in mutes ==> t <= m || t >= m + MUTE_TTL
  }

  ghost predicate MutesKnown(r: ChatRun, latest: int) {
    && Silent(r.accepted, r.mutes)
    && (forall m :: m in r.mutes ==> r.guard.mutedUntil.Some? && m + MUTE_TTL <= r.guard.mutedUntil.value)
    && (forall t :: t in r.accepted || t in r.mutes ==> t <= latest)
  }

  ghost predicate ViolationsPaid(r: ChatRun) {
    VIOLATIONS.limit * |r.mutes| + (if r.guard.violations.Some? then r.guard.violations.value.count else 0) <= r.overLimit
  }

  lemma ChatStepRate(r: ChatRun, now: int)
    requires WindowInvariant(r.accepted, r.guard.rate, CHAT_WINDOW) && Started(r.guard.rate, CHAT_WINDOW, now)
    ensures var r' := ChatStep(r, now);
            WindowInvariant(r'.accepted, r'.guard.rate, CHAT_WINDOW) && Started(r'.guard.rate, CHAT_WINDOW, now)
  {
    if !IsMuted(r.guard, now) {
      HitKeepsInvariant(r.accepted, r.guard.rate, CHAT_WINDOW, now, Antispam(r.guard, now).0 == Allowed);
    }
  }

  lemma ChatStepMutes(r: ChatRun, latest: int, now: int)
    requires MutesKnown(r, latest) && latest <= now
    ensures MutesKnown(ChatStep(r, now), now)
    ensures ViolationsPaid(r) ==> ViolationsPaid(ChatStep(r, now))
  {
  }

  lemma {:induction false} RunChatInvariant(times: seq<int>)
    requires NonDecreasing(times)
    ensures var r := RunChat(times);
            && WindowInvariant(r.accepted, r.guard.rate, CHAT_WINDOW)
            && (times != [] ==> Started(r.guard.rate, CHAT_WINDOW, times[|times| - 1])
                                && MutesKnown(r, times[|times| - 1]))
            && ViolationsPaid(r)
  {
    if times != [] {
      var front, now := times[..|times| - 1], times[|times| - 1];
      RunChatInvariant(front);
      var r := RunChat(front);
      ChatStepRate(r, now);
      ChatStepMutes(r, if front == [] then now else front[|front| - 1], now);
    }
  }

  /**
   * The support chat: fewer than 10 messages accepted in any 10 seconds, none while a mute lives,
   * and every mute is paid for by three messages over the limit.
   */
  lemma ChatIsBounded(times: seq<int>)
    requires NonDecreasing(times)
    ensures Bounded(RunChat(times).accepted, CHAT_WINDOW)
    ensures Silent(RunChat(times).accepted, RunChat(times).mutes)
    ensures VIOLATIONS.limit * |RunChat(times).mutes| <= RunChat(times).overLimit
  {
    RunChatInvariant(times);
  }
}
