/**
 * When exactly the support chat allows, refuses or mutes, told from the messages alone: those that were
 * counted, those over the rate since the last mute, and the mutes.
 */
module ChatMutes {
  import opened Sequences
  import opened RateLimits

  // ---- fixed windows over message times ----

  /** The messages in the window the last one lies in: a window opens with the first message after the one before. */
  function Open(times: seq<int>, ttl: nat): seq<int> {
    if times == [] then []
    else
      var open, last := Open(times[..|times| - 1], ttl), times[|times| - 1];
      if open != [] && last < open[0] + ttl then open + [last] else [last]
  }

  /** At least n messages lie in the window that is still open now. */
  predicate Holds(times: seq<int>, ttl: nat, now: int, n: nat) {
    var open := Open(times, ttl);
    open != [] && |open| >= n && now < open[0] + ttl
  }

  function CounterOf(times: seq<int>, ttl: nat): Option<Counter> {
    var open := Open(times, ttl);
    if open == [] then None else Some(Counter(|open|, open[0] + ttl))
  }

  lemma HitCounts(times: seq<int>, ttl: nat, now: int, n: nat)
    requires n >= 1
    ensures CounterOf(times + [now], ttl) == Some(Hit(CounterOf(times, ttl), now, ttl))
    ensures Hit(CounterOf(times, ttl), now, ttl).count > n <==> Holds(times, ttl, now, n)
  {
    assert (times + [now])[..|times|] == times;
  }

  // ---- a log of the verdicts ----

  /** Messages counted, messages over the rate since the last mute, and messages that set a mute. */
  datatype Log = Log(counted: seq<int>, strikes: seq<int>, mutes: seq<int>)

  predicate InForce(log: Log, now: int) {
    exists m :: m in log.mutes && now < m + MUTE_TTL
  }

  function Record(log: Log, now: int, verdict: Verdict): Log {
    if InForce(log, now) then log
    else
      var log1 := log.(counted := log.counted + [now]);
      match verdict
      case Allowed => log1
      case TooMany => log1.(strikes := log.strikes + [now])
      case Muted => log1.(strikes := [], mutes := log.mutes + [now])
  }

  /** The guard before message k. */
  function GuardAt(times: seq<int>, k: nat): ChatGuard
    requires k <= |times|
  {
    if k == 0 then ChatGuard(None, None, None) else Antispam(GuardAt(times, k - 1), times[k - 1]).1
  }

  /** The answer to message i. */
  function VerdictOf(times: seq<int>, i: nat): Verdict
    requires i < |times|
  {
    Antispam(GuardAt(times, i), times[i]).0
  }

  /** The log before message k. */
  function LogAt(times: seq<int>, k: nat): Log
    requires k <= |times|
  {
    if k == 0 then Log([], [], []) else Record(LogAt(times, k - 1), times[k - 1], VerdictOf(times, k - 1))
  }

  /** What Redis holds is what the log tells. */
  ghost predicate Known(g: ChatGuard, log: Log) {
    CountersKnown(g, log) && MuteKnown(g.mutedUntil, log)
  }

  ghost predicate CountersKnown(g: ChatGuard, log: Log) {
    g.rate == CounterOf(log.counted, CHAT_WINDOW.ttl) && g.violations == CounterOf(log.strikes, VIOLATIONS.ttl)
  }

  ghost predicate MuteKnown(mutedUntil: Option<int>, log: Log) {
    && NonDecreasing(log.mutes)
    && (if log.mutes == [] then mutedUntil.None?
        else mutedUntil == Some(log.mutes[|log.mutes| - 1] + MUTE_TTL))
  }

  ghost predicate Past(log: Log, now: int) {
    forall m :: m in log.mutes ==> m <= now
  }

  lemma MuteInForce(g: ChatGuard, log: Log, now: int)
    requires Known(g, log)
    ensures IsMuted(g, now) <==> InForce(log, now)
  {
    if log.mutes != [] {
      assert log.mutes[|log.mutes| - 1] in log.mutes;
    }
  }

  /** The verdict told from the log. */
  function Expected(log: Log, now: int): Verdict {
    if InForce(log, now) then Muted
    else if !Holds(log.counted, CHAT_WINDOW.ttl, now, CHAT_WINDOW.limit) then Allowed
    else if Holds(log.strikes, VIOLATIONS.ttl, now, VIOLATIONS.limit - 1) then Muted
    else TooMany
  }

  lemma AnswersAsExpected(g: ChatGuard, log: Log, now: int)
    requires Known(g, log)
    ensures Antispam(g, now).0 == Expected(log, now)
    ensures InForce(log, now) ==> Antispam(g, now).1 == g
    ensures Antispam(g, now).1.mutedUntil
            == if Expected(log, now) == Muted && !InForce(log, now) then Some(now + MUTE_TTL) else g.mutedUntil
    ensures !InForce(log, now) ==>
              Antispam(g, now).1.rate == CounterOf(log.counted + [now], CHAT_WINDOW.ttl)
    ensures Expected(log, now) == TooMany ==>
              Antispam(g, now).1.violations == CounterOf(log.strikes + [now], VIOLATIONS.ttl)
  {
    MuteInForce(g, log, now);
    HitCounts(log.counted, CHAT_WINDOW.ttl, now, CHAT_WINDOW.limit);
    HitCounts(log.strikes, VIOLATIONS.ttl, now, VIOLATIONS.limit - 1);
  }

  lemma MuteIsLatest(log: Log, now: int)
    requires NonDecreasing(log.mutes) && Past(log, now)
    ensures NonDecreasing(log.mutes + [now]) && Past(log.(strikes := [], mutes := log.mutes + [now]), now)
  {
    forall i | 0 <= i < |log.mutes| ensures log.mutes[i] <= now {
      assert log.mutes[i] in log.mutes;
    }
  }

  lemma MuteStaysKnown(mutedUntil: Option<int>, log: Log, now: int, verdict: Verdict)
    requires MuteKnown(mutedUntil, log) && Past(log, now)
    ensures MuteKnown(if verdict == Muted && !InForce(log, now) then Some(now + MUTE_TTL) else mutedUntil,
                      Record(log, now, verdict))
    ensures Past(Record(log, now, verdict), now)
  {
    MuteIsLatest(log, now);
  }

  lemma CheckKeepsKnown(g: ChatGuard, log: Log, now: int)
    requires Known(g, log) && Past(log, now)
    ensures Known(Antispam(g, now).1, Record(log, now, Expected(log, now)))
    ensures Past(Record(log, now, Expected(log, now)), now)
  {
    AnswersAsExpected(g, log, now);
    MuteStaysKnown(g.mutedUntil, log, now, Expected(log, now));
  }

  lemma {:induction false} LogIsKnown(times: seq<int>, k: nat)
    requires NonDecreasing(times) && k <= |times|
    ensures Known(GuardAt(times, k), LogAt(times, k))
    ensures if k == 0 then LogAt(times, k).mutes == [] else Past(LogAt(times, k), times[k - 1])
  {
    if k > 0 {
      LogIsKnown(times, k - 1);
      AnswersAsExpected(GuardAt(times, k - 1), LogAt(times, k - 1), times[k - 1]);
      CheckKeepsKnown(GuardAt(times, k - 1), LogAt(times, k - 1), times[k - 1]);
    }
  }

  /** It is the guard of the runs that are bounded. */
  lemma {:induction false} SameRun(times: seq<int>, k: nat)
    requires k <= |times|
    ensures RunChat(times[..k]).guard == GuardAt(times, k)
  {
    if k > 0 {
      assert times[..k][..k - 1] == times[..k - 1];
      SameRun(times, k - 1);
    }
  }

  /**
   * The exact answer to every message of every run: refused as muted while a mute of the last minute is in
   * force; otherwise allowed unless five counted messages lie in the open ten seconds; otherwise it sets a
   * mute if two more messages over the rate, since the last mute, lie in the open 300 seconds.
   */
  lemma VerdictExactly(times: seq<int>, i: nat)
    requires NonDecreasing(times) && i < |times|
    ensures var log, now := LogAt(times, i), times[i];
            var over := Holds(log.counted, 10, now, 5);
            && (VerdictOf(times, i) == Muted <==> InForce(log, now) || (over && Holds(log.strikes, 300, now, 2)))
            && (VerdictOf(times, i) == Allowed <==> !InForce(log, now) && !over)
  {
    LogIsKnown(times, i);
    AnswersAsExpected(GuardAt(times, i), LogAt(times, i), times[i]);
  }

  // ---- what a mute does, and what brings one ----

  /** Message i is the one that sets a mute. */
  predicate SetsMute(times: seq<int>, i: nat)
    requires i < |times|
  {
    VerdictOf(times, i) == Muted && !InForce(LogAt(times, i), times[i])
  }

  lemma {:induction false} MuteIsKept(times: seq<int>, i: nat, j: nat)
    requires i < j <= |times| && SetsMute(times, i)
    ensures times[i] in LogAt(times, j).mutes
  {
    if j > i + 1 {
      MuteIsKept(times, i, j - 1);
    }
  }

  /** Every message in the minute after a mute is refused as muted. */
  lemma MinuteOfSilence(times: seq<int>, i: nat, j: nat)
    requires NonDecreasing(times) && i < j < |times| && SetsMute(times, i)
    requires times[j] < times[i] + 60
    ensures VerdictOf(times, j) == Muted
  {
    MuteIsKept(times, i, j);
    VerdictExactly(times, j);
  }

  lemma {:induction false} OpenAll(times: seq<int>, ttl: nat)
    requires times != [] && forall t :: t in times ==> t < times[0] + ttl
    ensures Open(times, ttl) == times
  {
    if |times| > 1 {
      var front := times[..|times| - 1];
      assert forall t :: t in front ==> t in times;
      assert times[|times| - 1] in times && front + [times[|times| - 1]] == times;
      OpenAll(front, ttl);
    } else {
      assert times[..0] == [];
    }
  }

  /** From a log without strikes: a list of them that begins at `first`, with at least n, and no new mute. */
  ghost predicate StrikesFrom(before: Log, log: Log, first: int, latest: int, n: nat) {
    && |log.strikes| >= n >= 1 && log.strikes[0] == first && log.mutes == before.mutes
    && forall t :: t in log.strikes ==> t <= latest
  }

  lemma StrikesNext(before: Log, log: Log, first: int, latest: int, n: nat, now: int, verdict: Verdict)
    requires StrikesFrom(before, log, first, latest, n) && latest <= now && verdict != Muted
    ensures StrikesFrom(before, Record(log, now, verdict), first, now, n)
    ensures verdict == TooMany && !InForce(log, now) ==> StrikesFrom(before, Record(log, now, verdict), first, now, n + 1)
  {
  }

  lemma NotInForce(times: seq<int>, i: nat)
    requires NonDecreasing(times) && i < |times| && VerdictOf(times, i) != Muted
    ensures !InForce(LogAt(times, i), times[i])
  {
    VerdictExactly(times, i);
  }

  lemma StrikeAt(times: seq<int>, before: Log, first: int, k: nat, n: nat)
    requires NonDecreasing(times) && 0 < k < |times| && VerdictOf(times, k) != Muted
    requires StrikesFrom(before, LogAt(times, k), first, times[k - 1], n)
    ensures StrikesFrom(before, LogAt(times, k + 1), first, times[k], if VerdictOf(times, k) == TooMany then n + 1 else n)
  {
    NotInForce(times, k);
    StrikesNext(before, LogAt(times, k), first, times[k - 1], n, times[k], VerdictOf(times, k));
  }

  lemma FirstStrike(times: seq<int>, i: nat)
    requires NonDecreasing(times) && i < |times| && LogAt(times, i).strikes == [] && VerdictOf(times, i) == TooMany
    ensures StrikesFrom(LogAt(times, i), LogAt(times, i + 1), times[i], times[i], 1)
  {
    NotInForce(times, i);
  }

  lemma {:induction false} StrikesGather(times: seq<int>, i: nat, j: nat, k: nat)
    requires NonDecreasing(times) && i < j < |times| && i < k <= |times|
    requires LogAt(times, i).strikes == [] && VerdictOf(times, i) == TooMany && VerdictOf(times, j) == TooMany
    requires forall n :: i < n < k ==> VerdictOf(times, n) != Muted
    ensures StrikesFrom(LogAt(times, i), LogAt(times, k), times[i], times[k - 1], if k > j then 2 else 1)
  {
    if k == i + 1 {
      FirstStrike(times, i);
    } else {
      StrikesGather(times, i, j, k - 1);
      StrikeAt(times, LogAt(times, i), times[i], k - 1, if k - 1 > j then 2 else 1);
    }
  }

  /**
   * The third message over the rate within 300 seconds of the first since the last mute sets a mute, and
   * every message of the next minute is refused.
   */
  lemma ThirdStrikeMutes(times: seq<int>, first: nat, second: nat, third: nat)
    requires NonDecreasing(times) && first < second < third < |times|
    requires LogAt(times, first).strikes == []
    requires VerdictOf(times, first) == TooMany && VerdictOf(times, second) == TooMany
    requires VerdictOf(times, third) != Allowed && times[third] < times[first] + 300
    requires forall n :: first < n < third ==> VerdictOf(times, n) != Muted
    ensures SetsMute(times, third)
    ensures forall j :: third < j < |times| && times[j] < times[third] + 60 ==> VerdictOf(times, j) == Muted
  {
    StrikesGather(times, first, second, third);
    VerdictExactly(times, first);
    VerdictExactly(times, third);
    OpenAll(LogAt(times, third).strikes, 300);
    forall j | third < j < |times| && times[j] < times[third] + 60 ensures VerdictOf(times, j) == Muted {
      MinuteOfSilence(times, third, j);
    }
  }
}
