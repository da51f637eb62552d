/**
 * When an event is lost, exactly, over all runs in which no task was dropped: what becomes of an event
 * once the pending flag has been deleted without its being covered.
 */
module ProfileWindow {
  import opened ProfileProtocol

  /** The state after the first k steps. */
  ghost function StateAt(run: seq<Action>, k: nat): State
    requires k <= |run|
  {
    After(run[..k])
  }

  ghost predicate FlagSet(run: seq<Action>, k: nat) {
    k <= |run| && StateAt(run, k).pending
  }

  ghost predicate NeverSet(run: seq<Action>, i: nat, n: nat) {
    forall k: nat :: i <= k <= n ==> !FlagSet(run, k)
  }

  lemma StepAt(run: seq<Action>, k: nat)
    requires k < |run|
    ensures StateAt(run, k + 1) == Next(StateAt(run, k), run[k])
  {
    assert run[..k + 1][..k] == run[..k];
  }

  lemma {:induction false} NotYetDropped(run: seq<Action>, k: nat, n: nat)
    requires k <= n <= |run| && !StateAt(run, n).dropped
    ensures !StateAt(run, k).dropped
  {
    if k < n {
      StepAt(run, n - 1);
      DroppedStays(StateAt(run, n - 1), run[n - 1]);
      NotYetDropped(run, k, n - 1);
    }
  }

  // ---- a flag that is set starts an update that covers the event ----

  /** The event is covered, or an update that will cover it is under way or still to begin. */
  ghost predicate Due(s: State, t: Token, e: Event) {
    || e in s.covered
    || WillRestart(s, t)
    || (t.ByWorker? && t.w in s.workers && s.workers[t.w].pc == EndUpdate && e in s.workers[t.w].snapshot)
  }

  lemma DueProduce(s: State, t: Token, f: Event, e: Event)
    requires f in s.producers && TokenInvariant(s, t) && Due(s, t, e)
    ensures Due(ProduceStep(s, f), Pass(s, t, Produce(f)), e)
  {
    assert ProduceStep(s, f).workers == s.workers && ProduceStep(s, f).covered == s.covered;
  }

  /** The worker who owes the update goes on with it. */
  lemma DueOwnWork(s: State, w: WorkerId, e: Event)
    requires w in s.workers && Obliged(s.workers[w].pc) && e in s.producers && Due(s, ByWorker(w), e)
    ensures Due(WorkStep(s, w), Pass(s, ByWorker(w), Work(w)), e)
  {
  }

  lemma DueOtherWork(s: State, t: Token, w: WorkerId, e: Event)
    requires w in s.workers && !Obliged(s.workers[w].pc) && TokenInvariant(s, t) && Due(s, t, e)
    ensures Due(WorkStep(s, w), Pass(s, t, Work(w)), e)
  {
    if s.workers[w].pc == CreatePending && !s.pending {
      assert t == Nobody;
    }
  }

  lemma DueWork(s: State, t: Token, w: WorkerId, e: Event)
    requires w in s.workers && e in s.producers && TokenInvariant(s, t) && Due(s, t, e)
    ensures Due(WorkStep(s, w), Pass(s, t, Work(w)), e)
  {
    if Obliged(s.workers[w].pc) {
      DueOwnWork(s, w, e);
    } else {
      DueOtherWork(s, t, w, e);
    }
  }

  lemma DueStep(s: State, t: Token, a: Action, e: Event)
    requires e in s.producers && TokenInvariant(s, t) && Due(s, t, e)
    requires TokenInvariant(Next(s, a), Pass(s, t, a))
    ensures Due(Next(s, a), Pass(s, t, a), e)
  {
    match a
    case Commit(_) =>
    case Produce(f) =>
      if f in s.producers {
        DueProduce(s, t, f, e);
      }
    case StartTask(_) =>
    case Work(w) =>
      if w in s.workers {
        DueWork(s, t, w, e);
      }
    case Fail(_) =>
  }

  ghost predicate Watched(s: State, t: Token, e: Event) {
    e in s.producers && TokenInvariant(s, t) && Due(s, t, e)
  }

  lemma WatchedStep(s: State, t: Token, a: Action, e: Event)
    requires Mutex(s) && Watched(s, t, e) && !Next(s, a).dropped
    ensures Watched(Next(s, a), Pass(s, t, a), e)
  {
    DroppedStays(s, a);
    TokenStep(s, t, a);
    DueStep(s, t, a, e);
  }

  /** Somebody watches over the event after k steps. */
  ghost predicate IsWatched(run: seq<Action>, k: nat, e: Event) {
    k <= |run| && exists t :: Watched(StateAt(run, k), t, e)
  }

  lemma WatchedNext(run: seq<Action>, k: nat, e: Event)
    requires k < |run| && IsWatched(run, k, e) && !StateAt(run, k + 1).dropped
    ensures IsWatched(run, k + 1, e)
  {
    var s, a := StateAt(run, k), run[k];
    var t :| Watched(s, t, e);
    StepAt(run, k);
    AtMostOneUpdate(run[..k]);
    WatchedStep(s, t, a, e);
  }

  lemma {:induction false} WatchedStays(run: seq<Action>, k: nat, n: nat, e: Event)
    requires k <= n <= |run| && !StateAt(run, n).dropped && IsWatched(run, k, e)
    ensures IsWatched(run, n, e)
  {
    if k < n {
      NotYetDropped(run, n - 1, n);
      WatchedStays(run, k, n - 1, e);
      WatchedNext(run, n - 1, e);
    }
  }

  /** Whoever sets the flag starts an update from scratch. */
  lemma SettingRestarts(s: State, t: Token, a: Action)
    requires TokenInvariant(s, t) && !s.pending && Next(s, a).pending
    ensures WillRestart(Next(s, a), Pass(s, t, a))
  {
  }

  lemma RecordedStep(s: State, a: Action, e: Event)
    requires e in s.producers
    ensures e in Next(s, a).producers
  {
    DroppedStays(s, a);
  }

  lemma {:induction false} StillRecorded(run: seq<Action>, i: nat, n: nat, e: Event)
    requires i <= n <= |run| && e in StateAt(run, i).producers
    ensures e in StateAt(run, n).producers
  {
    if i < n {
      StillRecorded(run, i, n - 1, e);
      StepAt(run, n - 1);
      RecordedStep(StateAt(run, n - 1), run[n - 1], e);
    }
  }

  lemma SettingWatches(run: seq<Action>, j: nat, e: Event)
    requires j < |run| && !FlagSet(run, j) && FlagSet(run, j + 1) && !StateAt(run, j + 1).dropped
    requires e in StateAt(run, j + 1).producers
    ensures IsWatched(run, j + 1, e)
  {
    NotYetDropped(run, j, j + 1);
    StepAt(run, j);
    AtMostOneUpdate(run[..j]);
    var t := Accounted(run[..j]);
    TokenStep(StateAt(run, j), t, run[j]);
    SettingRestarts(StateAt(run, j), t, run[j]);
    assert Watched(StateAt(run, j + 1), Pass(StateAt(run, j), t, run[j]), e);
  }

  lemma QuietOwesNothing(run: seq<Action>, e: Event)
    requires Quiet(After(run)) && IsWatched(run, |run|, e)
    ensures e in After(run).covered
  {
    assert run[..|run|] == run;
  }

  lemma {:induction false} WatchedWhenSet(run: seq<Action>, i: nat, k: nat, e: Event)
    requires i <= k <= |run| && !FlagSet(run, i) && FlagSet(run, k) && e in StateAt(run, i).producers
    requires !StateAt(run, k).dropped
    ensures IsWatched(run, k, e)
  {
    NotYetDropped(run, k - 1, k);
    if FlagSet(run, k - 1) {
      WatchedWhenSet(run, i, k - 1, e);
      WatchedNext(run, k - 1, e);
    } else {
      StillRecorded(run, i, k, e);
      SettingWatches(run, k - 1, e);
    }
  }

  lemma SetAgainCovers(run: seq<Action>, i: nat, k: nat, e: Event)
    requires i <= k <= |run| && !FlagSet(run, i) && FlagSet(run, k) && e in StateAt(run, i).producers
    requires Quiet(After(run)) && !StateAt(run, |run|).dropped
    ensures e in After(run).covered
  {
    NotYetDropped(run, k, |run|);
    WatchedWhenSet(run, i, k, e);
    WatchedStays(run, k, |run|, e);
    QuietOwesNothing(run, e);
  }

  // ---- a flag that stays unset covers nothing ----

  lemma UnsetCoversNothing(s: State, t: Token, a: Action)
    requires TokenInvariant(s, t) && !s.pending
    ensures Next(s, a).covered == s.covered
  {
  }

  lemma {:induction false} NothingCovered(run: seq<Action>, i: nat, n: nat)
    requires i <= n <= |run| && NeverSet(run, i, n) && !StateAt(run, n).dropped
    ensures StateAt(run, n).covered == StateAt(run, i).covered
  {
    if i < n {
      NotYetDropped(run, n - 1, n);
      NothingCovered(run, i, n - 1);
      StepAt(run, n - 1);
      assert !FlagSet(run, n - 1);
      var t := Accounted(run[..n - 1]);
      UnsetCoversNothing(StateAt(run, n - 1), t, run[n - 1]);
    }
  }

  /**
   * Whenever the flag is unset and a recorded event is not covered: once all is quiet it is covered if
   * and only if the flag was set again, by whatever event.
   */
  lemma CoveredExactlyIfSetAgain(run: seq<Action>, i: nat, e: Event)
    requires Quiet(After(run)) && !After(run).dropped
    requires i <= |run| && !FlagSet(run, i) && e in StateAt(run, i).producers && e !in StateAt(run, i).covered
    ensures e in After(run).covered <==> exists k: nat :: i <= k <= |run| && FlagSet(run, k)
  {
    assert run[..|run|] == run;
    if k: nat :| i <= k <= |run| && FlagSet(run, k) {
      SetAgainCovers(run, i, k, e);
    } else {
      NothingCovered(run, i, |run|);
    }
  }

  // ---- the delete window ----

  /** Step i deletes the flag, and its worker has read the same version twice. */
  ghost predicate DeletesUnmoved(run: seq<Action>, i: nat) {
    && i < |run| && run[i].Work? && run[i].w in StateAt(run, i).workers
    && var v := StateAt(run, i).workers[run[i].w];
       v.pc == RemovePending && v.end == v.start
  }

  /**
   * A delete by a worker that saw no new version, for any event it leaves uncovered: the event is still
   * covered in the end if and only if the flag is set again after the delete.
   */
  lemma WindowExactly(run: seq<Action>, i: nat, e: Event)
    requires Quiet(After(run)) && !After(run).dropped
    requires DeletesUnmoved(run, i) && e in StateAt(run, i).producers && e !in StateAt(run, i).covered
    ensures e in After(run).covered <==> exists k: nat :: i < k <= |run| && FlagSet(run, k)
  {
    StepAt(run, i);
    CoveredExactlyIfSetAgain(run, i + 1, e);
  }

  /** The event fell into the window that step i closes, and the flag is never set again. */
  ghost predicate Forgets(run: seq<Action>, i: nat, e: Event) {
    && DeletesUnmoved(run, i)
    && e in StateAt(run, i).missed && e !in StateAt(run, i).covered
    && NeverSet(run, i + 1, |run|)
  }

  lemma MissedWhileSet(s: State, a: Action, e: Event)
    requires e !in s.missed && e in Next(s, a).missed
    ensures s.pending
  {
  }

  lemma {:induction false} MissedMeansSet(run: seq<Action>, n: nat, e: Event) returns (k: nat)
    requires n <= |run| && e in StateAt(run, n).missed
    ensures k < n && FlagSet(run, k)
  {
    StepAt(run, n - 1);
    if e in StateAt(run, n - 1).missed {
      k := MissedMeansSet(run, n - 1, e);
    } else {
      MissedWhileSet(StateAt(run, n - 1), run[n - 1], e);
      k := n - 1;
    }
  }

  lemma {:induction false} LastSet(run: seq<Action>, k: nat, n: nat) returns (i: nat)
    requires k <= n <= |run| && FlagSet(run, k) && !FlagSet(run, n)
    ensures k <= i < n && FlagSet(run, i) && NeverSet(run, i + 1, n)
  {
    if FlagSet(run, n - 1) {
      i := n - 1;
    } else {
      i := LastSet(run, k, n - 1);
    }
  }

  lemma OnlyDeleteClears(s: State, a: Action)
    requires s.pending && !Next(s, a).pending
    ensures a.Work? && a.w in s.workers && s.workers[a.w].pc == RemovePending
  {
  }

  lemma CoveredStep(s: State, a: Action)
    ensures s.covered <= Next(s, a).covered
  {
  }

  lemma {:induction false} CoveredGrows(run: seq<Action>, i: nat, n: nat)
    requires i <= n <= |run|
    ensures StateAt(run, i).covered <= StateAt(run, n).covered
  {
    if i < n {
      CoveredGrows(run, i, n - 1);
      StepAt(run, n - 1);
      CoveredStep(StateAt(run, n - 1), run[n - 1]);
    }
  }

  /** The event's producer has been told about the flag. */
  ghost predicate Answered(s: State, e: Event) {
    e in s.producers && s.producers[e].pc != Incr && s.producers[e].pc != SetPending
  }

  lemma UnansweredStep(s: State, a: Action, e: Event)
    requires !Answered(s, e) && Answered(Next(s, a), e) && !s.pending
    ensures Next(s, a).pending
  {
  }

  /** A producer that asks for the unset flag sets it. */
  lemma {:induction false} Unanswered(run: seq<Action>, i: nat, n: nat, e: Event)
    requires i <= n <= |run| && NeverSet(run, i, n) && !Answered(StateAt(run, i), e)
    ensures !Answered(StateAt(run, n), e)
  {
    if i < n {
      Unanswered(run, i, n - 1, e);
      StepAt(run, n - 1);
      assert !FlagSet(run, n - 1) && !FlagSet(run, n);
      if Answered(StateAt(run, n), e) {
        UnansweredStep(StateAt(run, n - 1), run[n - 1], e);
      }
    }
  }

  ghost predicate Recreates(s: State, w: WorkerId) {
    w in s.workers && s.workers[w].pc == CreatePending
  }

  lemma RecreatesWork(s: State, v: WorkerId, w: WorkerId)
    requires v in s.workers && Recreates(s, w) && !s.pending && !WorkStep(s, v).pending
    ensures Recreates(WorkStep(s, v), w)
  {
    assert v != w;
  }

  lemma RecreatesStep(s: State, a: Action, w: WorkerId)
    requires Recreates(s, w) && !s.pending && !Next(s, a).pending
    ensures Recreates(Next(s, a), w)
  {
    match a
    case Commit(_) =>
    case Produce(e) =>
      if e in s.producers {
        assert ProduceStep(s, e).workers == s.workers;
      }
    case StartTask(_) =>
    case Work(v) =>
      if v in s.workers {
        RecreatesWork(s, v, w);
      }
    case Fail(_) =>
  }

  /** A worker about to set the unset flag again sets it, or stays. */
  lemma {:induction false} StillRecreates(run: seq<Action>, i: nat, n: nat, w: WorkerId)
    requires i <= n <= |run| && NeverSet(run, i, n) && Recreates(StateAt(run, i), w)
    ensures Recreates(StateAt(run, n), w)
  {
    if i < n {
      StillRecreates(run, i, n - 1, w);
      StepAt(run, n - 1);
      assert !FlagSet(run, n - 1) && !FlagSet(run, n);
      RecreatesStep(StateAt(run, n - 1), run[n - 1], w);
    }
  }

  /** An answered event at a delete that is neither covered nor missed makes the worker set the flag again. */
  lemma AnsweredAtDelete(run: seq<Action>, i: nat, e: Event)
    requires i < |run| && !StateAt(run, i).dropped && Answered(StateAt(run, i), e) && e !in StateAt(run, i).covered
    requires run[i].Work? && run[i].w in StateAt(run, i).workers
    requires StateAt(run, i).workers[run[i].w].pc == RemovePending
    ensures DeletesUnmoved(run, i) ==> e in StateAt(run, i).missed
    ensures !DeletesUnmoved(run, i) ==> Recreates(StateAt(run, i + 1), run[i].w)
  {
    StepAt(run, i);
    var t := Accounted(run[..i]);
    assert EventOk(StateAt(run, i), t, e);
  }

  lemma LostIsForgotten(run: seq<Action>, e: Event) returns (i: nat)
    requires Quiet(After(run)) && !After(run).dropped
    requires e in After(run).producers && After(run).producers[e].pc == Finished && e !in After(run).covered
    ensures Forgets(run, i, e)
  {
    var n := |run|;
    assert run[..n] == run;
    NoEventIsLost(run);
    var t := Accounted(run);
    var k := MissedMeansSet(run, n, e);
    i := LastSet(run, k, n);
    StepAt(run, i);
    assert !FlagSet(run, i + 1);
    OnlyDeleteClears(StateAt(run, i), run[i]);
    CoveredGrows(run, i, n);
    NotYetDropped(run, i, n);
    if !Answered(StateAt(run, i), e) {
      Unanswered(run, i + 1, n, e);
    }
    AnsweredAtDelete(run, i, e);
    if !DeletesUnmoved(run, i) {
      StillRecreates(run, i + 1, n, run[i].w);
    }
  }

  lemma ForgottenIsLost(run: seq<Action>, i: nat, e: Event)
    requires !After(run).dropped && Forgets(run, i, e)
    ensures e !in After(run).covered
  {
    assert run[..|run|] == run;
    StepAt(run, i);
    NothingCovered(run, i + 1, |run|);
  }

  /**
   * In every interleaving in which no task was dropped, once all is quiet: a finished event is lost if
   * and only if it was missed in the window of a delete whose worker read the same version twice, and
   * the flag has never been set again since.
   */
  lemma LostExactly(run: seq<Action>, e: Event)
    requires Quiet(After(run)) && !After(run).dropped
    requires e in After(run).producers && After(run).producers[e].pc == Finished
    ensures e !in After(run).covered <==> exists i: nat :: Forgets(run, i, e)
  {
    if e !in After(run).covered {
      var i := LostIsForgotten(run, e);
    }
    if i: nat :| Forgets(run, i, e) {
      ForgottenIsLost(run, i, e);
    }
  }
}
