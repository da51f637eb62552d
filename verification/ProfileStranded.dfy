/**
 * What a dropped task leads to, over all runs. A task that finds the lock taken goes away without
 * touching the pending flag, and from then on the flag keeps every producer from queueing another.
 */
module ProfileStranded {
  import opened ProfileProtocol

  /** The flag is set, and nobody is left who would act on it. */
  ghost predicate Stranded(s: State) {
    && s.pending && s.queued == 0
    && (forall e :: e in s.producers ==> s.producers[e].pc != Publish)
    && (forall w :: w in s.workers ==> !Obliged(s.workers[w].pc))
  }

  lemma DropStrands(s: State, t: Token, a: Action)
    requires TokenInvariant(s, t) && !s.dropped && Next(s, a).dropped
    ensures Stranded(Next(s, a))
  {
    DropsOnlyAtStart(s, a);
  }

  lemma DropsOnlyAtStart(s: State, a: Action)
    requires !s.dropped && Next(s, a).dropped
    ensures a.StartTask? && s.queued > 0 && s.locked && Next(s, a) == s.(queued := s.queued - 1, dropped := true)
  {
  }

  lemma StrandedProduce(s: State, e: Event)
    requires Stranded(s) && e in s.producers
    ensures Stranded(ProduceStep(s, e)) && ProduceStep(s, e).covered == s.covered
  {
  }

  lemma StrandedWork(s: State, w: WorkerId)
    requires Stranded(s) && w in s.workers
    ensures Stranded(WorkStep(s, w)) && WorkStep(s, w).covered == s.covered
  {
  }

  /** No step changes that, or completes an update. */
  lemma StrandedStays(s: State, a: Action)
    requires Stranded(s)
    ensures Stranded(Next(s, a)) && Next(s, a).covered == s.covered
  {
    match a
    case Commit(_) =>
    case Produce(e) =>
      if e in s.producers {
        StrandedProduce(s, e);
      }
    case StartTask(_) =>
    case Work(w) =>
      if w in s.workers {
        StrandedWork(s, w);
      }
    case Fail(_) =>
  }

  lemma {:induction false} DroppedIsStranded(run: seq<Action>)
    requires After(run).dropped
    ensures Stranded(After(run))
  {
    var front, a := run[..|run| - 1], run[|run| - 1];
    if After(front).dropped {
      DroppedIsStranded(front);
      StrandedStays(After(front), a);
    } else {
      var t := Accounted(front);
      DropStrands(After(front), t, a);
    }
  }

  /** From a drop on the flag stays set, no task is ever queued, and no update is ever completed. */
  lemma {:induction false} NothingHappensAfterDrop(run: seq<Action>, more: seq<Action>)
    requires After(run).dropped
    ensures var s, s' := After(run), After(run + more);
            s'.dropped && s'.pending && s'.queued == 0 && s'.covered == s.covered && Stranded(s')
  {
    if more == [] {
      assert run + more == run;
      DroppedIsStranded(run);
    } else {
      var front, a := more[..|more| - 1], more[|more| - 1];
      assert run + more == (run + front) + [a];
      NothingHappensAfterDrop(run, front);
      Then(run + front, a);
      StrandedStays(After(run + front), a);
      DroppedStays(After(run + front), a);
    }
  }

  ghost predicate Committed(s: State) {
    && s.covered <= s.producers.Keys
    && forall w :: w in s.workers ==> s.workers[w].snapshot <= s.producers.Keys
  }

  lemma CommittedWork(s: State, w: WorkerId)
    requires Committed(s) && w in s.workers
    ensures Committed(WorkStep(s, w))
  {
    assert WorkStep(s, w).producers == s.producers;
  }

  lemma CommittedProduce(s: State, e: Event)
    requires Committed(s) && e in s.producers
    ensures Committed(ProduceStep(s, e))
  {
    assert ProduceStep(s, e).producers.Keys == s.producers.Keys;
    assert ProduceStep(s, e).workers == s.workers && ProduceStep(s, e).covered == s.covered;
  }

  /** Only recorded events are ever covered. */
  lemma {:induction false} CoveredWereCommitted(run: seq<Action>)
    ensures Committed(After(run))
  {
    if run != [] {
      var s, a := After(run[..|run| - 1]), run[|run| - 1];
      CoveredWereCommitted(run[..|run| - 1]);
      match a
      case Commit(_) =>
      case Produce(e) =>
        if e in s.producers {
          CommittedProduce(s, e);
        }
      case StartTask(_) =>
      case Work(w) =>
        if w in s.workers {
          CommittedWork(s, w);
        }
      case Fail(_) =>
    }
  }

  /** An event recorded after the drop is never covered, whatever happens later. */
  lemma EventAfterDropIsLost(run: seq<Action>, more: seq<Action>, e: Event)
    requires After(run).dropped && e !in After(run).producers
    ensures e !in After(run + more).covered
  {
    NothingHappensAfterDrop(run, more);
    CoveredWereCommitted(run);
  }

  /**
   * In every interleaving, once all is quiet: the flag is still set if and only if a task was dropped;
   * and a finished event was covered, or fell into a delete window, or else a task was dropped.
   */
  lemma QuietFlagMeansDropped(run: seq<Action>)
    requires Quiet(After(run))
    ensures After(run).pending <==> After(run).dropped
    ensures var s := After(run);
            forall e :: e in s.producers && s.producers[e].pc == Finished ==>
              e in s.covered || e in s.missed || s.dropped
  {
    if After(run).dropped {
      DroppedIsStranded(run);
    } else {
      var t := Accounted(run);
      NoEventIsLost(run);
    }
  }
}
