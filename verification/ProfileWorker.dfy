/**
 * The worker's `build` and the producer's `_update_user_reco_profile` as straight-line code, other
 * parties acting between any two commands. Each body extends the run of the protocol.
 */
module ProfileWorker {
  import opened ProfileProtocol
  import opened Sequences

  predicate IsActionOf(a: Action, w: WorkerId) {
    a == StartTask(w) || a == Work(w) || a == Fail(w)
  }

  lemma ProduceTouches(s: State, e: Event)
    requires e in s.producers
    ensures var s' := ProduceStep(s, e);
            && s'.workers == s.workers && s'.covered == s.covered && s'.producers.Keys == s.producers.Keys
            && forall f :: f in s.producers && f != e ==> s'.producers[f] == s.producers[f]
  {
  }

  lemma WorkTouches(s: State, w: WorkerId)
    requires w in s.workers
    ensures WorkStep(s, w).producers == s.producers && s.covered <= WorkStep(s, w).covered
  {
  }

  lemma WorkLeaves(s: State, w: WorkerId, v: WorkerId)
    requires w in s.workers && v != w
    ensures var s' := WorkStep(s, w);
            if v in s.workers then v in s'.workers && s'.workers[v] == s.workers[v] else v !in s'.workers
  {
  }

  lemma OneStepGrows(s: State, a: Action)
    ensures s.producers.Keys <= Next(s, a).producers.Keys && s.covered <= Next(s, a).covered
  {
    if a.Produce? && a.e in s.producers {
      ProduceTouches(s, a.e);
    } else if a.Work? && a.w in s.workers {
      WorkTouches(s, a.w);
    }
  }

  lemma OneStepKeepsWorker(s: State, a: Action, w: WorkerId)
    requires !IsActionOf(a, w)
    ensures w !in s.workers ==> w !in Next(s, a).workers
    ensures w in s.workers ==> w in Next(s, a).workers && Next(s, a).workers[w] == s.workers[w]
  {
    if a.Produce? && a.e in s.producers {
      ProduceTouches(s, a.e);
    } else if a.Work? && a.w in s.workers {
      WorkLeaves(s, a.w, w);
    }
  }

  lemma OneStepKeepsProducer(s: State, a: Action, e: Event)
    requires a != Produce(e) && e in s.producers
    ensures e in Next(s, a).producers && Next(s, a).producers[e] == s.producers[e]
  {
    if a.Produce? && a.e in s.producers {
      ProduceTouches(s, a.e);
    } else if a.Work? && a.w in s.workers {
      WorkTouches(s, a.w);
    }
  }

  /** Recorded events and covered events only accumulate. */
  lemma {:induction false} HistoryGrows(run: seq<Action>, more: seq<Action>)
    ensures After(run).producers.Keys <= After(run + more).producers.Keys
    ensures After(run).covered <= After(run + more).covered
  {
    if more == [] {
      assert run + more == run;
    } else {
      var front, a := more[..|more| - 1], more[|more| - 1];
      HistoryGrows(run, front);
      assert run + more == run + front + [a];
      Then(run + front, a);
      OneStepGrows(After(run + front), a);
    }
  }

  /** Other parties never touch a worker's local state. */
  lemma {:induction false} OthersKeepWorker(run: seq<Action>, more: seq<Action>, w: WorkerId)
    requires forall a :: a in more ==> !IsActionOf(a, w)
    ensures var s, s' := After(run), After(run + more);
            if w in s.workers then w in s'.workers && s'.workers[w] == s.workers[w] else w !in s'.workers
  {
    if more == [] {
      assert run + more == run;
    } else {
      var front, a := more[..|more| - 1], more[|more| - 1];
      assert a in more && forall b :: b in front ==> b in more;
      OthersKeepWorker(run, front, w);
      assert run + more == run + front + [a];
      Then(run + front, a);
      OneStepKeepsWorker(After(run + front), a, w);
    }
  }

  lemma {:induction false} OthersKeepProducer(run: seq<Action>, more: seq<Action>, e: Event)
    requires e in After(run).producers && forall a :: a in more ==> a != Produce(e)
    ensures e in After(run + more).producers && After(run + more).producers[e] == After(run).producers[e]
  {
    if more == [] {
      assert run + more == run;
    } else {
      var front, a := more[..|more| - 1], more[|more| - 1];
      assert a in more && forall b :: b in front ==> b in more;
      OthersKeepProducer(run, front, e);
      assert run + more == run + front + [a];
      Then(run + front, a);
      OneStepKeepsProducer(After(run + front), a, e);
    }
  }

  /** Recorded events and covered events only accumulate. */
  ghost predicate Kept(s: State, s': State) {
    s.producers.Keys <= s'.producers.Keys && s.covered <= s'.covered
  }

  /** Redis and the task queue, together with the run of the protocol that led to them. */
  class RecoStore {
    var version: nat
    var pending: bool
    var locked: bool
    var queued: nat
    ghost var run: seq<Action>

    ghost predicate Valid()
      reads this
    {
      var s := After(run);
      version == s.version && pending == s.pending && locked == s.locked && queued == s.queued
    }

    ghost predicate At(w: WorkerId, pc: WorkerPc)
      reads this
    {
      w in After(run).workers && After(run).workers[w].pc == pc
    }

    /** Other parties act; a worker only learns that they followed the protocol. */
    method OtherThan(ghost w: WorkerId)
      requires Valid()
      modifies this
      ensures Valid() && old(run) <= run && forall a :: a in run[|old(run)|..] ==> !IsActionOf(a, w)
    {
    }

    method Between(ghost w: WorkerId)
      requires Valid() && w in After(run).workers
      modifies this
      ensures Valid() && old(run) <= run
      ensures w in After(run).workers && After(run).workers[w] == After(old(run)).workers[w]
      ensures Kept(After(old(run)), After(run))
    {
      OtherThan(w);
      assert run == old(run) + run[|old(run)|..];
      OthersKeepWorker(old(run), run[|old(run)|..], w);
      HistoryGrows(old(run), run[|old(run)|..]);
    }

    /** `SET lock NX`, once the queue has delivered the task. */
    method AcquireLock(ghost w: WorkerId) returns (acquired: bool)
      requires Valid() && queued > 0 && w !in After(run).workers
      modifies this
      ensures Valid() && run == old(run) + [StartTask(w)] && Kept(After(old(run)), After(run))
      ensures acquired <==> !old(locked)
      ensures if acquired then At(w, CheckPending) else w !in After(run).workers
    {
      Then(run, StartTask(w));
      acquired := !locked;
      locked, queued := true, queued - 1;
      run := run + [StartTask(w)];
    }

    method HasPending(ghost w: WorkerId) returns (found: bool)
      requires Valid() && At(w, CheckPending)
      modifies this
      ensures Valid() && run == old(run) + [Work(w)] && Kept(After(old(run)), After(run))
      ensures At(w, if found then ReadStart else Release)
    {
      Then(run, Work(w));
      found := pending;
      run := run + [Work(w)];
    }

    method GetStartVersion(ghost w: WorkerId) returns (v: nat)
      requires Valid() && At(w, ReadStart)
      modifies this
      ensures Valid() && run == old(run) + [Work(w)] && Kept(After(old(run)), After(run))
      ensures At(w, BeginUpdate) && After(run).workers[w].start == v
    {
      Then(run, Work(w));
      v := version;
      run := run + [Work(w)];
    }

    /** The profile update reads the recorded events. */
    method BeginProfileUpdate(ghost w: WorkerId)
      requires Valid() && At(w, BeginUpdate)
      modifies this
      ensures Valid() && run == old(run) + [Work(w)] && Kept(After(old(run)), After(run))
      ensures At(w, EndUpdate) && After(run).workers[w].start == After(old(run)).workers[w].start
      ensures After(run).workers[w].snapshot == After(old(run)).producers.Keys
    {
      Then(run, Work(w));
      run := run + [Work(w)];
    }

    /** The profile update has stored the new profile. */
    method EndProfileUpdate(ghost w: WorkerId)
      requires Valid() && At(w, EndUpdate)
      modifies this
      ensures Valid() && run == old(run) + [Work(w)] && Kept(After(old(run)), After(run))
      ensures At(w, ReadEnd) && After(run).workers[w].start == After(old(run)).workers[w].start
      ensures After(old(run)).workers[w].snapshot <= After(run).covered
    {
      Then(run, Work(w));
      run := run + [Work(w)];
    }

    method GetEndVersion(ghost w: WorkerId) returns (v: nat)
      requires Valid() && At(w, ReadEnd)
      modifies this
      ensures Valid() && run == old(run) + [Work(w)] && Kept(After(old(run)), After(run))
      ensures At(w, RemovePending) && After(run).workers[w].start == After(old(run)).workers[w].start
      ensures After(run).workers[w].end == v
    {
      Then(run, Work(w));
      v := version;
      run := run + [Work(w)];
    }

    method RemovePendingFlag(ghost w: WorkerId)
      requires Valid() && At(w, RemovePending)
      modifies this
      ensures Valid() && run == old(run) + [Work(w)] && Kept(After(old(run)), After(run))
      ensures var v := After(old(run)).workers[w];
              At(w, if v.end != v.start then CreatePending else Release)
    {
      Then(run, Work(w));
      pending := false;
      run := run + [Work(w)];
    }

    method CreatePendingFlag(ghost w: WorkerId) returns (created: bool)
      requires Valid() && At(w, CreatePending)
      modifies this
      ensures Valid() && run == old(run) + [Work(w)] && Kept(After(old(run)), After(run))
      ensures At(w, if created then Republish else Release)
    {
      Then(run, Work(w));
      created := !pending;
      pending := true;
      run := run + [Work(w)];
    }

    method ScheduleUpdate(ghost w: WorkerId)
      requires Valid() && At(w, Republish)
      modifies this
      ensures Valid() && run == old(run) + [Work(w)] && Kept(After(old(run)), After(run))
      ensures At(w, Release)
    {
      Then(run, Work(w));
      queued := queued + 1;
      run := run + [Work(w)];
    }

    method ReleaseLock(ghost w: WorkerId)
      requires Valid() && At(w, Release)
      modifies this
      ensures Valid() && run == old(run) + [Work(w)] && Kept(After(old(run)), After(run))
      ensures w !in After(run).workers
    {
      Then(run, Work(w));
      locked := false;
      run := run + [Work(w)];
    }

    method ReleaseLockAfterFailure(ghost w: WorkerId)
      requires Valid() && At(w, FailedRelease)
      modifies this
      ensures Valid() && run == old(run) + [Work(w)] && Kept(After(old(run)), After(run))
      ensures At(w, Requeue)
    {
      Then(run, Work(w));
      locked := false;
      run := run + [Work(w)];
    }

    /** The broker's part: a task that raised goes back to the queue. */
    method Retry(ghost w: WorkerId)
      requires Valid() && At(w, Requeue)
      modifies this
      ensures Valid() && run == old(run) + [Work(w)] && Kept(After(old(run)), After(run))
      ensures w !in After(run).workers && queued > 0
    {
      Then(run, Work(w));
      queued := queued + 1;
      run := run + [Work(w)];
    }

    /** The command the worker is about to give raises instead of taking effect. */
    method Raise(ghost w: WorkerId)
      requires Valid() && w in After(run).workers && MayFail(After(run).workers[w].pc)
      modifies this
      ensures Valid() && run == old(run) + [Fail(w)] && Kept(After(old(run)), After(run))
      ensures At(w, FailedRelease)
    {
      Then(run, Fail(w));
      run := run + [Fail(w)];
    }

    /** `_rebuild`: create the flag again and, if that succeeds, queue another task. */
    method Rebuild(ghost w: WorkerId, raises: Option<WorkerPc>) returns (raised: bool)
      requires Valid() && At(w, CreatePending)
      modifies this
      ensures Valid() && old(run) <= run && Kept(After(old(run)), After(run))
      ensures At(w, if raised then FailedRelease else Release) && (raised ==> raises.Some?)
    {
      var created := CreatePendingFlag(w);
      Between(w);
      raised := created && raises == Some(Republish);
      if raised {
        Raise(w);
      } else if created {
        ScheduleUpdate(w);
      }
    }

    /** Delete the flag; when the version has moved since the update began, set it again. */
    method RemoveOrRebuild(ghost w: WorkerId, moved: bool, raises: Option<WorkerPc>) returns (raised: bool)
      requires Valid() && At(w, RemovePending)
      requires var v := After(run).workers[w]; moved == (v.end != v.start)
      modifies this
      ensures Valid() && old(run) <= run && Kept(After(old(run)), After(run))
      ensures At(w, if raised then FailedRelease else Release) && (raised ==> raises.Some?)
    {
      raised := raises == Some(RemovePending);
      if raised {
        Raise(w);
        return;
      }
      RemovePendingFlag(w);
      if moved {
        Between(w);
        raised := Rebuild(w, raises);
      }
    }

    /** The update itself, between the two version reads. */
    method UpdateProfile(ghost w: WorkerId, raises: Option<WorkerPc>) returns (raised: bool)
      requires Valid() && At(w, BeginUpdate)
      modifies this
      ensures Valid() && old(run) <= run && Kept(After(old(run)), After(run))
      ensures At(w, if raised then FailedRelease else ReadEnd) && (raised ==> raises.Some?)
      ensures !raised ==> After(run).workers[w].start == After(old(run)).workers[w].start
      ensures !raised ==> After(old(run)).producers.Keys <= After(run).covered
    {
      raised := raises == Some(BeginUpdate);
      if raised {
        Raise(w);
        return;
      }
      BeginProfileUpdate(w);
      Between(w);
      raised := raises == Some(EndUpdate);
      if raised {
        Raise(w);
        return;
      }
      EndProfileUpdate(w);
    }

    /** The second version read and what follows it. */
    method FinishUpdate(ghost w: WorkerId, startVersion: nat, raises: Option<WorkerPc>) returns (raised: bool)
      requires Valid() && At(w, ReadEnd) && After(run).workers[w].start == startVersion
      modifies this
      ensures Valid() && old(run) <= run && Kept(After(old(run)), After(run))
      ensures At(w, if raised then FailedRelease else Release) && (raised ==> raises.Some?)
    {
      raised := raises == Some(ReadEnd);
      if raised {
        Raise(w);
        return;
      }
      var endVersion := GetEndVersion(w);
      Between(w);
      raised := RemoveOrRebuild(w, endVersion != startVersion, raises);
    }

    /** The part of `build` between finding the flag and letting go of the lock. */
    method UpdateOnce(ghost w: WorkerId, raises: Option<WorkerPc>) returns (raised: bool)
      requires Valid() && At(w, ReadStart)
      modifies this
      ensures Valid() && old(run) <= run && Kept(After(old(run)), After(run))
      ensures At(w, if raised then FailedRelease else Release) && (raised ==> raises.Some?)
      ensures !raised ==> After(old(run)).producers.Keys <= After(run).covered
    {
      raised := raises == Some(ReadStart);
      if raised {
        Raise(w);
        return;
      }
      var startVersion := GetStartVersion(w);
      Between(w);
      raised := UpdateProfile(w, raises);
      if !raised {
        Between(w);
        raised := FinishUpdate(w, startVersion, raises);
      }
    }

    /** The `try` block. */
    method TryUpdate(ghost w: WorkerId, raises: Option<WorkerPc>) returns (updated: bool, raised: bool)
      requires Valid() && At(w, CheckPending)
      modifies this
      ensures Valid() && old(run) <= run && Kept(After(old(run)), After(run))
      ensures At(w, if raised then FailedRelease else Release) && (raised ==> raises.Some?)
      ensures updated ==> !raised && After(old(run)).producers.Keys <= After(run).covered
    {
      updated, raised := false, raises == Some(CheckPending);
      if raised {
        Raise(w);
        return;
      }
      var found := HasPending(w);
      if found {
        Between(w);
        raised := UpdateOnce(w, raises);
        updated := !raised;
      }
    }

    /** The `finally` block; after an exception the broker queues the task again. */
    method LetGo(ghost w: WorkerId, raised: bool)
      requires Valid() && At(w, if raised then FailedRelease else Release)
      modifies this
      ensures Valid() && old(run) <= run && Kept(After(old(run)), After(run)) && w !in After(run).workers
      ensures raised ==> queued > 0
    {
      if raised {
        ReleaseLockAfterFailure(w);
        Between(w);
        Retry(w);
      } else {
        ReleaseLock(w);
      }
    }

    /**
     * `build`, with anything happening in between and any command that may fail raising: the call
     * is a run of the protocol and is over afterwards; if it updated, every event committed before the
     * call is covered; if it raised, the lock has been let go and the task is queued again. It only raises
     * where a command raises, and a task that finds the lock taken does nothing else.
     */
    method Build(ghost w: WorkerId, raises: Option<WorkerPc>) returns (updated: bool, raised: bool)
      requires Valid() && queued > 0 && w !in After(run).workers
      modifies this
      ensures Valid() && old(run) <= run && w !in After(run).workers
      ensures updated ==> !raised && After(old(run)).producers.Keys <= After(run).covered
      ensures raised ==> raises.Some? && queued > 0
      ensures old(locked) ==> !updated && !raised && run == old(run) + [StartTask(w)]
    {
      var acquired := AcquireLock(w);
      if !acquired {
        return false, false;
      }
      Between(w);
      updated, raised := TryUpdate(w, raises);
      Between(w);
      LetGo(w, raised);
    }

    ghost predicate ProducerAt(e: Event, pc: ProducerPc)
      reads this
    {
      e in After(run).producers && After(run).producers[e].pc == pc
    }

    method OtherThanProducer(ghost e: Event)
      requires Valid()
      modifies this
      ensures Valid() && old(run) <= run && forall a :: a in run[|old(run)|..] ==> a != Produce(e)
    {
    }

    method BetweenProducer(ghost e: Event)
      requires Valid() && e in After(run).producers
      modifies this
      ensures Valid() && old(run) <= run
      ensures ProducerAt(e, After(old(run)).producers[e].pc)
    {
      OtherThanProducer(e);
      assert run == old(run) + run[|old(run)|..];
      OthersKeepProducer(old(run), run[|old(run)|..], e);
    }

    method IncrVersion(ghost e: Event)
      requires Valid() && ProducerAt(e, Incr)
      modifies this
      ensures Valid() && run == old(run) + [Produce(e)] && ProducerAt(e, SetPending)
    {
      Then(run, Produce(e));
      version := version + 1;
      run := run + [Produce(e)];
    }

    method AddPendingFlag(ghost e: Event) returns (isNew: bool)
      requires Valid() && ProducerAt(e, SetPending)
      modifies this
      ensures Valid() && run == old(run) + [Produce(e)] && ProducerAt(e, if isNew then Publish else Extend)
    {
      Then(run, Produce(e));
      isNew := !pending;
      pending := true;
      run := run + [Produce(e)];
    }

    method PublishOrExtend(ghost e: Event, isNew: bool)
      requires Valid() && ProducerAt(e, if isNew then Publish else Extend)
      modifies this
      ensures Valid() && run == old(run) + [Produce(e)] && ProducerAt(e, Finished)
    {
      Then(run, Produce(e));
      if isNew {
        queued := queued + 1;
      }
      run := run + [Produce(e)];
    }

    /** The producer's side, once its event is committed. */
    method UpdateUserRecoProfile(ghost e: Event)
      requires Valid() && ProducerAt(e, Incr)
      modifies this
      ensures Valid() && old(run) <= run && ProducerAt(e, Finished)
    {
      IncrVersion(e);
      BetweenProducer(e);
      var isNew := AddPendingFlag(e);
      BetweenProducer(e);
      PublishOrExtend(e, isNew);
    }
  }
}
