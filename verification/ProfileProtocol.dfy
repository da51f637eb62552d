/**
 * The rebuild of a user's recommendation profile: producers record events, bump a version counter
 * and set a pending flag; delayed tasks rebuild the profile under a lock. One Redis command (or one
 * queue operation) per step, any number of producers and workers, any interleaving.
 *
 * Keys never expire here. A task that finds the lock taken is dropped, as in the code, and the run
 * remembers it. A worker may fail any time before it deletes the flag, and when it queues the next task;
 * the broker then retries it.
 */
module ProfileProtocol {

  type Event = nat
  type WorkerId = nat

  /** What a producer does next: `generate` after its transaction, then `_update_user_reco_profile`. */
  datatype ProducerPc = Incr | SetPending | Publish | Extend | Finished

  /** incrWindow names the delete window in which the version was incremented, if it was in one. */
  datatype Producer = Producer(pc: ProducerPc, incrWindow: Window)

  datatype Window = Outside | Inside(index: nat)

  /** What a worker does next: `build`, with `_rebuild` as its last steps. */
  datatype WorkerPc =
    | CheckPending
    | ReadStart
    | BeginUpdate
    | EndUpdate
    | ReadEnd
    | RemovePending
    | CreatePending
    | Republish
    | Release
    | FailedRelease
    | Requeue

  datatype Worker = Worker(pc: WorkerPc, start: nat, end: nat, snapshot: set<Event>)

  datatype State = State(
    version: nat,
    pending: bool,
    locked: bool,
    queued: nat,
    producers: map<Event, Producer>,
    workers: map<WorkerId, Worker>,
    // history: events in some completed update; events whose increment and refused flag both fell
    // into one delete window; number of deletes so far; whether a task ever found the lock taken
    covered: set<Event>,
    missed: set<Event>,
    deletes: nat,
    dropped: bool)

  const INITIAL := State(0, false, false, 0, map[], map[], {}, {}, 0, false)

  datatype Action =
    | Commit(e: Event)
    | Produce(e: Event)
    | StartTask(w: WorkerId)
    | Work(w: WorkerId)
    | Fail(w: WorkerId)

  /** Some worker is between its second version read and its delete of the pending flag. */
  ghost predicate InDeleteWindow(s: State) {
    exists w :: w in s.workers && s.workers[w].pc == RemovePending
  }

  ghost function ProduceStep(s: State, e: Event): State
    requires e in s.producers
  {
    var p := s.producers[e];
    match p.pc
    case Incr =>
      var window := if InDeleteWindow(s) then Inside(s.deletes) else Outside;
      s.(version := s.version + 1, producers := s.producers[e := Producer(SetPending, window)])
    case SetPending =>
      if !s.pending then
        s.(pending := true, producers := s.producers[e := p.(pc := Publish)])
      else
        s.(producers := s.producers[e := p.(pc := Extend)],
           missed := if InDeleteWindow(s) && p.incrWindow == Inside(s.deletes) then s.missed + {e} else s.missed)
    case Publish =>
      s.(queued := s.queued + 1, producers := s.producers[e := p.(pc := Finished)])
    case Extend =>
      s.(producers := s.producers[e := p.(pc := Finished)])
    case Finished => s
  }

  function Goto(s: State, w: WorkerId, v: Worker): State {
    s.(workers := s.workers[w := v])
  }

  function Gone(s: State, w: WorkerId): State {
    s.(workers := s.workers - {w})
  }

  function WorkStep(s: State, w: WorkerId): State
    requires w in s.workers
  {
    var v := s.workers[w];
    match v.pc
    case CheckPending => Goto(s, w, v.(pc := if s.pending then ReadStart else Release))
    case ReadStart => Goto(s, w, v.(pc := BeginUpdate, start := s.version))
    case BeginUpdate => Goto(s, w, v.(pc := EndUpdate, snapshot := s.producers.Keys))
    case EndUpdate => Goto(s.(covered := s.covered + v.snapshot), w, v.(pc := ReadEnd))
    case ReadEnd => Goto(s, w, v.(pc := RemovePending, end := s.version))
    case RemovePending =>
      Goto(s.(pending := false, deletes := s.deletes + 1), w,
           v.(pc := if v.end != v.start then CreatePending else Release))
    case CreatePending =>
      if s.pending then Goto(s, w, v.(pc := Release))
      else Goto(s.(pending := true), w, v.(pc := Republish))
    case Republish => Goto(s.(queued := s.queued + 1), w, v.(pc := Release))
    case Release => Gone(s.(locked := false), w)
    case FailedRelease => Goto(s.(locked := false), w, v.(pc := Requeue))
    case Requeue => Gone(s.(queued := s.queued + 1), w)
  }

  /** All but the attempt to set the flag again and the release of the lock. */
  predicate MayFail(pc: WorkerPc) {
    || pc == CheckPending || pc == ReadStart || pc == BeginUpdate || pc == EndUpdate || pc == ReadEnd
    || pc == RemovePending || pc == Republish
  }

  /** One step; an action that is not enabled changes nothing. */
  ghost function Next(s: State, a: Action): State {
    match a
    case Commit(e) =>
      if e in s.producers then s else s.(producers := s.producers[e := Producer(Incr, Outside)])
    case Produce(e) => if e in s.producers then ProduceStep(s, e) else s
    case StartTask(w) =>
      if s.queued == 0 || w in s.workers then s
      else if s.locked then s.(queued := s.queued - 1, dropped := true)
      else Goto(s.(queued := s.queued - 1, locked := true), w, Worker(CheckPending, 0, 0, {}))
    case Work(w) => if w in s.workers then WorkStep(s, w) else s
    case Fail(w) =>
      if w in s.workers && MayFail(s.workers[w].pc) then Goto(s, w, s.workers[w].(pc := FailedRelease)) else s
  }

  ghost function After(run: seq<Action>): State {
    if run == [] then INITIAL else Next(After(run[..|run| - 1]), run[|run| - 1])
  }

  // ---- mutual exclusion ----

  predicate HoldsLock(pc: WorkerPc) {
    pc != Requeue
  }

  ghost predicate Mutex(s: State) {
    && (forall w :: w in s.workers && HoldsLock(s.workers[w].pc) ==> s.locked)
    && (forall v, w :: v in s.workers && w in s.workers && HoldsLock(s.workers[v].pc) && HoldsLock(s.workers[w].pc) ==> v == w)
  }

  /** A worker that keeps its claim on the lock. */
  lemma MutexGoto(s: State, s': State, w: WorkerId, pc: WorkerPc)
    requires Mutex(s) && w in s.workers && HoldsLock(s.workers[w].pc) && HoldsLock(pc)
    requires s'.locked == s.locked && s'.workers.Keys == s.workers.Keys && s'.workers[w].pc == pc
    requires forall v :: v in s.workers && v != w ==> s'.workers[v] == s.workers[v]
    ensures Mutex(s')
  {
  }

  lemma MutexWork(s: State, w: WorkerId)
    requires Mutex(s) && w in s.workers
    ensures Mutex(WorkStep(s, w))
  {
    var s' := WorkStep(s, w);
    var pc := s.workers[w].pc;
    if pc != Release && pc != FailedRelease && pc != Requeue {
      MutexGoto(s, s', w, s'.workers[w].pc);
    }
  }

  lemma MutexStep(s: State, a: Action)
    requires Mutex(s)
    ensures Mutex(Next(s, a))
  {
    match a
    case Commit(e) =>
    case Produce(e) =>
      assert Next(s, a).locked == s.locked && Next(s, a).workers == s.workers;
    case StartTask(w) =>
    case Work(w) =>
      if w in s.workers {
        MutexWork(s, w);
      }
    case Fail(w) =>
      if w in s.workers && MayFail(s.workers[w].pc) {
        MutexGoto(s, Next(s, a), w, FailedRelease);
      }
  }

  /** In every run at most one worker is ever past the lock, hence inside the profile update. */
  lemma {:induction false} AtMostOneUpdate(run: seq<Action>)
    ensures Mutex(After(run))
  {
    if run != [] {
      AtMostOneUpdate(run[..|run| - 1]);
      MutexStep(After(run[..|run| - 1]), run[|run| - 1]);
    }
  }

  // ---- who will act on the pending flag ----

  /** The one party the set flag obliges: a queued task, a producer or worker about to queue one, or a worker. */
  datatype Token = Nobody | InQueue | ByProducer(e: Event) | ByWorker(w: WorkerId)

  predicate Obliged(pc: WorkerPc) {
    pc != CreatePending && pc != Release
  }

  ghost predicate TokenInvariant(s: State, t: Token) {
    && (s.pending <==> t != Nobody)
    && s.queued == (if t == InQueue then 1 else 0)
    && (forall e :: e in s.producers && s.producers[e].pc == Publish ==> t == ByProducer(e))
    && (t.ByProducer? ==> t.e in s.producers && s.producers[t.e].pc == Publish)
    && (forall w :: w in s.workers && Obliged(s.workers[w].pc) ==> t == ByWorker(w))
    && (t.ByWorker? ==> t.w in s.workers && Obliged(s.workers[t.w].pc))
    && (forall w :: w in s.workers && s.workers[w].pc != Requeue ==> s.locked)
    && (forall w :: w in s.workers ==> s.workers[w].start <= s.version)
  }

  /** Who holds the token after a step. */
  ghost function Pass(s: State, t: Token, a: Action): Token {
    match a
    case Commit(_) => t
    case Fail(_) => t
    case Produce(e) =>
      if e !in s.producers then t
      else if s.producers[e].pc == SetPending && !s.pending then ByProducer(e)
      else if s.producers[e].pc == Publish then InQueue
      else t
    case StartTask(w) =>
      if s.queued == 0 || w in s.workers || s.locked then t else ByWorker(w)
    case Work(w) =>
      if w !in s.workers then t
      else match s.workers[w].pc
        case RemovePending => Nobody
        case CreatePending => if s.pending then t else ByWorker(w)
        case Republish => InQueue
        case Requeue => InQueue
        case _ => t
  }

  /** A producer step that leaves the flag and the queue alone. */
  lemma TokenProduceQuiet(s: State, t: Token, e: Event)
    requires TokenInvariant(s, t) && e in s.producers
    requires s.producers[e].pc != Publish && !(s.producers[e].pc == SetPending && !s.pending)
    ensures TokenInvariant(ProduceStep(s, e), t)
  {
    var s' := ProduceStep(s, e);
    assert s'.workers == s.workers && s'.producers[e].pc != Publish;
    assert forall f :: f in s.producers && f != e ==> s'.producers[f] == s.producers[f];
  }

  /** A producer step that sets the flag or queues the task. */
  lemma TokenProduceLoud(s: State, t: Token, e: Event)
    requires TokenInvariant(s, t) && e in s.producers
    requires s.producers[e].pc == Publish || (s.producers[e].pc == SetPending && !s.pending)
    ensures TokenInvariant(ProduceStep(s, e), Pass(s, t, Produce(e)))
  {
    var s' := ProduceStep(s, e);
    assert s'.workers == s.workers;
    assert forall f :: f in s.producers && f != e ==> s'.producers[f] == s.producers[f];
  }

  lemma TokenProduce(s: State, t: Token, e: Event)
    requires TokenInvariant(s, t) && e in s.producers
    ensures TokenInvariant(ProduceStep(s, e), Pass(s, t, Produce(e)))
  {
    if s.producers[e].pc == Publish || (s.producers[e].pc == SetPending && !s.pending) {
      TokenProduceLoud(s, t, e);
    } else {
      TokenProduceQuiet(s, t, e);
    }
  }

  lemma TokenCommit(s: State, t: Token, e: Event)
    requires TokenInvariant(s, t)
    ensures TokenInvariant(Next(s, Commit(e)), t)
  {
  }

  lemma TokenStart(s: State, t: Token, w: WorkerId)
    requires Mutex(s) && TokenInvariant(s, t) && !Next(s, StartTask(w)).dropped
    ensures TokenInvariant(Next(s, StartTask(w)), Pass(s, t, StartTask(w)))
  {
  }

  /** A worker step that leaves queue, flag, lock and obligations alone. */
  lemma TokenGoto(s: State, t: Token, s': State, w: WorkerId)
    requires TokenInvariant(s, t) && w in s.workers && Obliged(s.workers[w].pc)
    requires s'.workers.Keys == s.workers.Keys && Obliged(s'.workers[w].pc)
    requires forall v :: v in s.workers && v != w ==> s'.workers[v] == s.workers[v]
    requires s'.workers[w].pc != Requeue || s'.workers[w].pc == s.workers[w].pc
    requires s.workers[w].pc != Requeue && s'.workers[w].start <= s.version
    requires s'.pending == s.pending && s'.queued == s.queued && s'.locked == s.locked
    requires s'.producers == s.producers && s'.version == s.version
    ensures TokenInvariant(s', t)
  {
  }

  /** The first five worker steps: up to the second version read. */
  lemma TokenUpdate(s: State, t: Token, w: WorkerId)
    requires TokenInvariant(s, t) && w in s.workers
    requires s.workers[w].pc == CheckPending || s.workers[w].pc == ReadStart || s.workers[w].pc == BeginUpdate
             || s.workers[w].pc == EndUpdate || s.workers[w].pc == ReadEnd
    ensures TokenInvariant(WorkStep(s, w), t)
  {
    assert t == ByWorker(w);
    TokenGoto(s, t, WorkStep(s, w), w);
  }

  /** The steps around the flag and the queue. */
  lemma TokenHandover(s: State, t: Token, w: WorkerId)
    requires Mutex(s) && TokenInvariant(s, t) && w in s.workers
    requires s.workers[w].pc == RemovePending || s.workers[w].pc == CreatePending || s.workers[w].pc == Republish
    ensures TokenInvariant(WorkStep(s, w), Pass(s, t, Work(w)))
  {
  }

  /** The steps that end a worker's run. */
  lemma TokenRelease(s: State, t: Token, w: WorkerId)
    requires Mutex(s) && TokenInvariant(s, t) && w in s.workers
    requires s.workers[w].pc == Release || s.workers[w].pc == FailedRelease || s.workers[w].pc == Requeue
    ensures TokenInvariant(WorkStep(s, w), Pass(s, t, Work(w)))
  {
  }

  lemma TokenWork(s: State, t: Token, w: WorkerId)
    requires Mutex(s) && TokenInvariant(s, t) && w in s.workers
    ensures TokenInvariant(WorkStep(s, w), Pass(s, t, Work(w)))
  {
    var pc := s.workers[w].pc;
    if pc == RemovePending || pc == CreatePending || pc == Republish {
      TokenHandover(s, t, w);
    } else if pc == Release || pc == FailedRelease || pc == Requeue {
      TokenRelease(s, t, w);
    } else {
      TokenUpdate(s, t, w);
    }
  }

  lemma TokenStep(s: State, t: Token, a: Action)
    requires Mutex(s) && TokenInvariant(s, t) && !Next(s, a).dropped
    ensures TokenInvariant(Next(s, a), Pass(s, t, a))
  {
    match a
    case Commit(e) => TokenCommit(s, t, e);
    case Produce(e) =>
      if e in s.producers {
        TokenProduce(s, t, e);
      }
    case StartTask(w) => TokenStart(s, t, w);
    case Work(w) =>
      if w in s.workers {
        TokenWork(s, t, w);
      }
    case Fail(w) =>
      if w in s.workers && MayFail(s.workers[w].pc) {
        TokenGoto(s, t, Next(s, a), w);
      }
  }

  // ---- why no event is forgotten ----

  /** An event recorded before the worker's snapshot, or one the worker will notice by the version. */
  ghost predicate Noticed(s: State, v: Worker, e: Event) {
    match v.pc
    case EndUpdate => e in v.snapshot || s.version > v.start
    case ReadEnd => e in s.covered || s.version > v.start
    case RemovePending => e in s.covered || v.end != v.start
    case _ => true
  }

  /** A producer past its increment: the obliged worker notices it, or it is in the open delete window. */
  ghost predicate Counted(s: State, t: Token, e: Event)
    requires e in s.producers
  {
    t.ByWorker? && t.w in s.workers ==>
      || Noticed(s, s.workers[t.w], e)
      || (s.workers[t.w].pc == RemovePending && s.producers[e].incrWindow == Inside(s.deletes))
  }

  /** A producer past its flag: covered, or missed, or somebody will still start an update for it. */
  ghost predicate Safe(s: State, t: Token, e: Event)
    requires e in s.producers
  {
    || e in s.covered
    || e in s.missed
    || (t == Nobody && exists w :: w in s.workers && s.workers[w].pc == CreatePending)
    || (t.ByWorker? && t.w in s.workers && Noticed(s, s.workers[t.w], e))
    || t == InQueue
    || t.ByProducer?
  }

  ghost predicate EventOk(s: State, t: Token, e: Event)
    requires e in s.producers
  {
    match s.producers[e].pc
    case Incr => true
    case SetPending => Counted(s, t, e)
    case _ => Safe(s, t, e)
  }

  /** Whoever holds the token will start an update from scratch. */
  predicate WillRestart(s: State, t: Token) {
    || t == InQueue
    || t.ByProducer?
    || (t.ByWorker? && t.w in s.workers
        && var pc := s.workers[t.w].pc; pc != EndUpdate && pc != ReadEnd && pc != RemovePending)
  }

  lemma RestartIsOk(s: State, t: Token, e: Event)
    requires TokenInvariant(s, t) && e in s.producers && WillRestart(s, t)
    ensures EventOk(s, t, e)
  {
  }

  /** Steps that keep the event, the token and its holder, and lose no history. */
  lemma EventFrame(s: State, s': State, t: Token, e: Event)
    requires TokenInvariant(s, t) && TokenInvariant(s', t)
    requires e in s.producers && e in s'.producers && s'.producers[e] == s.producers[e] && EventOk(s, t, e)
    requires s.covered <= s'.covered && s.missed <= s'.missed
    requires s'.deletes == s.deletes && s'.version >= s.version
    requires t.ByWorker? ==> s'.workers[t.w] == s.workers[t.w]
    requires t == Nobody ==>
               forall w :: w in s.workers && s.workers[w].pc == CreatePending ==> w in s'.workers && s'.workers[w] == s.workers[w]
    ensures EventOk(s', t, e)
  {
  }

  /** The event's own producer moves. */
  lemma EventProduce(s: State, t: Token, e: Event)
    requires Mutex(s) && TokenInvariant(s, t) && e in s.producers && EventOk(s, t, e)
    requires TokenInvariant(ProduceStep(s, e), Pass(s, t, Produce(e)))
    ensures EventOk(ProduceStep(s, e), Pass(s, t, Produce(e)), e)
  {
    var s', t' := ProduceStep(s, e), Pass(s, t, Produce(e));
    if t.ByWorker? && s.workers[t.w].pc == RemovePending {
      assert InDeleteWindow(s);
    }
    match s.producers[e].pc
    case Incr =>
    case SetPending =>
      if !s.pending {
        RestartIsOk(s', t', e);
      }
    case Publish => RestartIsOk(s', t', e);
    case Extend =>
    case Finished =>
  }

  /** The obliged worker runs the update. */
  lemma EventUpdate(s: State, w: WorkerId, e: Event)
    requires TokenInvariant(s, ByWorker(w)) && TokenInvariant(WorkStep(s, w), ByWorker(w))
    requires e in s.producers && EventOk(s, ByWorker(w), e)
    requires s.workers[w].pc == CheckPending || s.workers[w].pc == ReadStart || s.workers[w].pc == BeginUpdate
             || s.workers[w].pc == EndUpdate || s.workers[w].pc == ReadEnd
    ensures EventOk(WorkStep(s, w), ByWorker(w), e)
  {
  }

  /** The delete: whatever is not covered or missed by then makes the worker recreate the flag. */
  lemma EventRemove(s: State, w: WorkerId, e: Event)
    requires TokenInvariant(s, ByWorker(w)) && TokenInvariant(WorkStep(s, w), Nobody)
    requires e in s.producers && EventOk(s, ByWorker(w), e) && s.workers[w].pc == RemovePending
    ensures EventOk(WorkStep(s, w), Nobody, e)
  {
    var s' := WorkStep(s, w);
    assert w in s'.workers;
  }

  lemma EventHandover(s: State, t: Token, w: WorkerId, e: Event)
    requires Mutex(s) && TokenInvariant(s, t) && w in s.workers
    requires TokenInvariant(WorkStep(s, w), Pass(s, t, Work(w)))
    requires e in s.producers && EventOk(s, t, e)
    requires s.workers[w].pc == RemovePending || s.workers[w].pc == CreatePending || s.workers[w].pc == Republish
    ensures EventOk(WorkStep(s, w), Pass(s, t, Work(w)), e)
  {
    if s.workers[w].pc == RemovePending {
      EventRemove(s, w, e);
    } else if s.workers[w].pc == CreatePending && s.pending {
      EventFrame(s, WorkStep(s, w), t, e);
    } else {
      RestartIsOk(WorkStep(s, w), Pass(s, t, Work(w)), e);
    }
  }

  lemma EventRelease(s: State, t: Token, w: WorkerId, e: Event)
    requires Mutex(s) && TokenInvariant(s, t) && w in s.workers
    requires TokenInvariant(WorkStep(s, w), Pass(s, t, Work(w)))
    requires e in s.producers && EventOk(s, t, e)
    requires s.workers[w].pc == Release || s.workers[w].pc == FailedRelease || s.workers[w].pc == Requeue
    ensures EventOk(WorkStep(s, w), Pass(s, t, Work(w)), e)
  {
    if s.workers[w].pc == Release {
      EventFrame(s, WorkStep(s, w), t, e);
    } else {
      RestartIsOk(WorkStep(s, w), Pass(s, t, Work(w)), e);
    }
  }

  lemma EventWork(s: State, t: Token, w: WorkerId, e: Event)
    requires Mutex(s) && TokenInvariant(s, t) && w in s.workers
    requires TokenInvariant(WorkStep(s, w), Pass(s, t, Work(w)))
    requires e in s.producers && EventOk(s, t, e)
    ensures EventOk(WorkStep(s, w), Pass(s, t, Work(w)), e)
  {
    var pc := s.workers[w].pc;
    if pc == RemovePending || pc == CreatePending || pc == Republish {
      EventHandover(s, t, w, e);
    } else if pc == Release || pc == FailedRelease || pc == Requeue {
      EventRelease(s, t, w, e);
    } else {
      EventUpdate(s, w, e);
    }
  }

  /** Another event's producer moves. */
  lemma EventOther(s: State, t: Token, e': Event, e: Event)
    requires TokenInvariant(s, t) && e' in s.producers && e' != e
    requires TokenInvariant(ProduceStep(s, e'), Pass(s, t, Produce(e')))
    requires e in s.producers && EventOk(s, t, e)
    ensures EventOk(ProduceStep(s, e'), Pass(s, t, Produce(e')), e)
  {
    if Pass(s, t, Produce(e')) == t {
      EventFrame(s, ProduceStep(s, e'), t, e);
    } else {
      RestartIsOk(ProduceStep(s, e'), Pass(s, t, Produce(e')), e);
    }
  }

  lemma EventStart(s: State, t: Token, w: WorkerId, e: Event)
    requires TokenInvariant(s, t) && TokenInvariant(Next(s, StartTask(w)), Pass(s, t, StartTask(w)))
    requires e in s.producers && EventOk(s, t, e)
    ensures EventOk(Next(s, StartTask(w)), Pass(s, t, StartTask(w)), e)
  {
    if Pass(s, t, StartTask(w)) == t {
      EventFrame(s, Next(s, StartTask(w)), t, e);
    } else {
      RestartIsOk(Next(s, StartTask(w)), Pass(s, t, StartTask(w)), e);
    }
  }

  lemma EventCommit(s: State, t: Token, e': Event, e: Event)
    requires TokenInvariant(s, t) && TokenInvariant(Next(s, Commit(e')), t)
    requires e in s.producers && EventOk(s, t, e)
    ensures EventOk(Next(s, Commit(e')), t, e)
  {
    EventFrame(s, Next(s, Commit(e')), t, e);
  }

  lemma EventStep(s: State, t: Token, a: Action, e: Event)
    requires Mutex(s) && TokenInvariant(s, t) && TokenInvariant(Next(s, a), Pass(s, t, a))
    requires e in s.producers && e in Next(s, a).producers && EventOk(s, t, e)
    ensures EventOk(Next(s, a), Pass(s, t, a), e)
  {
    match a
    case Commit(e') => EventCommit(s, t, e', e);
    case Produce(e') =>
      if e' in s.producers {
        if e' == e {
          EventProduce(s, t, e);
        } else {
          EventOther(s, t, e', e);
        }
      }
    case StartTask(w) => EventStart(s, t, w, e);
    case Work(w) =>
      if w in s.workers {
        EventWork(s, t, w, e);
      }
    case Fail(w) =>
      if w in s.workers && MayFail(s.workers[w].pc) {
        RestartIsOk(Next(s, a), t, e);
      }
  }

  ghost predicate EventInvariant(s: State, t: Token) {
    forall e :: e in s.producers ==> EventOk(s, t, e)
  }

  lemma DroppedStays(s: State, a: Action)
    ensures s.dropped ==> Next(s, a).dropped
    ensures forall e :: e in s.producers ==> e in Next(s, a).producers
    ensures forall e :: e in Next(s, a).producers && e !in s.producers ==> Next(s, a).producers[e].pc == Incr
  {
  }

  lemma EventsStep(s: State, t: Token, a: Action)
    requires Mutex(s) && TokenInvariant(s, t) && TokenInvariant(Next(s, a), Pass(s, t, a))
    requires EventInvariant(s, t)
    ensures EventInvariant(Next(s, a), Pass(s, t, a))
  {
    DroppedStays(s, a);
    forall e | e in Next(s, a).producers ensures EventOk(Next(s, a), Pass(s, t, a), e) {
      if e in s.producers {
        EventStep(s, t, a, e);
      }
    }
  }

  /** Every reachable state in which no task was dropped has a token holder who accounts for every event. */
  lemma {:induction false} Accounted(run: seq<Action>) returns (t: Token)
    requires !After(run).dropped
    ensures TokenInvariant(After(run), t) && EventInvariant(After(run), t)
  {
    if run == [] {
      t := Nobody;
    } else {
      var front, a := run[..|run| - 1], run[|run| - 1];
      var s := After(front);
      DroppedStays(s, a);
      var t0 := Accounted(front);
      t := Pass(s, t0, a);
      AtMostOneUpdate(front);
      TokenStep(s, t0, a);
      EventsStep(s, t0, a);
    }
  }

  /** No worker, no queued task, and no producer about to queue one. */
  ghost predicate Quiet(s: State) {
    && s.workers == map[] && s.queued == 0
    && forall e :: e in s.producers ==> s.producers[e].pc != Publish
  }

  /**
   * No event is lost: in every interleaving in which no task found the lock taken, once all is quiet
   * each finished event was committed before some completed update began, unless its increment and
   * its refused flag both fell between one worker's second version read and its delete.
   */
  lemma NoEventIsLost(run: seq<Action>)
    requires !After(run).dropped && Quiet(After(run))
    ensures var s := After(run);
            forall e :: e in s.producers && s.producers[e].pc == Finished ==> e in s.covered || e in s.missed
  {
    var t := Accounted(run);
    var s := After(run);
    forall e | e in s.producers && s.producers[e].pc == Finished ensures e in s.covered || e in s.missed {
      assert EventOk(s, t, e);
    }
  }

  /** So long as no task was dropped, a task that gets the lock always finds the flag set. */
  lemma TaskFindsFlag(run: seq<Action>, w: WorkerId)
    requires !After(run).dropped && w in After(run).workers && After(run).workers[w].pc == CheckPending
    ensures After(run).pending
  {
    var t := Accounted(run);
  }

  // ---- the two ways an event is lost ----

  lemma Then(run: seq<Action>, a: Action)
    ensures After(run + [a]) == Next(After(run), a)
  {
    assert (run + [a])[..|run|] == run;
  }

  /** Event 1 is recorded, its task starts and reads the first version. */
  lemma FirstEventStarts() returns (run: seq<Action>)
    ensures After(run) == State(1, true, true, 0, map[1 := Producer(Finished, Outside)],
                                map[7 := Worker(BeginUpdate, 1, 0, {})], {}, {}, 0, false)
  {
    run := [];
    Then(run, Commit(1));
    run := run + [Commit(1)];
    assert After(run) == State(0, false, false, 0, map[1 := Producer(Incr, Outside)], map[], {}, {}, 0, false);
    Then(run, Produce(1));
    run := run + [Produce(1)];
    assert After(run) == State(1, false, false, 0, map[1 := Producer(SetPending, Outside)], map[], {}, {}, 0, false);
    Then(run, Produce(1));
    run := run + [Produce(1)];
    assert After(run) == State(1, true, false, 0, map[1 := Producer(Publish, Outside)], map[], {}, {}, 0, false);
    Then(run, Produce(1));
    run := run + [Produce(1)];
    assert After(run) == State(1, true, false, 1, map[1 := Producer(Finished, Outside)], map[], {}, {}, 0, false);
    Then(run, StartTask(7));
    run := run + [StartTask(7)];
    assert After(run) == State(1, true, true, 0, map[1 := Producer(Finished, Outside)],
                               map[7 := Worker(CheckPending, 0, 0, {})], {}, {}, 0, false);
    Then(run, Work(7));
    run := run + [Work(7)];
    assert After(run) == State(1, true, true, 0, map[1 := Producer(Finished, Outside)],
                               map[7 := Worker(ReadStart, 0, 0, {})], {}, {}, 0, false);
    Then(run, Work(7));
    run := run + [Work(7)];
  }

  /** The update runs and the second version is read: the delete window is open. */
  lemma FirstEventUpdates() returns (run: seq<Action>)
    ensures After(run) == State(1, true, true, 0, map[1 := Producer(Finished, Outside)],
                                map[7 := Worker(RemovePending, 1, 1, {1})], {1}, {}, 0, false)
  {
    run := FirstEventStarts();
    var ps := map[1 := Producer(Finished, Outside)];
    assert ps.Keys == {1};
    Then(run, Work(7));
    run := run + [Work(7)];
    assert After(run) == State(1, true, true, 0, ps, map[7 := Worker(EndUpdate, 1, 0, {1})], {}, {}, 0, false);
    Then(run, Work(7));
    run := run + [Work(7)];
    assert After(run) == State(1, true, true, 0, ps, map[7 := Worker(ReadEnd, 1, 0, {1})], {1}, {}, 0, false);
    Then(run, Work(7));
    run := run + [Work(7)];
  }

  /** Inside the window a second event is recorded and counted. */
  lemma SecondEventCounted() returns (run: seq<Action>)
    ensures After(run) == State(2, true, true, 0, map[1 := Producer(Finished, Outside), 2 := Producer(SetPending, Inside(0))],
                                map[7 := Worker(RemovePending, 1, 1, {1})], {1}, {}, 0, false)
  {
    run := FirstEventUpdates();
    var w, p1 := map[7 := Worker(RemovePending, 1, 1, {1})], Producer(Finished, Outside);
    Then(run, Commit(2));
    run := run + [Commit(2)];
    var s := State(1, true, true, 0, map[1 := p1, 2 := Producer(Incr, Outside)], w, {1}, {}, 0, false);
    assert After(run) == s;
    assert InDeleteWindow(s) by {
      assert 7 in s.workers;
    }
    Then(run, Produce(2));
    run := run + [Produce(2)];
  }

  /** Still inside the window its flag is refused, and its producer finishes. */
  lemma SecondEventRefused() returns (run: seq<Action>)
    ensures After(run) == State(2, true, true, 0, map[1 := Producer(Finished, Outside), 2 := Producer(Finished, Inside(0))],
                                map[7 := Worker(RemovePending, 1, 1, {1})], {1}, {2}, 0, false)
  {
    run := SecondEventCounted();
    var s := After(run);
    assert InDeleteWindow(s) by {
      assert 7 in s.workers;
    }
    Then(run, Produce(2));
    run := run + [Produce(2)];
    assert After(run) == s.(producers := s.producers[2 := Producer(Extend, Inside(0))], missed := {2});
    Then(run, Produce(2));
    run := run + [Produce(2)];
  }

  /**
   * The window is real: an event that is counted and refused inside it stays finished, uncovered
   * and with nothing left to run, although no task was ever dropped.
   */
  lemma WindowLosesAnEvent() returns (run: seq<Action>)
    ensures var s := After(run);
            && Quiet(s) && !s.dropped
            && 2 in s.producers && s.producers[2].pc == Finished && 2 !in s.covered && 2 in s.missed
  {
    run := SecondEventRefused();
    var s := After(run);
    Then(run, Work(7));
    run := run + [Work(7)];
    assert After(run) == s.(pending := false, deletes := 1, workers := map[7 := Worker(Release, 1, 1, {1})]);
    Then(run, Work(7));
    run := run + [Work(7)];
    assert After(run).workers == map[];
  }

  /** The first worker has deleted the flag but still holds the lock when event 2 is committed. */
  lemma FlagDeletedLockHeld() returns (run: seq<Action>)
    ensures After(run) == State(1, false, true, 0, map[1 := Producer(Finished, Outside), 2 := Producer(Incr, Outside)],
                                map[7 := Worker(Release, 1, 1, {1})], {1}, {}, 1, false)
  {
    run := FirstEventUpdates();
    Then(run, Work(7));
    run := run + [Work(7)];
    var w, p1 := map[7 := Worker(Release, 1, 1, {1})], Producer(Finished, Outside);
    assert After(run) == State(1, false, true, 0, map[1 := p1], w, {1}, {}, 1, false);
    Then(run, Commit(2));
    run := run + [Commit(2)];
  }

  /** Event 2 then sets the flag again and queues a task. */
  lemma TaskQueuedTooEarly() returns (run: seq<Action>)
    ensures After(run) == State(2, true, true, 1, map[1 := Producer(Finished, Outside), 2 := Producer(Finished, Outside)],
                                map[7 := Worker(Release, 1, 1, {1})], {1}, {}, 1, false)
  {
    run := FlagDeletedLockHeld();
    var s := After(run);
    var p1 := Producer(Finished, Outside);
    assert !InDeleteWindow(s);
    Then(run, Produce(2));
    run := run + [Produce(2)];
    s := s.(version := 2, producers := map[1 := p1, 2 := Producer(SetPending, Outside)]);
    assert After(run) == s;
    Then(run, Produce(2));
    run := run + [Produce(2)];
    s := s.(pending := true, producers := map[1 := p1, 2 := Producer(Publish, Outside)]);
    assert After(run) == s;
    Then(run, Produce(2));
    run := run + [Produce(2)];
  }

  /**
   * Nor may a task find the lock taken: here the flag is set again before the first worker lets go
   * of the lock, the new task is dropped, and the flag stays set with nobody left to act on it.
   */
  lemma DroppedTaskLosesAnEvent() returns (run: seq<Action>)
    ensures var s := After(run);
            && Quiet(s) && s.dropped && s.pending
            && 2 in s.producers && s.producers[2].pc == Finished && 2 !in s.covered && 2 !in s.missed
  {
    run := TaskQueuedTooEarly();
    var s := After(run);
    Then(run, StartTask(8));
    run := run + [StartTask(8)];
    assert After(run) == s.(queued := 0, dropped := true);
    Then(run, Work(7));
    run := run + [Work(7)];
    assert After(run).workers == map[];
  }
}
