/** What every run of the thread pool keeps. */
module ThreadPoolSafety {
  import opened Collections
  import opened ThreadPool

  // ---------- the invariant ----------

  predicate WorkerHolds(w: Worker) { w.WTest? || w.WTake? }

  predicate ProducerHolds<J>(p: Producer<J>) { p.PTest? || p.PInsert? }

  predicate DestroyerHolds(d: Destroyer) { d.DBegin? || d.DTest? || d.DClose? }

  /** The mutex is held by exactly the thread that is inside a critical section. */
  ghost predicate Exclusive<J>(s: State<J>) {
    && (forall i :: 0 <= i < |s.workers| ==> (WorkerHolds(s.workers[i]) <==> s.mutex == Held(W(i))))
    && (forall i :: 0 <= i < |s.producers| ==> (ProducerHolds(s.producers[i]) <==> s.mutex == Held(P(i))))
    && (DestroyerHolds(s.destroyer) <==> s.mutex == Held(D))
    && (s.mutex.Held? && s.mutex.owner.W? ==> s.mutex.owner.i < |s.workers|)
    && (s.mutex.Held? && s.mutex.owner.P? ==> s.mutex.owner.i < |s.producers|)
  }

  /** `queue_cur_num` counts the chain; tickets wait and leave in acceptance order. */
  ghost predicate Queued<J>(c: Config, s: State<J>) {
    && s.cur == |s.chain| <= c.max
    && |s.accepted| == |s.taken| + |s.chain|
    && (forall k :: 0 <= k < |s.taken| ==> s.taken[k] == k)
    && (forall k :: 0 <= k < |s.chain| ==> s.chain[k] == |s.taken| + k)
  }

  /** Closing goes in stages, and a thread past its wait loop still sees what it waited for. */
  ghost predicate Staged<J>(c: Config, s: State<J>) {
    && (s.queueClose <==> !(s.destroyer.DIdle? || s.destroyer.DEnter? || s.destroyer.DBegin?))
    && (s.poolClose <==> s.destroyer.DCastNotEmpty? || s.destroyer.DCastNotFull? || s.destroyer.DJoin?
                         || s.destroyer.DClean? || s.destroyer.DDone?)
    && (s.poolClose || s.destroyer.DClose? ==> s.cur == 0)
    && (forall i :: 0 <= i < |s.workers| && s.workers[i].WTake? ==> s.cur != 0 || s.poolClose)
    && (forall i :: 0 <= i < |s.workers| && s.workers[i].WExited? ==> s.poolClose)
    && (forall i :: 0 <= i < |s.producers| && s.producers[i].PInsert? ==> s.cur < c.max || s.queueClose)
    && (s.destroyer.DJoin? ==> s.destroyer.next <= |s.workers|)
    && (forall i :: 0 <= i < |s.workers| ==>
          (s.destroyer.DJoin? && i < s.destroyer.next) || s.destroyer.DClean? || s.destroyer.DDone?
          ==> s.workers[i].WExited?)
  }

  /** Nobody sleeps through the event it waits for. */
  ghost predicate NoLostWakeup<J>(c: Config, s: State<J>) {
    && (forall i :: 0 <= i < |s.producers| && s.producers[i].PAsleep? ==> s.cur == c.max)
    && (forall i :: 0 <= i < |s.workers| && s.workers[i].WAsleep? ==>
          s.cur == 0 && (s.poolClose ==> s.destroyer.DCastNotEmpty?))
    && (s.destroyer.DAsleep? ==> s.cur != 0)
  }

  /** Every ticket handed out is being run by one worker, or has been completed once. */
  ghost predicate OnceEach<J>(s: State<J>) {
    && (forall i :: 0 <= i < |s.workers| && s.workers[i].WRun? ==>
          s.workers[i].ticket < |s.taken| && s.workers[i].ticket !in s.completed)
    && (forall i, j :: 0 <= i < j < |s.workers| && s.workers[i].WRun? && s.workers[j].WRun? ==>
          s.workers[i].ticket != s.workers[j].ticket)
    && (forall k :: 0 <= k < |s.completed| ==> s.completed[k] < |s.taken|)
    && Distinct(s.completed)
    && (forall t: nat :: t < |s.taken| ==> t in s.completed || BeingRun(s, t))
  }

  ghost predicate BeingRun<J>(s: State<J>, t: nat) {
    exists i :: 0 <= i < |s.workers| && s.workers[i] == WRun(t)
  }

  ghost predicate Sizes<J>(c: Config, s: State<J>) {
    |s.workers| == c.workers && |s.producers| == c.producers
  }

  ghost predicate Safe<J>(c: Config, s: State<J>) {
    Sizes(c, s) && Exclusive(s) && Queued(c, s) && Staged(c, s) && OnceEach(s)
  }

  // ---------- every step keeps it ----------

  predicate ByWorker<J>(step: Step<J>) {
    step.WorkerLock? || step.WorkerTest? || step.WorkerTake? || step.WorkerDone? || step.WorkerSpurious?
  }

  predicate ByProducer<J>(step: Step<J>) {
    step.Call? || step.ProducerLock? || step.ProducerTest? || step.ProducerInsert? || step.ProducerSpurious?
  }

  lemma ExclusiveWorker<J>(c: Config, s: State<J>, step: Step<J>)
    requires Enabled(c, s, step) && ByWorker(step) && Exclusive(s)
    ensures Exclusive(Apply(c, s, step))
  {
  }

  lemma ExclusiveProducer<J>(c: Config, s: State<J>, step: Step<J>)
    requires Enabled(c, s, step) && ByProducer(step) && Exclusive(s)
    ensures Exclusive(Apply(c, s, step))
  {
  }

  lemma ExclusiveDestroyer<J>(c: Config, s: State<J>, step: Step<J>)
    requires Enabled(c, s, step) && !ByWorker(step) && !ByProducer(step) && Exclusive(s)
    ensures Exclusive(Apply(c, s, step))
  {
    hide Enabled, Apply, Exclusive;
    if step.DestroyerCastNotEmpty? || step.DestroyerCastNotFull? {
      ExclusiveBroadcast(c, s, step);
    } else {
      ExclusiveCloser(c, s, step);
    }
  }

  lemma ExclusiveBroadcast<J>(c: Config, s: State<J>, step: Step<J>)
    requires Enabled(c, s, step) && (step.DestroyerCastNotEmpty? || step.DestroyerCastNotFull?) && Exclusive(s)
    ensures Exclusive(Apply(c, s, step))
  {
  }

  lemma ExclusiveCloser<J>(c: Config, s: State<J>, step: Step<J>)
    requires Enabled(c, s, step) && !ByWorker(step) && !ByProducer(step) && Exclusive(s)
    requires !step.DestroyerCastNotEmpty? && !step.DestroyerCastNotFull?
    ensures Exclusive(Apply(c, s, step))
  {
  }

  lemma QueuedWorker<J>(c: Config, s: State<J>, step: Step<J>)
    requires Enabled(c, s, step) && ByWorker(step) && Exclusive(s) && Queued(c, s) && Staged(c, s)
    ensures Queued(c, Apply(c, s, step))
  {
  }

  lemma QueuedProducer<J>(c: Config, s: State<J>, step: Step<J>)
    requires Enabled(c, s, step) && ByProducer(step) && Exclusive(s) && Queued(c, s) && Staged(c, s)
    ensures Queued(c, Apply(c, s, step))
  {
  }

  lemma QueuedDestroyer<J>(c: Config, s: State<J>, step: Step<J>)
    requires Enabled(c, s, step) && !ByWorker(step) && !ByProducer(step) && Exclusive(s) && Queued(c, s) && Staged(c, s)
    ensures Queued(c, Apply(c, s, step))
  {
  }

  lemma StagedWorker<J>(c: Config, s: State<J>, step: Step<J>)
    requires Enabled(c, s, step) && ByWorker(step) && Exclusive(s) && Queued(c, s) && Staged(c, s)
    ensures Staged(c, Apply(c, s, step))
  {
  }

  lemma StagedProducer<J>(c: Config, s: State<J>, step: Step<J>)
    requires Enabled(c, s, step) && ByProducer(step) && Exclusive(s) && Queued(c, s) && Staged(c, s)
    ensures Staged(c, Apply(c, s, step))
  {
  }

  lemma StagedDestroyer<J>(c: Config, s: State<J>, step: Step<J>)
    requires Enabled(c, s, step) && !ByWorker(step) && !ByProducer(step) && Exclusive(s) && Queued(c, s) && Staged(c, s)
    ensures Staged(c, Apply(c, s, step))
  {
  }

  lemma OnceEachWorker<J>(c: Config, s: State<J>, step: Step<J>)
    requires Enabled(c, s, step) && ByWorker(step) && Queued(c, s) && OnceEach(s)
    ensures OnceEach(Apply(c, s, step))
  {
    hide Enabled, Apply, OnceEach, Queued;
    match step
    case WorkerTake(_) => OnceEachTake(c, s, step);
    case WorkerDone(_) => OnceEachDone(c, s, step);
    case _ => OnceEachElse(c, s, step);
  }

  lemma OnceEachTake<J>(c: Config, s: State<J>, step: Step<J>)
    requires Enabled(c, s, step) && step.WorkerTake? && Queued(c, s) && OnceEach(s)
    ensures OnceEach(Apply(c, s, step))
  {
    var next := Apply(c, s, step);
    forall t: nat | t < |next.taken| ensures t in next.completed || BeingRun(next, t) {
      if t == |s.taken| {
        assert next.workers[step.w] == WRun(t);
      } else if t !in s.completed {
        var i :| 0 <= i < |s.workers| && s.workers[i] == WRun(t);
        assert next.workers[i] == WRun(t);
      }
    }
  }

  lemma OnceEachDone<J>(c: Config, s: State<J>, step: Step<J>)
    requires Enabled(c, s, step) && step.WorkerDone? && OnceEach(s)
    ensures OnceEach(Apply(c, s, step))
  {
    var next := Apply(c, s, step);
    assert next.completed[|s.completed|] == s.workers[step.w].ticket;
    forall t: nat | t < |next.taken| ensures t in next.completed || BeingRun(next, t) {
      if t !in s.completed {
        var i :| 0 <= i < |s.workers| && s.workers[i] == WRun(t);
        assert i != step.w ==> next.workers[i] == WRun(t);
      }
    }
  }

  lemma OnceEachElse<J>(c: Config, s: State<J>, step: Step<J>)
    requires Enabled(c, s, step) && (step.WorkerLock? || step.WorkerTest? || step.WorkerSpurious?) && OnceEach(s)
    ensures OnceEach(Apply(c, s, step))
  {
    hide OnceEach;
    var next := Apply(c, s, step);
    SameTickets(s, next);
  }

  lemma OnceEachProducer<J>(c: Config, s: State<J>, step: Step<J>)
    requires Enabled(c, s, step) && ByProducer(step) && Queued(c, s) && OnceEach(s)
    ensures OnceEach(Apply(c, s, step))
  {
    var next := Apply(c, s, step);
    assert next.taken == s.taken && next.completed == s.completed && |next.workers| == |s.workers|;
    SameTickets(s, next);
  }

  lemma OnceEachDestroyer<J>(c: Config, s: State<J>, step: Step<J>)
    requires Enabled(c, s, step) && !ByWorker(step) && !ByProducer(step) && Queued(c, s) && OnceEach(s)
    ensures OnceEach(Apply(c, s, step))
  {
    var next := Apply(c, s, step);
    assert next.taken == s.taken && next.completed == s.completed && |next.workers| == |s.workers|;
    SameTickets(s, next);
  }

  lemma SameTickets<J>(s: State<J>, next: State<J>)
    requires OnceEach(s)
    requires next.taken == s.taken && next.completed == s.completed && |next.workers| == |s.workers|
    requires forall i :: 0 <= i < |s.workers| ==>
      (s.workers[i].WRun? || next.workers[i].WRun? ==> next.workers[i] == s.workers[i])
    ensures OnceEach(next)
  {
    forall t: nat | t < |next.taken| ensures t in next.completed || BeingRun(next, t) {
      if t !in s.completed {
        var i :| 0 <= i < |s.workers| && s.workers[i] == WRun(t);
        assert next.workers[i] == WRun(t);
      }
    }
  }

  lemma SafeStep<J>(c: Config, s: State<J>, step: Step<J>)
    requires Enabled(c, s, step) && Safe(c, s)
    ensures Safe(c, Apply(c, s, step))
  {
    hide Exclusive, Queued, Staged, OnceEach;
    if ByWorker(step) {
      ExclusiveWorker(c, s, step);
      QueuedWorker(c, s, step);
      StagedWorker(c, s, step);
      OnceEachWorker(c, s, step);
    } else if ByProducer(step) {
      ExclusiveProducer(c, s, step);
      QueuedProducer(c, s, step);
      StagedProducer(c, s, step);
      OnceEachProducer(c, s, step);
    } else {
      ExclusiveDestroyer(c, s, step);
      QueuedDestroyer(c, s, step);
      StagedDestroyer(c, s, step);
      OnceEachDestroyer(c, s, step);
    }
  }

  /** Only the worker that empties a queue of one slot fails to wake the producers. */
  predicate WakesAll(c: Config) {
    !(c.max == 1 && c.workers >= 1 && c.producers >= 1)
  }

  lemma WakeupStep<J>(c: Config, s: State<J>, step: Step<J>)
    requires Enabled(c, s, step) && Safe(c, s) && NoLostWakeup(c, s) && WakesAll(c)
    ensures NoLostWakeup(c, Apply(c, s, step))
  {
    hide OnceEach, Exclusive, Queued, Staged, NoLostWakeup, Enabled, Apply;
    if ByWorker(step) {
      WakeupWorker(c, s, step);
    } else if ByProducer(step) {
      WakeupProducer(c, s, step);
    } else {
      WakeupDestroyer(c, s, step);
    }
  }

  lemma WakeupWorker<J>(c: Config, s: State<J>, step: Step<J>)
    requires Enabled(c, s, step) && ByWorker(step) && NoLostWakeup(c, s) && WakesAll(c)
    requires Sizes(c, s) && Queued(c, s) && Staged(c, s)
    ensures NoLostWakeup(c, Apply(c, s, step))
  {
  }

  lemma WakeupProducer<J>(c: Config, s: State<J>, step: Step<J>)
    requires Enabled(c, s, step) && ByProducer(step) && NoLostWakeup(c, s)
    requires Sizes(c, s) && Exclusive(s) && Queued(c, s) && Staged(c, s)
    ensures NoLostWakeup(c, Apply(c, s, step))
  {
  }

  lemma WakeupDestroyer<J>(c: Config, s: State<J>, step: Step<J>)
    requires Enabled(c, s, step) && !ByWorker(step) && !ByProducer(step) && NoLostWakeup(c, s)
    requires Sizes(c, s) && Exclusive(s) && Queued(c, s) && Staged(c, s)
    ensures NoLostWakeup(c, Apply(c, s, step))
  {
  }

  lemma NothingToQueue<J>(c: Config, s: State<J>, step: Step<J>)
    requires Enabled(c, s, step) && Safe(c, s) && c.producers == 0 && s.chain == []
    ensures Apply(c, s, step).chain == []
  {
    hide OnceEach, Exclusive, Staged;
  }

  lemma InitSafe<J>(c: Config)
    ensures var s: State<J> := Init(c); Safe(c, s) && NoLostWakeup(c, s)
  {
  }

  lemma {:induction false} RunKeepsSafe<J>(c: Config, s: State<J>, steps: seq<Step<J>>)
    requires IsRun(c, s, steps) && Safe(c, s)
    ensures Safe(c, After(c, s, steps))
    ensures WakesAll(c) && NoLostWakeup(c, s) ==> NoLostWakeup(c, After(c, s, steps))
    ensures c.producers == 0 && s.chain == [] ==> After(c, s, steps).chain == []
    decreases |steps|
  {
    hide Safe, NoLostWakeup, Enabled, Apply;
    if steps != [] {
      SafeStep(c, s, steps[0]);
      if c.producers == 0 && s.chain == [] {
        NothingToQueue(c, s, steps[0]);
      }
      if WakesAll(c) && NoLostWakeup(c, s) {
        WakeupStep(c, s, steps[0]);
      }
      RunKeepsSafe(c, Apply(c, s, steps[0]), steps[1..]);
    }
  }

  lemma ReachableSafe<J(!new)>(c: Config, s: State<J>)
    requires Reachable(c, s)
    ensures Safe(c, s)
    ensures WakesAll(c) ==> NoLostWakeup(c, s)
    ensures c.producers == 0 ==> s.chain == []
  {
    var steps :| IsRun(c, Init(c), steps) && After(c, Init(c), steps) == s;
    InitSafe<J>(c);
    RunKeepsSafe(c, Init(c), steps);
  }

  // ---------- what follows for every run ----------

  /** When `threadpool_destory` has returned, every accepted job has run exactly once: the completion log is
      a rearrangement of all tickets. Its clean-up loop found nothing to free. */
  lemma DrainedOnShutdown<J(!new)>(c: Config, s: State<J>)
    requires Reachable(c, s) && (s.destroyer.DClean? || s.destroyer.DDone?)
    ensures s.chain == [] && (forall i :: 0 <= i < |s.workers| ==> s.workers[i].WExited?)
    ensures forall t: nat :: t < |s.accepted| <==> t in s.completed
    ensures |s.completed| == |s.accepted|
    ensures Distinct(s.completed)
  {
    ReachableSafe(c, s);
    forall t: nat | t < |s.taken| ensures t in s.completed {
      assert !BeingRun(s, t);
    }
    CountDistinct(s.completed, |s.accepted|);
  }

  /** Distinct numbers below n that reach every one of them: there are n. */
  lemma CountDistinct(ts: seq<nat>, n: nat)
    requires Distinct(ts) && forall t: nat :: t < n <==> t in ts
    ensures |ts| == n
  {
    UpToSize(n);
    ListedSize(ts);
    assert UpTo(n) == Listed(ts);
  }

  function UpTo(n: nat): set<nat> {
    if n == 0 then {} else UpTo(n - 1) + {n - 1}
  }

  lemma {:induction false} UpToSize(n: nat)
    ensures |UpTo(n)| == n && forall t: nat :: t in UpTo(n) <==> t < n
  {
    if n > 0 {
      UpToSize(n - 1);
    }
  }

  // ---------- no deadlock ----------

  /** A call has begun and not returned. */
  ghost predicate CallPending<J>(s: State<J>) {
    || (exists i :: 0 <= i < |s.producers| && !s.producers[i].PIdle?)
    || !(s.destroyer.DIdle? || s.destroyer.DDone?)
  }

  /** A step that some thread takes by itself: no spurious wake-up and no new call. */
  predicate Own<J>(step: Step<J>) {
    !(step.WorkerSpurious? || step.ProducerSpurious? || step.DestroyerSpurious? || step.Call? || step.Destroy?)
  }

  ghost predicate CanMove<J(!new)>(c: Config, s: State<J>) {
    exists step :: Enabled(c, s, step) && Own(step)
  }

  lemma HolderMoves<J(!new)>(c: Config, s: State<J>)
    requires Safe(c, s) && s.mutex.Held?
    ensures CanMove(c, s)
  {
    match s.mutex.owner
    case W(i) =>
      var step: Step<J> := if s.workers[i].WTest? then WorkerTest(i) else WorkerTake(i);
      assert Enabled(c, s, step) && Own(step);
    case P(i) =>
      var step: Step<J> := if s.producers[i].PTest? then ProducerTest(i) else ProducerInsert(i, true);
      assert Enabled(c, s, step) && Own(step);
    case D =>
      var step: Step<J> := if s.destroyer.DBegin? then DestroyerBegin
                           else if s.destroyer.DTest? then DestroyerTest else DestroyerClose;
      assert Enabled(c, s, step) && Own(step);
  }

  lemma WorkerMoves<J(!new)>(c: Config, s: State<J>, w: nat)
    requires Safe(c, s) && s.mutex.Free? && w < |s.workers|
    requires !s.workers[w].WAsleep? && !s.workers[w].WExited?
    ensures CanMove(c, s)
  {
    assert WorkerHolds(s.workers[w]) <==> s.mutex == Held(W(w));
    var step: Step<J> := if s.workers[w].WEnter? then WorkerLock(w) else WorkerDone(w);
    assert Enabled(c, s, step) && Own(step);
  }

  lemma DestroyerMoves<J(!new)>(c: Config, s: State<J>)
    requires Safe(c, s) && NoLostWakeup(c, s) && s.mutex.Free?
    requires !s.destroyer.DIdle? && !s.destroyer.DDone? && !s.destroyer.DAsleep?
    ensures CanMove(c, s)
  {
    var d := s.destroyer;
    if d.DJoin? && d.next < |s.workers| && !s.workers[d.next].WExited? {
      WorkerMoves(c, s, d.next);
    } else {
      var step: Step<J> := match d
        case DEnter => DestroyerLock
        case DReenter => DestroyerLock
        case DCastNotEmpty => DestroyerCastNotEmpty
        case DCastNotFull => DestroyerCastNotFull
        case DJoin(_) => DestroyerJoin
        case _ => DestroyerClean;
      assert Enabled(c, s, step) && Own(step);
    }
  }

  /** Enough workers and slots for whoever adds jobs. */
  predicate Sufficient(c: Config) {
    c.producers == 0 || (c.workers >= 1 && c.max >= 2)
  }

  /** With at least one worker and room for two jobs, or nobody to add jobs, a pending call always leaves
      somebody able to move. */
  lemma NoDeadlock<J(!new)>(c: Config, s: State<J>)
    requires Reachable(c, s) && Sufficient(c) && CallPending(s)
    ensures CanMove(c, s)
  {
    ReachableSafe(c, s);
    if s.mutex.Held? {
      HolderMoves(c, s);
    } else if c.producers > 0 && !s.workers[0].WAsleep? && !s.workers[0].WExited? {
      WorkerMoves(c, s, 0);
    } else if !(s.destroyer.DIdle? || s.destroyer.DDone? || s.destroyer.DAsleep?) {
      DestroyerMoves(c, s);
    } else {
      assert s.cur == 0;
      var i :| 0 <= i < |s.producers| && !s.producers[i].PIdle?;
      assert ProducerHolds(s.producers[i]) <==> s.mutex == Held(P(i));
      var step: Step<J> := ProducerLock(i);
      assert Enabled(c, s, step) && Own(step);
    }
  }

  // ---------- how far the bound on the queue matters ----------

  /** Runs compose. */
  lemma {:induction false} RunThen<J>(c: Config, s: State<J>, steps: seq<Step<J>>, step: Step<J>)
    requires IsRun(c, s, steps) && Enabled(c, After(c, s, steps), step)
    ensures IsRun(c, s, steps + [step])
    ensures After(c, s, steps + [step]) == Apply(c, After(c, s, steps), step)
    decreases |steps|
  {
    hide Enabled, Apply;
    if steps == [] {
      assert [] + [step] == [step] && [step][1..] == [];
    } else {
      assert (steps + [step])[0] == steps[0] && (steps + [step])[1..] == steps[1..] + [step];
      RunThen(c, Apply(c, s, steps[0]), steps[1..], step);
    }
  }

  lemma ReachableThen<J(!new)>(c: Config, s: State<J>, step: Step<J>)
    requires Reachable(c, s) && Enabled(c, s, step)
    ensures Reachable(c, Apply(c, s, step))
  {
    hide Enabled, Apply;
    var steps :| IsRun(c, Init(c), steps) && After(c, Init(c), steps) == s;
    RunThen(c, Init(c), steps, step);
  }

  lemma Reached<J(!new)>(c: Config, s: State<J>, step: Step<J>) returns (t: State<J>)
    requires Reachable(c, s) && Enabled(c, s, step)
    ensures t == Apply(c, s, step) && Reachable(c, t)
  {
    hide Enabled, Apply, Reachable;
    ReachableThen(c, s, step);
    t := Apply(c, s, step);
  }

  lemma InitReachable<J(!new)>(c: Config)
    ensures var s: State<J> := Init(c); Reachable(c, s)
  {
    var s: State<J> := Init(c);
    var none: seq<Step<J>> := [];
    assert IsRun(c, s, none) && After(c, s, none) == s;
  }

  /** Nothing closed, nobody inside, and every worker about to take the mutex. */
  ghost predicate Open<J(!new)>(c: Config, s: State<J>) {
    && Reachable(c, s) && Sizes(c, s) && s.mutex.Free? && s.destroyer.DIdle? && !s.poolClose && !s.queueClose
    && s.cur == |s.chain|
  }

  ghost predicate Entering(ws: seq<Worker>, k: nat) {
    forall i :: k <= i < |ws| ==> ws[i] == WEnter
  }

  /** The first producer asleep, the others not in a call. */
  ghost predicate OnlyFirstAsleep<J>(ps: seq<Producer<J>>) {
    |ps| >= 1 && ps[0].PAsleep? && forall i :: 1 <= i < |ps| ==> ps[i].PIdle?
  }

  /** One producer can queue any number of jobs up to the bound before a worker moves. */
  lemma {:induction false} Filled<J(!new)>(c: Config, job: J, k: nat) returns (s: State<J>)
    requires c.producers >= 1 && k <= c.max
    ensures Open(c, s) && s.cur == k && Entering(s.workers, 0)
    ensures forall i :: 0 <= i < |s.producers| ==> s.producers[i] == PIdle
    decreases k
  {
    if k == 0 {
      s := Init(c);
      InitReachable<J>(c);
    } else {
      s := Filled(c, job, k - 1);
      s := OneMore(c, s, job);
    }
  }

  lemma OneMore<J(!new)>(c: Config, s: State<J>, job: J) returns (t: State<J>)
    requires Open(c, s) && s.cur < c.max && Entering(s.workers, 0)
    requires c.producers >= 1 && forall i :: 0 <= i < |s.producers| ==> s.producers[i] == PIdle
    ensures Open(c, t) && t.cur == s.cur + 1 && Entering(t.workers, 0)
    ensures forall i :: 0 <= i < |t.producers| ==> t.producers[i] == PIdle
  {
    var locked := FirstEnters(c, s, job);
    t := Reached(c, locked, ProducerTest(0));
    t := Reached(c, t, ProducerInsert(0, true));
  }

  /** The first producer calls and takes the mutex. */
  lemma FirstEnters<J(!new)>(c: Config, s: State<J>, job: J) returns (t: State<J>)
    requires Open(c, s) && c.producers >= 1 && s.producers[0] == PIdle
    ensures Reachable(c, t) && t == s.(mutex := Held(P(0)), producers := s.producers[0 := PTest(job)])
  {
    t := Reached(c, s, Call(0, job));
    t := Reached(c, t, ProducerLock(0));
    assert s.producers[0 := PEnter(job)][0 := PTest(job)] == s.producers[0 := PTest(job)];
  }

  /** The producer that finds the queue full sleeps. */
  lemma Blocked<J(!new)>(c: Config, job: J) returns (s: State<J>)
    requires c.producers >= 1
    ensures Open(c, s) && s.cur == c.max && Entering(s.workers, 0) && OnlyFirstAsleep(s.producers)
  {
    s := Filled(c, job, c.max);
    s := FirstEnters(c, s, job);
    s := Reached(c, s, ProducerTest(0));
  }

  /** A queue of one: the worker that empties it signals `queue_empty` only, so a producer sleeps on. */
  lemma LostWakeupWithOneSlot<J(!new)>(c: Config, job: J) returns (s: State<J>)
    requires c.max == 1 && c.workers >= 1 && c.producers >= 1
    ensures Open(c, s) && s.cur == 0 && OnlyFirstAsleep(s.producers) && !NoLostWakeup(c, s)
    ensures s.workers[0].WRun? && Entering(s.workers, 1)
  {
    s := Blocked(c, job);
    s := Reached(c, s, WorkerLock(0));
    s := Reached(c, s, WorkerTest(0));
    s := Reached(c, s, WorkerTake(0));
  }

  /** No wake-up is ever lost exactly when the queue bound is not one, or there is nobody to sleep or to wake. */
  lemma NoLostWakeupExactly<J(!new)>(c: Config, job: J)
    ensures (forall s: State<J> :: Reachable(c, s) ==> NoLostWakeup(c, s))
       <==> c.max != 1 || c.workers == 0 || c.producers == 0
  {
    if !WakesAll(c) {
      var s := LostWakeupWithOneSlot(c, job);
    } else {
      forall s: State<J> | Reachable(c, s) ensures NoLostWakeup(c, s) {
        ReachableSafe(c, s);
      }
    }
  }

  /** On an empty queue one worker after the other goes to sleep. */
  lemma {:induction false} WorkersSleep<J(!new)>(c: Config, s: State<J>, k: nat) returns (t: State<J>)
    requires Open(c, s) && s.cur == 0 && k <= c.workers && Entering(s.workers, k)
    requires forall i :: 0 <= i < k ==> s.workers[i] == WAsleep
    ensures Open(c, t) && t.producers == s.producers
    ensures forall i :: 0 <= i < c.workers ==> t.workers[i] == WAsleep
    decreases c.workers - k
  {
    t := s;
    if k < c.workers {
      t := Reached(c, t, WorkerLock(k));
      t := Reached(c, t, WorkerTest(k));
      t := WorkersSleep(c, t, k + 1);
    }
  }

  /** Without a worker, or with fewer than two slots, a reachable state is stuck in a pending call. */
  lemma Stuck<J(!new)>(c: Config, job: J) returns (s: State<J>)
    requires c.producers >= 1 && (c.workers == 0 || c.max < 2)
    ensures Reachable(c, s) && CallPending(s) && !CanMove(c, s)
  {
    if c.workers == 0 {
      s := Blocked(c, job);
    } else if c.max == 0 {
      s := Blocked(c, job);
      s := WorkersSleep(c, s, 0);
    } else {
      s := LostWakeupWithOneSlot(c, job);
      s := Reached(c, s, WorkerDone(0));
      s := WorkersSleep(c, s, 0);
    }
    NobodyMoves(c, s);
  }

  lemma NobodyMoves<J(!new)>(c: Config, s: State<J>)
    requires Open(c, s) && OnlyFirstAsleep(s.producers) && forall i :: 0 <= i < c.workers ==> s.workers[i] == WAsleep
    ensures CallPending(s) && !CanMove(c, s)
  {
    assert !s.producers[0].PIdle?;
  }

  /** So a pool is free of deadlock exactly when it has a worker and two slots, or nobody adds jobs. */
  lemma NoDeadlockExactly<J(!new)>(c: Config, job: J)
    ensures (forall s: State<J> :: Reachable(c, s) && CallPending(s) ==> CanMove(c, s))
       <==> c.producers == 0 || (c.workers >= 1 && c.max >= 2)
  {
    if !Sufficient(c) {
      var s := Stuck(c, job);
    } else {
      forall s: State<J> | Reachable(c, s) && CallPending(s) ensures CanMove(c, s) {
        NoDeadlock(c, s);
      }
    }
  }
}
