/** Left to themselves, the threads of the pool bring every pending call to its return. */
module ThreadPoolLiveness {
  import opened ThreadPool
  import opened ThreadPoolSafety

  function WorkerRank(w: Worker): nat {
    match w
    case WRun(_) => 4
    case WEnter => 3
    case WTest => 2
    case WTake => 1
    case _ => 0
  }

  function ProducerRank<J>(p: Producer<J>): nat {
    match p
    case PEnter(_) => 3
    case PTest(_) => 2
    case PInsert(_) => 1
    case _ => 0
  }

  function DestroyerRank(d: Destroyer): nat {
    if d.DReenter? then 2 else if d.DTest? then 1 else 0
  }

  /** Steps of `threadpool_destory` still ahead, its wait loop counting as one. */
  function Stage(d: Destroyer, workers: nat): nat {
    match d
    case DDone => 0
    case DClean => 1
    case DJoin(next) => 2 + if next <= workers then workers - next else 0
    case DCastNotFull => workers + 3
    case DCastNotEmpty => workers + 4
    case DClose => workers + 5
    case DTest => workers + 6
    case DAsleep => workers + 6
    case DReenter => workers + 6
    case DBegin => workers + 7
    case DEnter => workers + 8
    case DIdle => workers + 9
  }

  function Pending<J>(ps: seq<Producer<J>>): nat {
    if ps == [] then 0 else (if ps[0].PIdle? then 0 else 1) + Pending(ps[1..])
  }

  function WorkerRanks(ws: seq<Worker>): (r: nat)
    ensures r <= 4 * |ws|
  {
    if ws == [] then 0 else WorkerRank(ws[0]) + WorkerRanks(ws[1..])
  }

  function ProducerRanks<J>(ps: seq<Producer<J>>): (r: nat)
    ensures r <= 3 * |ps|
  {
    if ps == [] then 0 else ProducerRank(ps[0]) + ProducerRanks(ps[1..])
  }

  /** What only goes down: jobs to insert, jobs to take, and the destroyer's way to its end. */
  function Work<J>(s: State<J>): nat {
    2 * Pending(s.producers) + |s.chain| + Stage(s.destroyer, |s.workers|)
  }

  /** Where the threads are between two such events. */
  function Ranks<J>(s: State<J>): nat {
    WorkerRanks(s.workers) + ProducerRanks(s.producers) + DestroyerRank(s.destroyer)
  }

  /** An upper bound on the steps the threads can take by themselves. */
  function Fuel<J>(s: State<J>): nat {
    Work(s) * (4 * |s.workers| + 3 * |s.producers| + 3) + Ranks(s)
  }

  lemma {:induction false} PendingUpdate<J>(ps: seq<Producer<J>>, i: nat, p: Producer<J>)
    requires i < |ps|
    ensures Pending(ps[i := p]) + (if ps[i].PIdle? then 0 else 1) == Pending(ps) + if p.PIdle? then 0 else 1
  {
    if i > 0 {
      PendingUpdate(ps[1..], i - 1, p);
      assert ps[i := p][1..] == ps[1..][i - 1 := p];
    } else {
      assert ps[i := p][1..] == ps[1..];
    }
  }

  lemma {:induction false} PendingWake<J>(ps: seq<Producer<J>>)
    ensures Pending(WakeProducers(ps)) == Pending(ps)
  {
    if ps != [] {
      PendingWake(ps[1..]);
      assert WakeProducers(ps)[1..] == WakeProducers(ps[1..]);
    }
  }

  lemma {:induction false} WorkerRanksUpdate(ws: seq<Worker>, i: nat, w: Worker)
    requires i < |ws|
    ensures WorkerRanks(ws[i := w]) + WorkerRank(ws[i]) == WorkerRanks(ws) + WorkerRank(w)
  {
    if i > 0 {
      WorkerRanksUpdate(ws[1..], i - 1, w);
      assert ws[i := w][1..] == ws[1..][i - 1 := w];
    } else {
      assert ws[i := w][1..] == ws[1..];
    }
  }

  lemma {:induction false} ProducerRanksUpdate<J>(ps: seq<Producer<J>>, i: nat, p: Producer<J>)
    requires i < |ps|
    ensures ProducerRanks(ps[i := p]) + ProducerRank(ps[i]) == ProducerRanks(ps) + ProducerRank(p)
  {
    if i > 0 {
      ProducerRanksUpdate(ps[1..], i - 1, p);
      assert ps[i := p][1..] == ps[1..][i - 1 := p];
    } else {
      assert ps[i := p][1..] == ps[1..];
    }
  }

  /** The step either finishes some work, or leaves it and moves a thread on towards its next wait. */
  ghost predicate Descends<J>(s: State<J>, t: State<J>) {
    Work(t) < Work(s) || (Work(t) == Work(s) && Ranks(t) < Ranks(s))
  }

  lemma WorkerDescends<J>(c: Config, s: State<J>, step: Step<J>)
    requires Enabled(c, s, step) && Own(step) && ByWorker(step) && Queued(c, s)
    ensures Descends(s, Apply(c, s, step))
  {
    WorkerRanksUpdate(s.workers, step.w, Apply(c, s, step).workers[step.w]);
    PendingWake(s.producers);
  }

  lemma ProducerDescends<J>(c: Config, s: State<J>, step: Step<J>)
    requires Enabled(c, s, step) && Own(step) && ByProducer(step)
    ensures Descends(s, Apply(c, s, step))
  {
    ProducerRanksUpdate(s.producers, step.p, Apply(c, s, step).producers[step.p]);
    PendingUpdate(s.producers, step.p, Apply(c, s, step).producers[step.p]);
  }

  lemma DestroyerDescends<J>(c: Config, s: State<J>, step: Step<J>)
    requires Enabled(c, s, step) && Own(step) && !ByWorker(step) && !ByProducer(step) && Staged(c, s)
    ensures Descends(s, Apply(c, s, step))
  {
    PendingWake(s.producers);
  }

  lemma StepDescends<J>(c: Config, s: State<J>, step: Step<J>)
    requires Enabled(c, s, step) && Own(step) && Safe(c, s)
    ensures Descends(s, Apply(c, s, step))
  {
    hide Enabled, Apply, Exclusive, OnceEach, Queued, Staged, Descends;
    if ByWorker(step) {
      WorkerDescends(c, s, step);
    } else if ByProducer(step) {
      ProducerDescends(c, s, step);
    } else {
      DestroyerDescends(c, s, step);
    }
  }

  lemma RanksBound<J>(c: Config, s: State<J>)
    requires Sizes(c, s)
    ensures Ranks(s) < 4 * c.workers + 3 * c.producers + 3
  {
  }

  lemma Lexicographic(a: nat, b: nat, x: nat, y: nat, k: nat)
    requires x < k && (a < b || (a == b && x < y))
    ensures a * k + x < b * k + y
  {
    if a < b {
      var d := b - a - 1;
      assert b * k == a * k + d * k + k;
      assert 0 <= d * k;
    }
  }

  lemma FuelDescends<J>(c: Config, s: State<J>, step: Step<J>)
    requires Enabled(c, s, step) && Own(step) && Safe(c, s)
    ensures Fuel(Apply(c, s, step)) < Fuel(s)
  {
    hide Enabled, Apply, Exclusive, OnceEach, Queued, Staged, Work, Ranks;
    var t := Apply(c, s, step);
    SafeStep(c, s, step);
    StepDescends(c, s, step);
    RanksBound(c, t);
    Lexicographic(Work(t), Work(s), Ranks(t), Ranks(s), 4 * c.workers + 3 * c.producers + 3);
  }

  /** Threads left to themselves stop after boundedly many steps. */
  lemma {:induction false} OwnRunsAreBounded<J>(c: Config, s: State<J>, steps: seq<Step<J>>)
    requires Safe(c, s) && IsRun(c, s, steps) && forall i :: 0 <= i < |steps| ==> Own(steps[i])
    ensures |steps| + Fuel(After(c, s, steps)) <= Fuel(s)
    decreases |steps|
  {
    hide Safe, Enabled, Apply, Fuel;
    if steps != [] {
      FuelDescends(c, s, steps[0]);
      SafeStep(c, s, steps[0]);
      OwnRunsAreBounded(c, Apply(c, s, steps[0]), steps[1..]);
    }
  }

  lemma {:induction false} ReachableAfter<J(!new)>(c: Config, s: State<J>, steps: seq<Step<J>>)
    requires Reachable(c, s) && IsRun(c, s, steps)
    ensures Reachable(c, After(c, s, steps))
    decreases |steps|
  {
    hide Enabled, Apply, Reachable;
    if steps != [] {
      ReachableThen(c, s, steps[0]);
      ReachableAfter(c, Apply(c, s, steps[0]), steps[1..]);
    }
  }

  /** However the scheduler interleaves them, once the threads cannot move any more every call that was
      pending has returned; and they stop within a bound fixed by the state they started from. */
  lemma EveryCallReturns<J(!new)>(c: Config, s: State<J>, steps: seq<Step<J>>)
    requires Reachable(c, s) && Sufficient(c)
    requires IsRun(c, s, steps) && forall i :: 0 <= i < |steps| ==> Own(steps[i])
    ensures |steps| <= Fuel(s)
    ensures !CanMove(c, After(c, s, steps)) ==> !CallPending(After(c, s, steps))
  {
    hide Safe, Enabled, Apply, Fuel;
    ReachableSafe(c, s);
    OwnRunsAreBounded(c, s, steps);
    ReachableAfter(c, s, steps);
    if CallPending(After(c, s, steps)) {
      NoDeadlock(c, After(c, s, steps));
    }
  }
}
