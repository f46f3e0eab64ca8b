/** The reusable barrier as a step system. Any number of threads call `wait` any number of times, and
    a waiter may wake up for no reason. */
module Barrier {
  import opened Collections

  /** `wait`: Enter and Awake want the mutex, Arrive and Check hold it; gen is the local copy. */
  datatype Waiter = Idle | Enter | Arrive | Check(gen: nat) | Asleep(gen: nat) | Awake(gen: nat)

  datatype Mutex = Free | Held(owner: nat)

  /** The three fields, the threads, and per generation how many calls arrived and returned either way. */
  datatype State = State(
    threshold: nat,
    count: nat,
    generation: nat,
    mutex: Mutex,
    threads: seq<Waiter>,
    arrived: seq<nat>,
    trues: seq<nat>,
    falses: seq<nat>)

  /** The constructor refuses a count of zero. */
  function Init(count: nat, threads: nat): Option<State> {
    if count == 0 then None
    else Some(State(count, count, 0, Free, seq(threads, _ => Idle), [0], [0], [0]))
  }

  datatype Step = Call(t: nat) | Lock(t: nat) | ArriveStep(t: nat) | CheckStep(t: nat) | Spurious(t: nat)

  predicate Enabled(s: State, step: Step) {
    && step.t < |s.threads|
    && var pc := s.threads[step.t];
       match step
       case Call(_) => pc.Idle?
       case Lock(_) => s.mutex.Free? && (pc.Enter? || pc.Awake?)
       case ArriveStep(_) => pc.Arrive? && s.count > 0
       case CheckStep(_) => pc.Check?
       case Spurious(_) => pc.Asleep?
  }

  /** `notify_all` */
  function WakeAll(ts: seq<Waiter>): (r: seq<Waiter>)
    ensures |r| == |ts| && forall i :: 0 <= i < |ts| ==> r[i] == if ts[i].Asleep? then Awake(ts[i].gen) else ts[i]
  {
    seq(|ts|, i requires 0 <= i < |ts| => if ts[i].Asleep? then Awake(ts[i].gen) else ts[i])
  }

  function Bump(log: seq<nat>, g: nat): seq<nat> {
    if g < |log| then log[g := log[g] + 1] else log
  }

  function Apply(s: State, step: Step): State
    requires Enabled(s, step)
  {
    var t := step.t;
    match step
    case Call(_) => s.(threads := s.threads[t := Enter])
    case Lock(_) =>
      s.(mutex := Held(t),
         threads := s.threads[t := if s.threads[t].Enter? then Arrive else Check(s.threads[t].gen)])
    case ArriveStep(_) =>
      var g := s.generation;
      if s.count == 1 then
        s.(generation := g + 1,
           count := s.threshold,
           mutex := Free,
           threads := WakeAll(s.threads)[t := Idle],
           arrived := Bump(s.arrived, g) + [0],
           trues := Bump(s.trues, g) + [0],
           falses := s.falses + [0])
      else
        s.(count := s.count - 1, threads := s.threads[t := Check(g)], arrived := Bump(s.arrived, g))
    case CheckStep(_) =>
      var g := s.threads[t].gen;
      if g == s.generation then s.(mutex := Free, threads := s.threads[t := Asleep(g)])
      else s.(mutex := Free, threads := s.threads[t := Idle], falses := Bump(s.falses, g))
    case Spurious(_) => s.(threads := s.threads[t := Awake(s.threads[t].gen)])
  }

  predicate IsRun(s: State, steps: seq<Step>)
    decreases |steps|
  {
    steps == [] || (Enabled(s, steps[0]) && IsRun(Apply(s, steps[0]), steps[1..]))
  }

  function After(s: State, steps: seq<Step>): State
    requires IsRun(s, steps)
    decreases |steps|
  {
    if steps == [] then s else After(Apply(s, steps[0]), steps[1..])
  }

  // ---------- the invariant ----------

  predicate Waits(w: Waiter) { w.Check? || w.Asleep? || w.Awake? }

  predicate InGeneration(w: Waiter, g: nat) { Waits(w) && w.gen == g }

  function Waiting(ts: seq<Waiter>, g: nat): nat {
    if ts == [] then 0 else (if InGeneration(ts[0], g) then 1 else 0) + Waiting(ts[1..], g)
  }

  ghost predicate Exclusive(s: State) {
    && (s.mutex.Held? ==> s.mutex.owner < |s.threads|)
    && forall i :: 0 <= i < |s.threads| ==> (s.threads[i].Arrive? || s.threads[i].Check? <==> s.mutex == Held(i))
  }

  /** The three logs have an entry for every generation begun, and nobody waits for one not begun. */
  ghost predicate Logged(s: State) {
    && 1 <= s.count <= s.threshold
    && |s.arrived| == |s.trues| == |s.falses| == s.generation + 1
    && forall i :: 0 <= i < |s.threads| && Waits(s.threads[i]) ==> s.threads[i].gen <= s.generation
  }

  /** Sleepers belong to the current generation: nobody sleeps through the opening of its barrier. */
  ghost predicate NoLostWakeup(s: State) {
    forall i :: 0 <= i < |s.threads| && s.threads[i].Asleep? ==> s.threads[i].gen == s.generation
  }

  /** A finished generation: everybody arrived, one call returned true, the others returned false or are
      on their way out. */
  ghost predicate Finished(s: State, g: nat)
    requires g < |s.arrived| == |s.trues| == |s.falses|
  {
    && s.arrived[g] == s.threshold && s.trues[g] == 1
    && s.falses[g] + Waiting(s.threads, g) == s.threshold - 1
  }

  /** The current generation: as many waiters as arrivals, and no return yet. */
  ghost predicate Gathering(s: State)
    requires s.generation < |s.arrived| == |s.trues| == |s.falses|
  {
    var g := s.generation;
    && s.arrived[g] == s.threshold - s.count == Waiting(s.threads, g)
    && s.trues[g] == s.falses[g] == 0
  }

  ghost predicate Safe(s: State) {
    && Exclusive(s) && Logged(s) && NoLostWakeup(s) && Gathering(s)
    && forall g :: 0 <= g < s.generation ==> Finished(s, g)
  }

  lemma {:induction false} WaitingUpdate(ts: seq<Waiter>, i: nat, w: Waiter, g: nat)
    requires i < |ts|
    ensures Waiting(ts[i := w], g) + (if InGeneration(ts[i], g) then 1 else 0)
         == Waiting(ts, g) + if InGeneration(w, g) then 1 else 0
  {
    if i > 0 {
      WaitingUpdate(ts[1..], i - 1, w, g);
      assert ts[i := w][1..] == ts[1..][i - 1 := w];
    } else {
      assert ts[i := w][1..] == ts[1..];
    }
  }

  lemma {:induction false} WaitingWake(ts: seq<Waiter>, g: nat)
    ensures Waiting(WakeAll(ts), g) == Waiting(ts, g)
  {
    if ts != [] {
      WaitingWake(ts[1..], g);
      assert WakeAll(ts)[1..] == WakeAll(ts[1..]);
    }
  }

  lemma {:induction false} NobodyWaits(ts: seq<Waiter>, g: nat)
    requires forall i :: 0 <= i < |ts| ==> !InGeneration(ts[i], g)
    ensures Waiting(ts, g) == 0
  {
    if ts != [] {
      NobodyWaits(ts[1..], g);
    }
  }

  /** What a step does to the waiters of one generation. */
  lemma WaitingStep(s: State, step: Step, g: nat)
    requires Enabled(s, step)
    ensures
      var w, n := s.threads[step.t], Apply(s, step).threads[step.t];
      Waiting(Apply(s, step).threads, g) + (if InGeneration(w, g) then 1 else 0)
      == Waiting(s.threads, g) + if InGeneration(n, g) then 1 else 0
  {
    var opens := step.ArriveStep? && s.count == 1;
    WaitingWake(s.threads, g);
    WaitingUpdate(if opens then WakeAll(s.threads) else s.threads, step.t, Apply(s, step).threads[step.t], g);
  }

  lemma ShapeStep(s: State, step: Step)
    requires Enabled(s, step) && Exclusive(s) && Logged(s) && NoLostWakeup(s)
    ensures var n := Apply(s, step); Exclusive(n) && Logged(n) && NoLostWakeup(n)
  {
  }

  lemma FinishedStep(s: State, step: Step, g: nat)
    requires Enabled(s, step) && Safe(s) && g < Apply(s, step).generation
    ensures Logged(Apply(s, step)) && Finished(Apply(s, step), g)
  {
    ShapeStep(s, step);
    WaitingStep(s, step, g);
    assert g < s.generation ==> Finished(s, g);
  }

  lemma GatheringStep(s: State, step: Step)
    requires Enabled(s, step) && Safe(s)
    ensures Logged(Apply(s, step)) && Gathering(Apply(s, step))
  {
    ShapeStep(s, step);
    WaitingStep(s, step, s.generation);
    if Apply(s, step).generation > s.generation {
      NobodyWaits(Apply(s, step).threads, s.generation + 1);
    }
  }

  lemma SafeStep(s: State, step: Step)
    requires Enabled(s, step) && Safe(s)
    ensures Safe(Apply(s, step))
  {
    ShapeStep(s, step);
    GatheringStep(s, step);
    var n := Apply(s, step);
    hide Enabled, Apply, Gathering, Finished, Exclusive, NoLostWakeup;
    forall g | 0 <= g < n.generation ensures Finished(n, g) {
      FinishedStep(s, step, g);
    }
  }

  lemma {:induction false} RunKeepsSafe(s: State, steps: seq<Step>)
    requires IsRun(s, steps) && Safe(s)
    ensures Safe(After(s, steps))
    decreases |steps|
  {
    hide Safe, Enabled, Apply;
    if steps != [] {
      SafeStep(s, steps[0]);
      RunKeepsSafe(Apply(s, steps[0]), steps[1..]);
    }
  }

  // ---------- what it promises ----------

  lemma {:induction false} SameShape(s: State, steps: seq<Step>)
    requires IsRun(s, steps)
    ensures |After(s, steps).threads| == |s.threads| && After(s, steps).threshold == s.threshold
    decreases |steps|
  {
    if steps != [] {
      SameShape(Apply(s, steps[0]), steps[1..]);
    }
  }

  /** A barrier made for a count is safe after any run, and still one for that count and those threads. */
  lemma RunIsSafe(count: nat, threads: nat, steps: seq<Step>)
    requires count > 0 && IsRun(Init(count, threads).value, steps)
    ensures
      var s := After(Init(count, threads).value, steps);
      Safe(s) && s.threshold == count && |s.threads| == threads
  {
    hide IsRun, After, Finished;
    var s0 := Init(count, threads).value;
    NobodyWaits(s0.threads, 0);
    assert Safe(s0);
    RunKeepsSafe(s0, steps);
    SameShape(s0, steps);
  }

  /** In every state of every run of a barrier for `count` calls, and for every generation g: a call of g has
      returned only if exactly `count` calls of g have arrived; one of them then returned true, and the other
      count - 1 returned false or still will; and of the current generation count - m_count calls are waiting. */
  lemma BarrierHolds(count: nat, threads: nat, steps: seq<Step>, g: nat)
    requires count > 0 && IsRun(Init(count, threads).value, steps)
    ensures
      var s := After(Init(count, threads).value, steps);
      && |s.arrived| == |s.trues| == |s.falses| == s.generation + 1
      && count - s.count == Waiting(s.threads, s.generation)
      && (g <= s.generation && s.trues[g] + s.falses[g] > 0 ==> s.arrived[g] == count)
      && (g < s.generation ==> s.trues[g] == 1 && s.falses[g] + Waiting(s.threads, g) == count - 1)
      && (g == s.generation ==> s.arrived[g] < count && s.trues[g] == s.falses[g] == 0)
  {
    hide IsRun, After;
    RunIsSafe(count, threads, steps);
    var s := After(Init(count, threads).value, steps);
    assert g < s.generation ==> Finished(s, g);
  }

  /** Once its generation is over, a waiter needs nobody's help: it can take the mutex whenever it is free; and it is
      over as soon as `count` calls of it have arrived. */
  lemma WaitersGetOut(count: nat, threads: nat, steps: seq<Step>, t: nat)
    requires count > 0 && IsRun(Init(count, threads).value, steps) && t < threads
    ensures
      var s := After(Init(count, threads).value, steps);
      && |s.threads| == threads && |s.arrived| == s.generation + 1
      && var w := s.threads[t];
         Waits(w) ==>
           && w.gen <= s.generation && (s.arrived[w.gen] == count <==> w.gen < s.generation)
           && (w.gen < s.generation ==>
                 if s.mutex.Free? then Enabled(s, Lock(t))
                 else s.mutex.owner < threads
                      && (Enabled(s, ArriveStep(s.mutex.owner)) || Enabled(s, CheckStep(s.mutex.owner))))
  {
    hide IsRun, After;
    RunIsSafe(count, threads, steps);
    var s := After(Init(count, threads).value, steps);
    var w := s.threads[t];
    assert Waits(w) && w.gen < s.generation ==> Finished(s, w.gen);
  }

  /** Runs leave nothing out: any idle thread may call, any sleeper may wake up for no reason, and a thread that wants
      the mutex may get it when it is free. */
  lemma RunsLeaveNothingOut(s: State, t: nat)
    requires t < |s.threads|
    ensures s.threads[t].Idle? ==> Enabled(s, Call(t))
    ensures s.threads[t].Asleep? ==> Enabled(s, Spurious(t))
    ensures s.mutex.Free? && (s.threads[t].Enter? || s.threads[t].Awake?) ==> Enabled(s, Lock(t))
  {
  }

  // ---------- the barrier opens ----------

  ghost predicate Reachable(s0: State, s: State) {
    exists steps :: IsRun(s0, steps) && After(s0, steps) == s
  }

  lemma {:induction false} RunThen(s: State, steps: seq<Step>, step: Step)
    requires IsRun(s, steps) && Enabled(After(s, steps), step)
    ensures IsRun(s, steps + [step]) && After(s, steps + [step]) == Apply(After(s, steps), step)
    decreases |steps|
  {
    hide Enabled, Apply;
    if steps == [] {
      assert [] + [step] == [step] && [step][1..] == [];
    } else {
      assert (steps + [step])[0] == steps[0] && (steps + [step])[1..] == steps[1..] + [step];
      RunThen(Apply(s, steps[0]), steps[1..], step);
    }
  }

  lemma Reached(s0: State, s: State, step: Step) returns (t: State)
    requires Reachable(s0, s) && Enabled(s, step)
    ensures t == Apply(s, step) && Reachable(s0, t)
  {
    hide Enabled, Apply;
    var steps :| IsRun(s0, steps) && After(s0, steps) == s;
    RunThen(s0, steps, step);
    t := Apply(s, step);
  }

  /** The first k threads asleep in generation 0, and nobody else inside. */
  lemma {:induction false} Gathered(count: nat, threads: nat, k: nat) returns (s: State)
    requires k < count <= threads
    ensures Reachable(Init(count, threads).value, s) && s.threshold == count && |s.threads| == threads
    ensures s.generation == 0 && s.count == count - k && s.mutex.Free?
    ensures forall i :: 0 <= i < threads ==> s.threads[i] == if i < k then Asleep(0) else Idle
    decreases k
  {
    hide Reachable;
    var s0 := Init(count, threads).value;
    if k == 0 {
      s := s0;
      StartReachable(s0);
    } else {
      var t := k - 1;
      s := Gathered(count, threads, t);
      s := Reached(s0, s, Call(t));
      s := Reached(s0, s, Lock(t));
      s := Reached(s0, s, ArriveStep(t));
      s := Reached(s0, s, CheckStep(t));
    }
  }

  lemma StartReachable(s: State)
    ensures Reachable(s, s)
  {
    var none: seq<Step> := [];
    assert IsRun(s, none) && After(s, none) == s;
  }

  /** The sleepers from k on, awake, go home one after the other. */
  lemma {:induction false} GoneHome(s0: State, s: State, k: nat, n: nat) returns (t: State)
    requires Reachable(s0, s) && s.generation == 1 && s.mutex.Free? && k <= n <= |s.threads|
    requires forall i :: 0 <= i < |s.threads| ==> s.threads[i] == if k <= i < n then Awake(0) else Idle
    ensures Reachable(s0, t) && t.generation == 1 && |t.threads| == |s.threads|
    ensures forall i :: 0 <= i < |t.threads| ==> t.threads[i] == Idle
    decreases n - k
  {
    hide Reachable;
    t := s;
    if k < n {
      t := Reached(s0, t, Lock(k));
      t := Reached(s0, t, CheckStep(k));
      t := GoneHome(s0, t, k + 1, n);
    }
  }

  /** With enough threads there is a run in which `count` calls arrive, the barrier opens and all of them return: one
      true, the others false. */
  lemma BarrierOpens(count: nat, threads: nat) returns (s: State)
    requires 0 < count <= threads
    ensures Reachable(Init(count, threads).value, s) && s.generation == 1 && |s.arrived| == |s.trues| == |s.falses| == 2
    ensures forall i :: 0 <= i < |s.threads| ==> s.threads[i] == Idle
    ensures s.arrived[0] == count && s.trues[0] == 1 && s.falses[0] == count - 1
  {
    hide IsRun, After;
    var s0, t := Init(count, threads).value, count - 1;
    s := Gathered(count, threads, t);
    s := Reached(s0, s, Call(t));
    s := Reached(s0, s, Lock(t));
    s := Reached(s0, s, ArriveStep(t));
    s := GoneHome(s0, s, 0, t);
    var steps :| IsRun(s0, steps) && After(s0, steps) == s;
    BarrierHolds(count, threads, steps, 0);
    NobodyWaits(s.threads, 0);
  }

  // ---------- every released waiter returns ----------

  /** A step that a thread takes by itself: no new call and no spurious wake-up. */
  predicate Own(step: Step) { !step.Call? && !step.Spurious? }

  /** Calls that have still to arrive. */
  function Arriving(ts: seq<Waiter>): nat {
    if ts == [] then 0 else (if ts[0].Enter? || ts[0].Arrive? then 1 else 0) + Arriving(ts[1..])
  }

  function Rank(w: Waiter): nat {
    if w.Awake? then 2 else if w.Enter? || w.Check? then 1 else 0
  }

  function Ranks(ts: seq<Waiter>): (r: nat)
    ensures r <= 2 * |ts|
  {
    if ts == [] then 0 else Rank(ts[0]) + Ranks(ts[1..])
  }

  /** An upper bound on the steps the threads can take by themselves. */
  function Fuel(s: State): nat {
    Arriving(s.threads) * (2 * |s.threads| + 1) + Ranks(s.threads)
  }

  lemma {:induction false} RanksUpdate(ts: seq<Waiter>, i: nat, w: Waiter)
    requires i < |ts|
    ensures Ranks(ts[i := w]) + Rank(ts[i]) == Ranks(ts) + Rank(w)
    ensures Arriving(ts[i := w]) + (if ts[i].Enter? || ts[i].Arrive? then 1 else 0)
         == Arriving(ts) + if w.Enter? || w.Arrive? then 1 else 0
  {
    if i > 0 {
      RanksUpdate(ts[1..], i - 1, w);
      assert ts[i := w][1..] == ts[1..][i - 1 := w];
    } else {
      assert ts[i := w][1..] == ts[1..];
    }
  }

  lemma {:induction false} ArrivingWake(ts: seq<Waiter>)
    ensures Arriving(WakeAll(ts)) == Arriving(ts)
  {
    if ts != [] {
      ArrivingWake(ts[1..]);
      assert WakeAll(ts)[1..] == WakeAll(ts[1..]);
    }
  }

  lemma FuelDescends(s: State, step: Step)
    requires Enabled(s, step) && Own(step)
    ensures Fuel(Apply(s, step)) < Fuel(s)
  {
    var n := Apply(s, step);
    var opens := step.ArriveStep? && s.count == 1;
    var base := if opens then WakeAll(s.threads) else s.threads;
    ArrivingWake(s.threads);
    RanksUpdate(base, step.t, n.threads[step.t]);
    assert n.threads == base[step.t := n.threads[step.t]];
    if Arriving(n.threads) < Arriving(s.threads) {
      Fewer(Arriving(n.threads), Arriving(s.threads), 2 * |s.threads| + 1);
    }
  }

  lemma Fewer(a: nat, b: nat, k: nat)
    requires a < b
    ensures a * k + k <= b * k
  {
    assert (b - a - 1) * k >= 0;
  }

  lemma {:induction false} OwnRunsAreBounded(s: State, steps: seq<Step>)
    requires IsRun(s, steps) && forall i :: 0 <= i < |steps| ==> Own(steps[i])
    ensures |steps| + Fuel(After(s, steps)) <= Fuel(s)
    decreases |steps|
  {
    hide Enabled, Apply, Fuel;
    if steps != [] {
      FuelDescends(s, steps[0]);
      OwnRunsAreBounded(Apply(s, steps[0]), steps[1..]);
    }
  }

  ghost predicate CanMove(s: State) {
    exists step :: Enabled(s, step) && Own(step)
  }

  /** Left to themselves, from any state of any run and in any order, the threads stop within a bound; and when they
      have stopped, every call of a finished generation has returned, and so has every call that is not waiting. */
  lemma EveryReleasedCallReturns(count: nat, threads: nat, steps: seq<Step>, more: seq<Step>)
    requires count > 0 && IsRun(Init(count, threads).value, steps)
    requires
      var s := After(Init(count, threads).value, steps);
      IsRun(s, more) && forall i :: 0 <= i < |more| ==> Own(more[i])
    ensures
      var s := After(Init(count, threads).value, steps);
      var e := After(s, more);
      && |more| <= Fuel(s)
      && (!CanMove(e) ==>
            (forall i :: 0 <= i < |e.threads| ==> e.threads[i].Idle? || e.threads[i] == Asleep(e.generation))
            && forall g :: 0 <= g < e.generation ==> g < |e.falses| && e.falses[g] == count - 1)
  {
    var s0 := Init(count, threads).value;
    var s := After(s0, steps);
    RunIsSafe(count, threads, steps);
    RunKeepsSafe(s, more);
    SameShape(s, more);
    OwnRunsAreBounded(s, more);
    if !CanMove(After(s, more)) {
      StoppedMeansReturned(After(s, more));
    }
  }

  lemma StoppedMeansReturned(e: State)
    requires Safe(e) && !CanMove(e)
    ensures forall i :: 0 <= i < |e.threads| ==> e.threads[i].Idle? || e.threads[i] == Asleep(e.generation)
    ensures forall g :: 0 <= g < e.generation ==> g < |e.falses| && e.falses[g] == e.threshold - 1
  {
    hide Finished, Gathering, Apply;
    MutexIsFree(e);
    forall i | 0 <= i < |e.threads| ensures e.threads[i].Idle? || e.threads[i] == Asleep(e.generation) {
      assert !(Enabled(e, Lock(i)) && Own(Lock(i)));
    }
    forall g | 0 <= g < e.generation ensures e.falses[g] == e.threshold - 1 {
      NobodyWaits(e.threads, g);
      NobodyOwed(e, g);
    }
  }

  lemma MutexIsFree(e: State)
    requires Exclusive(e) && Logged(e) && !CanMove(e)
    ensures e.mutex.Free?
  {
    var t := if e.mutex.Held? then e.mutex.owner else 0;
    var step := if t < |e.threads| && e.threads[t].Arrive? then ArriveStep(t) else CheckStep(t);
    assert !(Enabled(e, step) && Own(step));
  }

  lemma NobodyOwed(e: State, g: nat)
    requires Logged(e) && g < e.generation && Finished(e, g) && Waiting(e.threads, g) == 0
    ensures e.falses[g] == e.threshold - 1
  {
  }
}
