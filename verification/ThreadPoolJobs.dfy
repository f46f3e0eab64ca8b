/** The jobs of the thread pool: which ones are accepted, read off the calls alone, and that these are the ones run. */
module ThreadPoolJobs {
  import opened Collections
  import opened ThreadPool
  import opened ThreadPoolSafety

  // ---------- what the steps offer ----------

  /** What producer p passed in its latest call. */
  function LastCall<J>(steps: seq<Step<J>>, p: nat): Option<J> {
    if steps == [] then None
    else
      match steps[|steps| - 1]
      case Call(q, job) => if q == p then Some(job) else LastCall(steps[..|steps| - 1], p)
      case _ => LastCall(steps[..|steps| - 1], p)
  }

  /** The destroyer has begun to close the queue. */
  predicate Closing<J>(steps: seq<Step<J>>) {
    exists k :: 0 <= k < |steps| && steps[k].DestroyerBegin?
  }

  /** The jobs that the insertions of a run put into the queue: each what its producer passed, as long as the memory
      is there and nobody has begun to close. */
  function Offered<J>(steps: seq<Step<J>>): seq<J> {
    if steps == [] then []
    else
      var before, last := steps[..|steps| - 1], steps[|steps| - 1];
      if last.ProducerInsert? && last.hasMemory && !Closing(before) && LastCall(before, last.p).Some? then
        Offered(before) + [LastCall(before, last.p).value]
      else Offered(before)
  }

  /** Whatever has been offered stays, in its place. */
  lemma {:induction false} OfferedGrows<J>(steps: seq<Step<J>>, k: nat)
    requires k <= |steps|
    ensures Offered(steps[..k]) <= Offered(steps)
    decreases |steps|
  {
    if k == |steps| {
      assert steps[..k] == steps;
    } else {
      var before := steps[..|steps| - 1];
      assert before[..k] == steps[..k];
      OfferedGrows(before, k);
    }
  }

  // ---------- the log holds them ----------

  predicate InCall<J>(p: Producer<J>) { !p.PIdle? }

  /** The state after some steps agrees with what the steps say. */
  ghost predicate Recorded<J>(s: State<J>, steps: seq<Step<J>>) {
    && s.accepted == Offered(steps)
    && (s.queueClose <==> Closing(steps))
    && forall p :: 0 <= p < |s.producers| && InCall(s.producers[p]) ==> LastCall(steps, p) == Some(s.producers[p].job)
  }

  lemma RecordedStep<J>(c: Config, s: State<J>, steps: seq<Step<J>>, step: Step<J>)
    requires Safe(c, s) && Enabled(c, s, step) && Recorded(s, steps)
    ensures Recorded(Apply(c, s, step), steps + [step])
  {
    hide Exclusive, Queued, OnceEach, Enabled, Apply, Offered, Closing, Recorded, LastCall;
    OneStepMore(steps, step);
    if ByProducer(step) {
      RecordedProducer(c, s, steps, step);
    } else {
      RecordedOther(c, s, steps, step);
    }
  }

  lemma RecordedProducer<J>(c: Config, s: State<J>, steps: seq<Step<J>>, step: Step<J>)
    requires Staged(c, s) && Enabled(c, s, step) && ByProducer(step) && Recorded(s, steps)
    requires (steps + [step])[..|steps|] == steps && (steps + [step])[|steps|] == step
    requires Closing(steps + [step]) <==> Closing(steps)
    ensures Recorded(Apply(c, s, step), steps + [step])
  {
    hide Closing;
  }

  lemma RecordedOther<J>(c: Config, s: State<J>, steps: seq<Step<J>>, step: Step<J>)
    requires Staged(c, s) && Enabled(c, s, step) && !ByProducer(step) && Recorded(s, steps)
    requires (steps + [step])[..|steps|] == steps && (steps + [step])[|steps|] == step
    requires Closing(steps + [step]) <==> Closing(steps) || step.DestroyerBegin?
    ensures Recorded(Apply(c, s, step), steps + [step])
  {
    hide Closing;
  }

  lemma OneStepMore<J>(steps: seq<Step<J>>, step: Step<J>)
    ensures (steps + [step])[..|steps|] == steps && (steps + [step])[|steps|] == step
    ensures Closing(steps + [step]) <==> Closing(steps) || step.DestroyerBegin?
  {
    var more := steps + [step];
    assert forall k :: 0 <= k < |steps| ==> more[k] == steps[k];
  }

  /** A run up to its last step. */
  lemma {:induction false} RunUpTo<J>(c: Config, s: State<J>, steps: seq<Step<J>>)
    requires steps != [] && IsRun(c, s, steps)
    ensures
      var before, last := steps[..|steps| - 1], steps[|steps| - 1];
      IsRun(c, s, before) && Enabled(c, After(c, s, before), last)
      && After(c, s, steps) == Apply(c, After(c, s, before), last)
    decreases |steps|
  {
    hide Enabled, Apply;
    if |steps| == 1 {
      assert steps[..0] == [] && steps[1..] == [];
    } else {
      var rest := steps[1..];
      RunUpTo(c, Apply(c, s, steps[0]), rest);
      assert steps[..|steps| - 1][1..] == rest[..|rest| - 1];
    }
  }

  lemma {:induction false} RunIsRecorded<J>(c: Config, steps: seq<Step<J>>)
    requires IsRun(c, Init(c), steps)
    ensures Safe(c, After(c, Init(c), steps)) && Recorded(After(c, Init(c), steps), steps)
    decreases |steps|
  {
    hide Enabled, Apply, Safe, Recorded;
    InitSafe<J>(c);
    RunKeepsSafe(c, Init(c), steps);
    if steps == [] {
      NothingRecorded<J>(c);
    } else {
      var before, last := steps[..|steps| - 1], steps[|steps| - 1];
      RunUpTo(c, Init(c), steps);
      RunIsRecorded(c, before);
      RecordedStep(c, After(c, Init(c), before), before, last);
      assert before + [last] == steps;
    }
  }

  lemma NothingRecorded<J>(c: Config)
    ensures Recorded<J>(Init(c), [])
  {
  }

  // ---------- what a run does with them ----------

  /** The jobs with the given tickets. */
  function JobsOf<J>(log: seq<J>, tickets: seq<nat>): (r: seq<J>)
    requires forall k :: 0 <= k < |tickets| ==> tickets[k] < |log|
    ensures |r| == |tickets| && forall k :: 0 <= k < |tickets| ==> r[k] == log[tickets[k]]
  {
    seq(|tickets|, k requires 0 <= k < |tickets| => log[tickets[k]])
  }

  /** In every state of every run the accepted jobs are the ones that the calls offered, and the workers have been
      handed a beginning of them, in that order. */
  lemma JobsAreRunInOrder<J>(c: Config, steps: seq<Step<J>>)
    requires IsRun(c, Init(c), steps)
    ensures
      var s := After(c, Init(c), steps);
      && s.accepted == Offered(steps) && (s.queueClose <==> Closing(steps)) && |s.taken| <= |s.accepted|
      && (forall k :: 0 <= k < |s.taken| ==> s.taken[k] < |s.accepted|)
      && JobsOf(s.accepted, s.taken) == Offered(steps)[..|s.taken|]
  {
    hide Exclusive, Staged, OnceEach, Offered;
    RunIsRecorded(c, steps);
  }

  /** And when `threadpool_destory` has joined the workers, every job offered has been run, as often as it was
      offered, and nothing else has. */
  lemma EveryJobIsRun<J(!new)>(c: Config, steps: seq<Step<J>>)
    requires IsRun(c, Init(c), steps)
    ensures
      var s := After(c, Init(c), steps);
      s.destroyer.DClean? || s.destroyer.DDone? ==>
        && (forall k :: 0 <= k < |s.completed| ==> s.completed[k] < |s.accepted|)
        && multiset(JobsOf(s.accepted, s.completed)) == multiset(Offered(steps))
  {
    hide Exclusive, Staged, OnceEach, Queued, Offered, Enabled, Apply, JobsOf, Safe;
    var s := After(c, Init(c), steps);
    if s.destroyer.DClean? || s.destroyer.DDone? {
      RunIsRecorded(c, steps);
      assert Reachable(c, s);
      DrainedOnShutdown(c, s);
      AllTickets(s.accepted, s.completed);
    }
  }

  /** Each ticket once, in any order: each job once. */
  lemma {:induction false} AllTickets<J>(log: seq<J>, tickets: seq<nat>)
    requires Distinct(tickets) && forall t: nat :: t < |log| <==> t in tickets
    ensures forall k :: 0 <= k < |tickets| ==> tickets[k] < |log|
    ensures multiset(JobsOf(log, tickets)) == multiset(log)
    decreases |log|
  {
    forall k | 0 <= k < |tickets| ensures tickets[k] < |log| {
      assert tickets[k] in tickets;
    }
    if log == [] {
      CountDistinct(tickets, 0);
    } else {
      var n := |log| - 1;
      assert n in tickets;
      var k :| 0 <= k < |tickets| && tickets[k] == n;
      var rest := tickets[..k] + tickets[k + 1..];
      OneTicketLess(log, tickets, k);
      AllTickets(log[..n], rest);
      TakenOut(log, tickets, k);
    }
  }

  lemma OneTicketLess<J>(log: seq<J>, tickets: seq<nat>, k: nat)
    requires log != [] && Distinct(tickets) && forall t: nat :: t < |log| <==> t in tickets
    requires k < |tickets| && tickets[k] == |log| - 1
    ensures
      var rest := tickets[..k] + tickets[k + 1..];
      Distinct(rest) && forall t: nat :: t < |log| - 1 <==> t in rest
  {
    var rest := tickets[..k] + tickets[k + 1..];
    assert forall i :: 0 <= i < |rest| ==> rest[i] == if i < k then tickets[i] else tickets[i + 1];
    forall t: nat ensures t < |log| - 1 <==> t in rest {
      if t < |log| - 1 {
        assert t in tickets;
        var i :| 0 <= i < |tickets| && tickets[i] == t;
        assert rest[if i < k then i else i - 1] == t;
      }
      if t in rest {
        var i :| 0 <= i < |rest| && rest[i] == t;
        assert t in tickets;
        assert t != tickets[k];
      }
    }
  }

  lemma TakenOut<J>(log: seq<J>, tickets: seq<nat>, k: nat)
    requires log != [] && k < |tickets| && tickets[k] == |log| - 1
    requires forall i :: 0 <= i < |tickets| ==> tickets[i] < |log|
    requires
      var rest := tickets[..k] + tickets[k + 1..];
      && (forall i :: 0 <= i < |rest| ==> rest[i] < |log| - 1)
      && multiset(JobsOf(log[..|log| - 1], rest)) == multiset(log[..|log| - 1])
    ensures multiset(JobsOf(log, tickets)) == multiset(log)
  {
    var n := |log| - 1;
    var rest := tickets[..k] + tickets[k + 1..];
    var js := JobsOf(log, tickets);
    assert JobsOf(log[..n], rest) == js[..k] + js[k + 1..];
    assert js == js[..k] + [log[n]] + js[k + 1..];
    assert log == log[..n] + [log[n]];
  }

  // ---------- what runs may contain ----------

  /** Runs leave nothing out: an idle producer may call with any job, memory may be there or not, any sleeper may wake
      up for no reason, the pool may be destroyed at any time, and a thread that wants the mutex may get it when it is
      free. */
  lemma RunsLeaveNothingOut<J(!new)>(c: Config, s: State<J>, job: J, hasMemory: bool)
    ensures forall p: nat :: p < |s.producers| ==>
      && (s.producers[p].PIdle? ==> Enabled(c, s, Call(p, job)))
      && (s.producers[p].PInsert? ==> Enabled(c, s, ProducerInsert(p, hasMemory)))
      && (s.producers[p].PAsleep? ==> Enabled(c, s, ProducerSpurious(p)))
      && (s.producers[p].PEnter? && s.mutex.Free? ==> Enabled(c, s, ProducerLock(p)))
    ensures forall w: nat :: w < |s.workers| ==>
      && (s.workers[w].WAsleep? ==> Enabled(c, s, WorkerSpurious(w)))
      && (s.workers[w].WRun? ==> Enabled(c, s, WorkerDone(w)))
      && (s.workers[w].WEnter? && s.mutex.Free? ==> Enabled(c, s, WorkerLock(w)))
    ensures s.destroyer.DIdle? ==> Enabled(c, s, Destroy)
    ensures s.destroyer.DAsleep? ==> Enabled(c, s, DestroyerSpurious)
    ensures (s.destroyer.DEnter? || s.destroyer.DReenter?) && s.mutex.Free? ==> Enabled(c, s, DestroyerLock)
  {
  }

  // ---------- every list of jobs can be run to the end ----------

  /** Nothing waits and nobody is inside. */
  ghost predicate Resting<J(!new)>(c: Config, s: State<J>) {
    && Open(c, s) && s.chain == [] && s.cur == 0 && Entering(s.workers, 0)
    && forall i :: 0 <= i < |s.producers| ==> s.producers[i] == PIdle
  }

  /** One job, from the call to its end. */
  lemma OneJobRun<J(!new)>(c: Config, s: State<J>, job: J) returns (t: State<J>)
    requires Resting(c, s) && c.producers >= 1 && c.workers >= 1 && c.max >= 1
    ensures Resting(c, t) && t.accepted == s.accepted + [job] && t.completed == s.completed + [|s.accepted|]
  {
    t := FirstEnters(c, s, job);
    t := Reached(c, t, ProducerTest(0));
    t := Reached(c, t, ProducerInsert(0, true));
    t := Reached(c, t, WorkerLock(0));
    t := Reached(c, t, WorkerTest(0));
    t := Reached(c, t, WorkerTake(0));
    t := Reached(c, t, WorkerDone(0));
  }

  lemma {:induction false} JobsRun<J(!new)>(c: Config, jobs: seq<J>) returns (s: State<J>)
    requires jobs == [] || (c.producers >= 1 && c.workers >= 1 && c.max >= 1)
    ensures Resting(c, s) && s.accepted == jobs && |s.completed| == |jobs|
    decreases |jobs|
  {
    if jobs == [] {
      s := Init(c);
      InitReachable<J>(c);
    } else {
      var n := |jobs| - 1;
      s := JobsRun(c, jobs[..n]);
      s := OneJobRun(c, s, jobs[n]);
      assert jobs == jobs[..n] + [jobs[n]];
    }
  }

  /** The destroyer closes the empty queue and then the pool. */
  lemma Shut<J(!new)>(c: Config, s: State<J>) returns (t: State<J>)
    requires Resting(c, s)
    ensures Reachable(c, t) && t.producers == s.producers && t.workers == s.workers && t.mutex.Free? && t.chain == []
    ensures t.accepted == s.accepted && t.completed == s.completed
    ensures t.destroyer == DCastNotEmpty && t.poolClose
  {
    hide Entering, Reachable;
    t := Reached(c, s, Destroy);
    t := Reached(c, t, DestroyerLock);
    t := Reached(c, t, DestroyerBegin);
    t := Reached(c, t, DestroyerTest);
    t := Reached(c, t, DestroyerClose);
  }

  /** The destroyer up to its first join. */
  lemma Closed<J(!new)>(c: Config, s: State<J>) returns (t: State<J>)
    requires Resting(c, s)
    ensures Reachable(c, t) && t.accepted == s.accepted && t.completed == s.completed && t.chain == []
    ensures t.destroyer == DJoin(0) && t.poolClose && t.mutex.Free?
    ensures |t.workers| == c.workers && Entering(t.workers, 0)
  {
    hide Reachable;
    t := Shut(c, s);
    t := Reached(c, t, DestroyerCastNotEmpty);
    t := Reached(c, t, DestroyerCastNotFull);
  }

  /** The workers leave one by one, each joined. */
  lemma {:induction false} Joined<J(!new)>(c: Config, s: State<J>, k: nat) returns (t: State<J>)
    requires Reachable(c, s) && s.destroyer == DJoin(k) && s.poolClose && s.mutex.Free? && s.chain == []
    requires k <= |s.workers| == c.workers && Entering(s.workers, k)
    ensures Reachable(c, t) && t.accepted == s.accepted && t.completed == s.completed && t.chain == []
    ensures t.destroyer == DClean
    decreases c.workers - k
  {
    t := s;
    if k < c.workers {
      t := Reached(c, t, WorkerLock(k));
      t := Reached(c, t, WorkerTest(k));
      t := Reached(c, t, WorkerTake(k));
      t := Reached(c, t, DestroyerJoin);
      t := Joined(c, t, k + 1);
    } else {
      t := Reached(c, t, DestroyerJoin);
    }
  }

  /** Any list of jobs can be accepted, run and shut down after: by any pool if there are none, else by any with a
      producer, a worker and a slot. */
  lemma ShutdownIsReached<J(!new)>(c: Config, jobs: seq<J>) returns (s: State<J>)
    requires jobs == [] || (c.producers >= 1 && c.workers >= 1 && c.max >= 1)
    ensures Reachable(c, s) && s.destroyer.DDone? && s.accepted == jobs && |s.completed| == |jobs|
  {
    s := JobsRun(c, jobs);
    s := Closed(c, s);
    s := Joined(c, s, 0);
    s := Reached(c, s, DestroyerClean);
  }
}
