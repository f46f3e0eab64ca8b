/** The bounded thread pool as a step system: one mutex, three condition variables, any number of workers
    and producers, and one destroyer. A step is what one thread does between two scheduling points. */
module ThreadPool {

  /** `thread_num`, the number of producer threads, and `queue_max_num`. */
  datatype Config = Config(workers: nat, producers: nat, max: nat)

  /** `threadpool_routine`. Enter waits for the mutex, first or after a wake-up; Test and Take hold it. */
  datatype Worker = WEnter | WTest | WAsleep | WTake | WRun(ticket: nat) | WExited

  /** `threadpool_add_job`. */
  datatype Producer<J> = PIdle | PEnter(job: J) | PTest(job: J) | PAsleep(job: J) | PInsert(job: J)

  /** `threadpool_destory`. */
  datatype Destroyer =
    | DIdle | DEnter | DBegin | DTest | DAsleep | DReenter | DClose
    | DCastNotEmpty | DCastNotFull | DJoin(next: nat) | DClean | DDone

  datatype Thread = W(i: nat) | P(i: nat) | D

  datatype Mutex = Free | Held(owner: Thread)

  /** The shared fields, the threads, and three logs: the accepted jobs in order, the tickets (positions in
      that order) handed to workers, and the tickets whose callback has returned. */
  datatype State<J> = State(
    mutex: Mutex,
    chain: seq<nat>,
    cur: int,
    queueClose: bool,
    poolClose: bool,
    workers: seq<Worker>,
    producers: seq<Producer<J>>,
    destroyer: Destroyer,
    accepted: seq<J>,
    taken: seq<nat>,
    completed: seq<nat>)

  function Init<J>(c: Config): State<J> {
    State(Free, [], 0, false, false, seq(c.workers, _ => WEnter), seq(c.producers, _ => PIdle), DIdle, [], [], [])
  }

  datatype Step<J> =
    | WorkerLock(w: nat) | WorkerTest(w: nat) | WorkerTake(w: nat) | WorkerDone(w: nat) | WorkerSpurious(w: nat)
    | Call(p: nat, job: J) | ProducerLock(p: nat) | ProducerTest(p: nat) | ProducerInsert(p: nat, hasMemory: bool)
    | ProducerSpurious(p: nat)
    | Destroy | DestroyerLock | DestroyerBegin | DestroyerTest | DestroyerClose | DestroyerCastNotEmpty
    | DestroyerCastNotFull | DestroyerJoin | DestroyerClean | DestroyerSpurious

  /** `pthread_cond_broadcast(queue_not_empty)` */
  function WakeWorkers(ws: seq<Worker>): (r: seq<Worker>)
    ensures |r| == |ws| && forall i :: 0 <= i < |ws| ==> r[i] == if ws[i].WAsleep? then WEnter else ws[i]
  {
    seq(|ws|, i requires 0 <= i < |ws| => if ws[i].WAsleep? then WEnter else ws[i])
  }

  /** `pthread_cond_broadcast(queue_not_full)` */
  function WakeProducers<J>(ps: seq<Producer<J>>): (r: seq<Producer<J>>)
    ensures |r| == |ps|
    ensures forall i :: 0 <= i < |ps| ==> r[i] == if ps[i].PAsleep? then PEnter(ps[i].job) else ps[i]
  {
    seq(|ps|, i requires 0 <= i < |ps| => if ps[i].PAsleep? then PEnter(ps[i].job) else ps[i])
  }

  /** `pthread_cond_signal(queue_empty)`: only the destroyer sleeps there. */
  function WakeDestroyer(d: Destroyer): Destroyer {
    if d.DAsleep? then DReenter else d
  }

  predicate Enabled<J>(c: Config, s: State<J>, step: Step<J>) {
    match step
    case WorkerLock(w) => w < |s.workers| && s.workers[w].WEnter? && s.mutex.Free?
    case WorkerTest(w) => w < |s.workers| && s.workers[w].WTest?
    case WorkerTake(w) => w < |s.workers| && s.workers[w].WTake? && (s.poolClose || s.chain != [])
    case WorkerDone(w) => w < |s.workers| && s.workers[w].WRun?
    case WorkerSpurious(w) => w < |s.workers| && s.workers[w].WAsleep?
    case Call(p, _) => p < |s.producers| && s.producers[p].PIdle?
    case ProducerLock(p) => p < |s.producers| && s.producers[p].PEnter? && s.mutex.Free?
    case ProducerTest(p) => p < |s.producers| && s.producers[p].PTest?
    case ProducerInsert(p, _) => p < |s.producers| && s.producers[p].PInsert?
    case ProducerSpurious(p) => p < |s.producers| && s.producers[p].PAsleep?
    case Destroy => s.destroyer.DIdle?
    case DestroyerLock => (s.destroyer.DEnter? || s.destroyer.DReenter?) && s.mutex.Free?
    case DestroyerBegin => s.destroyer.DBegin?
    case DestroyerTest => s.destroyer.DTest?
    case DestroyerClose => s.destroyer.DClose?
    case DestroyerCastNotEmpty => s.destroyer.DCastNotEmpty?
    case DestroyerCastNotFull => s.destroyer.DCastNotFull?
    case DestroyerJoin =>
      && s.destroyer.DJoin?
      && (s.destroyer.next < |s.workers| ==> s.workers[s.destroyer.next].WExited?)
    case DestroyerClean => s.destroyer.DClean?
    case DestroyerSpurious => s.destroyer.DAsleep?
  }

  /** The dequeue of `threadpool_routine`, with the wake-ups it sends. */
  function Take<J>(c: Config, s: State<J>, w: nat): State<J>
    requires w < |s.workers| && s.chain != []
  {
    var cur := s.cur - 1;
    s.(mutex := Free,
       cur := cur,
       chain := if cur == 0 then [] else s.chain[1..],
       destroyer := if cur == 0 then WakeDestroyer(s.destroyer) else s.destroyer,
       producers := if cur != 0 && cur <= c.max - 1 then WakeProducers(s.producers) else s.producers,
       workers := s.workers[w := WRun(s.chain[0])],
       taken := s.taken + [s.chain[0]])
  }

  /** The tail of `threadpool_add_job` behind its wait loop. */
  function Insert<J>(s: State<J>, p: nat, hasMemory: bool): State<J>
    requires p < |s.producers| && s.producers[p].PInsert?
  {
    var left := s.(mutex := Free, producers := s.producers[p := PIdle]);
    if s.queueClose || s.poolClose || !hasMemory then left
    else
      left.(chain := s.chain + [|s.accepted|],
            cur := s.cur + 1,
            workers := if s.chain == [] then WakeWorkers(s.workers) else s.workers,
            accepted := s.accepted + [s.producers[p].job])
  }

  function Apply<J>(c: Config, s: State<J>, step: Step<J>): State<J>
    requires Enabled(c, s, step)
  {
    match step
    case WorkerLock(w) => s.(mutex := Held(W(w)), workers := s.workers[w := WTest])
    case WorkerTest(w) =>
      if s.cur == 0 && !s.poolClose then s.(mutex := Free, workers := s.workers[w := WAsleep])
      else s.(workers := s.workers[w := WTake])
    case WorkerTake(w) =>
      if s.poolClose then s.(mutex := Free, workers := s.workers[w := WExited]) else Take(c, s, w)
    case WorkerDone(w) =>
      s.(workers := s.workers[w := WEnter], completed := s.completed + [s.workers[w].ticket])
    case WorkerSpurious(w) => s.(workers := s.workers[w := WEnter])
    case Call(p, job) => s.(producers := s.producers[p := PEnter(job)])
    case ProducerLock(p) => s.(mutex := Held(P(p)), producers := s.producers[p := PTest(s.producers[p].job)])
    case ProducerTest(p) =>
      if s.cur == c.max && !(s.poolClose || s.queueClose) then
        s.(mutex := Free, producers := s.producers[p := PAsleep(s.producers[p].job)])
      else s.(producers := s.producers[p := PInsert(s.producers[p].job)])
    case ProducerInsert(p, hasMemory) => Insert(s, p, hasMemory)
    case ProducerSpurious(p) => s.(producers := s.producers[p := PEnter(s.producers[p].job)])
    case Destroy => s.(destroyer := DEnter)
    case DestroyerLock => s.(mutex := Held(D), destroyer := if s.destroyer.DEnter? then DBegin else DTest)
    case DestroyerBegin =>
      if s.queueClose && s.poolClose then s.(mutex := Free, destroyer := DDone)
      else s.(queueClose := true, destroyer := DTest)
    case DestroyerTest =>
      if s.cur != 0 then s.(mutex := Free, destroyer := DAsleep) else s.(destroyer := DClose)
    case DestroyerClose => s.(poolClose := true, mutex := Free, destroyer := DCastNotEmpty)
    case DestroyerCastNotEmpty => s.(workers := WakeWorkers(s.workers), destroyer := DCastNotFull)
    case DestroyerCastNotFull => s.(producers := WakeProducers(s.producers), destroyer := DJoin(0))
    case DestroyerJoin =>
      if s.destroyer.next < |s.workers| then s.(destroyer := DJoin(s.destroyer.next + 1))
      else s.(destroyer := DClean)
    case DestroyerClean =>
      if s.chain == [] then s.(destroyer := DDone) else s.(chain := s.chain[1..])
    case DestroyerSpurious => s.(destroyer := DReenter)
  }

  predicate IsRun<J>(c: Config, s: State<J>, steps: seq<Step<J>>)
    decreases |steps|
  {
    steps == [] || (Enabled(c, s, steps[0]) && IsRun(c, Apply(c, s, steps[0]), steps[1..]))
  }

  function After<J>(c: Config, s: State<J>, steps: seq<Step<J>>): State<J>
    requires IsRun(c, s, steps)
    decreases |steps|
  {
    if steps == [] then s else After(c, Apply(c, s, steps[0]), steps[1..])
  }

  ghost predicate Reachable<J(!new)>(c: Config, s: State<J>) {
    exists steps :: IsRun(c, Init(c), steps) && After(c, Init(c), steps) == s
  }
}
