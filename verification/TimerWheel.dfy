/** Countdowns: what a timing wheel is for. Every tick fires the timers at zero and lowers the others. */
module Countdown {

  type Counts<!T> = map<T, nat>

  function Due<T>(s: Counts<T>): set<T> {
    set t | t in s && s[t] == 0
  }

  function AfterTick<T>(s: Counts<T>): (r: Counts<T>)
    ensures r.Keys <= s.Keys
  {
    map t | t in s && s[t] > 0 :: s[t] - 1
  }

  datatype Event<T> = Add(timer: T, ticks: nat) | Delete(timer: T) | Tick

  function Next<T>(s: Counts<T>, e: Event<T>): Counts<T> {
    match e
    case Add(t, ticks) => s[t := ticks]
    case Delete(t) => s - {t}
    case Tick => AfterTick(s)
  }

  function After<T>(s: Counts<T>, es: seq<Event<T>>): Counts<T>
    decreases |es|
  {
    if es == [] then s else Next(After(s, es[..|es| - 1]), es[|es| - 1])
  }

  /** What fires in each tick of a run. */
  function Log<T>(s: Counts<T>, es: seq<Event<T>>): (r: seq<set<T>>)
    ensures |r| == Ticks(es)
    decreases |es|
  {
    if es == [] then []
    else
      var n := |es| - 1;
      Log(s, es[..n]) + if es[n].Tick? then [Due(After(s, es[..n]))] else []
  }

  function Ticks<T>(es: seq<Event<T>>): nat {
    if es == [] then 0 else Ticks(es[..|es| - 1]) + if es[|es| - 1].Tick? then 1 else 0
  }

  ghost predicate NeverAdds<T>(es: seq<Event<T>>, t: T) {
    forall i :: 0 <= i < |es| && es[i].Add? ==> es[i].timer != t
  }

  ghost predicate LeavesAlone<T>(es: seq<Event<T>>, t: T) {
    forall i :: 0 <= i < |es| && !es[i].Tick? ==> es[i].timer != t
  }

  /** What is not there and is not added does not fire. */
  lemma {:induction false} NeverFiresWhenAbsent<T>(s: Counts<T>, es: seq<Event<T>>, t: T)
    requires t !in s && NeverAdds(es, t)
    ensures t !in After(s, es) && forall j :: 0 <= j < |Log(s, es)| ==> t !in Log(s, es)[j]
    decreases |es|
  {
    if es != [] {
      NeverFiresWhenAbsent(s, es[..|es| - 1], t);
    }
  }

  /** Over any run that neither deletes nor re-adds it, a timer at k fires in the (k+1)-th tick from now
      if the run gets that far, and in no other. */
  lemma {:induction false} FiresOnceOnTime<T>(s: Counts<T>, es: seq<Event<T>>, t: T)
    requires t in s && LeavesAlone(es, t)
    ensures forall j :: 0 <= j < Ticks(es) ==> (t in Log(s, es)[j] <==> j == s[t])
    ensures t in After(s, es) <==> Ticks(es) <= s[t]
    ensures t in After(s, es) ==> After(s, es)[t] == s[t] - Ticks(es)
    decreases |es|
  {
    if es != [] {
      var n := |es| - 1;
      FiresOnceOnTime(s, es[..n], t);
      assert !es[n].Tick? ==> es[n].timer != t;
    }
  }

  lemma {:induction false} RunsCompose<T>(s: Counts<T>, a: seq<Event<T>>, b: seq<Event<T>>)
    ensures Ticks(a + b) == Ticks(a) + Ticks(b)
    ensures After(s, a + b) == After(After(s, a), b)
    ensures Log(s, a + b) == Log(s, a) + Log(After(s, a), b)
    decreases |b|
  {
    if b == [] {
      assert a + b == a;
    } else {
      var n := |b| - 1;
      assert (a + b)[..|a + b| - 1] == a + b[..n];
      RunsCompose(s, a, b[..n]);
    }
  }

  /** A timer added once, for k ticks, and then left alone fires once: in the (k+1)-th tick after that. */
  lemma AddedFiresOnTime<T>(es: seq<Event<T>>, n: nat, j: nat)
    requires n < |es| && es[n].Add? && j < Ticks(es)
    requires NeverAdds(es[..n], es[n].timer) && LeavesAlone(es[n + 1..], es[n].timer)
    ensures es[n].timer in Log(map[], es)[j] <==> j == Ticks(es[..n]) + es[n].ticks
  {
    hide Log, After, Ticks;
    var t, before, rest := es[n].timer, es[..n], es[n + 1..];
    var s := After<T>(map[], before);
    NeverFiresWhenAbsent(map[], before, t);
    FiresOnceOnTime(s[t := es[n].ticks], rest, t);
    AddStep(es, n);
    RunsCompose(map[], es[..n + 1], rest);
  }

  lemma AddStep<T>(es: seq<Event<T>>, n: nat)
    requires n < |es| && es[n].Add?
    ensures es == es[..n + 1] + es[n + 1..] && Ticks(es[..n + 1]) == Ticks(es[..n])
    ensures After(map[], es[..n + 1]) == After<T>(map[], es[..n])[es[n].timer := es[n].ticks]
    ensures Log(map[], es[..n + 1]) == Log<T>(map[], es[..n])
  {
    assert es[..n + 1][..n] == es[..n];
  }
}

/** The timing wheel: sixty slots, each a doubly linked list, turned by one per tick. */
module TimerWheel {
  import opened Collections
  import opened Countdown

  const N: nat := 60
  const TI: nat := 1

  class TwTimer {
    var rotation: nat
    const timeSlot: nat
    var next: TwTimer?
    var prev: TwTimer?

    constructor (rotation: nat, timeSlot: nat)
      ensures this.rotation == rotation && this.timeSlot == timeSlot && next == null && prev == null
    {
      this.rotation, this.timeSlot, next, prev := rotation, timeSlot, null, null;
    }
  }

  // ---------- slots and rotations ----------

  /** How many ticks a timeout is worth: at least one. */
  function TicksOf(timeout: nat): nat {
    if timeout < TI then 1 else timeout / TI
  }

  /** k ticks are what a timeout is worth: as many whole intervals as it has, but at least one. */
  predicate Worth(timeout: nat, k: nat) {
    if timeout < TI then k == 1 else k * TI <= timeout < (k + 1) * TI
  }

  lemma TicksOfIsWorth(timeout: nat, k: nat)
    ensures Worth(timeout, k) <==> k == TicksOf(timeout)
  {
  }

  /** With an interval of one, that is the timeout itself, or one. */
  lemma WorthIsTimeout(timeout: nat, k: nat)
    ensures Worth(timeout, k) <==> k == if timeout == 0 then 1 else timeout
  {
  }

  /** Ticks to go before a timer is due, from its slot and its rotations. */
  function Remaining(rotation: nat, timeSlot: nat, curSlot: nat): nat
    requires timeSlot < N && curSlot < N
  {
    (if timeSlot >= curSlot then timeSlot - curSlot else timeSlot + N - curSlot) + N * rotation
  }

  /** That distance is (time_slot - cur_slot) mod N. */
  lemma RemainingIsModular(rotation: nat, timeSlot: nat, curSlot: nat)
    requires timeSlot < N && curSlot < N
    ensures Remaining(rotation, timeSlot, curSlot) == (timeSlot - curSlot) % N + N * rotation
  {
    if timeSlot < curSlot {
      assert (timeSlot - curSlot) % N == timeSlot + N - curSlot;
    }
  }

  lemma PlacedAt(ticks: nat, curSlot: nat)
    requires curSlot < N
    ensures Remaining(ticks / N, (curSlot + ticks % N) % N, curSlot) == ticks
  {
    var d := curSlot + ticks % N;
    assert d % N == if d < N then d else d - N;
    assert ticks == N * (ticks / N) + ticks % N;
  }

  lemma TurnOnce(rotation: nat, timeSlot: nat, curSlot: nat)
    requires timeSlot < N && curSlot < N
    ensures Remaining(rotation, timeSlot, curSlot) == 0 <==> rotation == 0 && timeSlot == curSlot
    ensures timeSlot != curSlot ==>
      Remaining(rotation, timeSlot, (curSlot + 1) % N) == Remaining(rotation, timeSlot, curSlot) - 1
    ensures timeSlot == curSlot && rotation > 0 ==>
      Remaining(rotation - 1, timeSlot, (curSlot + 1) % N) == Remaining(rotation, timeSlot, curSlot) - 1
  {
  }

  // ---------- the list of one slot ----------

  function Successor(ts: seq<TwTimer>, i: nat): TwTimer? {
    if i + 1 < |ts| then ts[i + 1] else null
  }

  function Predecessor(ts: seq<TwTimer>, i: nat): TwTimer? {
    if 0 < i <= |ts| then ts[i - 1] else null
  }

  function First(ts: seq<TwTimer>): TwTimer? {
    if ts == [] then null else ts[0]
  }

  ghost predicate NextLinked(ts: seq<TwTimer>)
    reads ts`next
  {
    forall i :: 0 <= i < |ts| ==> ts[i].next == Successor(ts, i)
  }

  ghost predicate PrevLinked(ts: seq<TwTimer>)
    reads ts`prev
  {
    forall i :: 0 <= i < |ts| ==> ts[i].prev == Predecessor(ts, i)
  }

  /** The nodes ts, linked both ways. */
  ghost predicate Chain(ts: seq<TwTimer>)
    reads ts`next, ts`prev
  {
    Distinct(ts) && NextLinked(ts) && PrevLinked(ts)
  }

  function Without(ts: seq<TwTimer>, k: nat): seq<TwTimer>
    requires k < |ts|
  {
    ts[..k] + ts[k + 1..]
  }

  lemma WithoutOne(ts: seq<TwTimer>, k: nat)
    requires k < |ts| && Distinct(ts)
    ensures var r := Without(ts, k);
      && Distinct(r) && ts[k] !in r && (forall t :: t in r <==> t in ts && t != ts[k])
      && (forall i :: 0 <= i < |r| ==> r[i] == if i < k then ts[i] else ts[i + 1])
  {
    var r := Without(ts, k);
    forall t | t in ts && t != ts[k] ensures t in r {
      var i :| 0 <= i < |ts| && ts[i] == t;
      assert r[if i < k then i else i - 1] == t;
    }
  }

  /** Makes the predecessor of a node point past it; the caller moves the head if there is none. */
  method SkipForward(timer: TwTimer, ghost ts: seq<TwTimer>, ghost k: nat)
    requires Distinct(ts) && k < |ts| && ts[k] == timer && NextLinked(ts) && timer.prev == Predecessor(ts, k)
    modifies ts`next
    ensures NextLinked(Without(ts, k)) && timer.next == old(timer.next)
  {
    WithoutOne(ts, k);
    if timer.prev != null {
      timer.prev.next := timer.next;
    }
  }

  /** Makes the successor of a node point back past it. */
  method SkipBack(timer: TwTimer, ghost ts: seq<TwTimer>, ghost k: nat)
    requires Distinct(ts) && k < |ts| && ts[k] == timer && PrevLinked(ts) && timer.next == Successor(ts, k)
    modifies ts`prev
    ensures PrevLinked(Without(ts, k)) && timer.prev == old(timer.prev)
  {
    WithoutOne(ts, k);
    if timer.next != null {
      timer.next.prev := timer.prev;
    }
  }

  /** Unlinks a node from its neighbours. */
  method Bypass(timer: TwTimer, ghost ts: seq<TwTimer>, ghost k: nat)
    requires Chain(ts) && k < |ts| && ts[k] == timer
    modifies ts`next, ts`prev
    ensures Chain(Without(ts, k)) && timer.next == old(timer.next)
  {
    WithoutOne(ts, k);
    SkipForward(timer, ts, k);
    hide NextLinked, Without;
    SkipBack(timer, ts, k);
  }

  lemma FirstWithout(ts: seq<TwTimer>, k: nat)
    requires k < |ts| && Distinct(ts)
    ensures First(Without(ts, k)) == if ts[k] == First(ts) then Successor(ts, k) else First(ts)
  {
  }

  /** Where the neighbours are once t stands in front. */
  lemma InFront(t: TwTimer, ts: seq<TwTimer>, i: nat)
    requires i <= |ts|
    ensures ([t] + ts)[i] == if i == 0 then t else ts[i - 1]
    ensures Successor([t] + ts, i) == if i == 0 then First(ts) else Successor(ts, i - 1)
    ensures Predecessor([t] + ts, i) == if i == 0 then null else if i == 1 then t else Predecessor(ts, i - 1)
  {
  }

  /** Links a node of its own in front of a chain. */
  method LinkInFront(timer: TwTimer, head: TwTimer?, ghost ts: seq<TwTimer>)
    requires Chain(ts) && head == First(ts) && timer !in ts && timer.next == null && timer.prev == null
    modifies timer`next, ts`prev
    ensures Chain([timer] + ts)
  {
    if head != null {
      timer.next := head;
      head.prev := timer;
    }
    ghost var longer := [timer] + ts;
    forall i | 0 <= i < |longer|
      ensures longer[i].next == Successor(longer, i) && longer[i].prev == Predecessor(longer, i)
    {
      InFront(timer, ts, i);
    }
    assert NextLinked(longer) && PrevLinked(longer);
  }

  // ---------- all slots ----------

  type Lists = ls: seq<seq<TwTimer>> | |ls| == N witness seq(N, _ => [])

  /** The live timers are exactly the nodes of the lists, each in that of its own slot. */
  ghost predicate Homed(lists: Lists, live: set<TwTimer>) {
    && (forall t :: t in live ==> t.timeSlot < N && t in lists[t.timeSlot])
    && (forall i, k :: 0 <= i < N && 0 <= k < |lists[i]| ==> lists[i][k] in live && lists[i][k].timeSlot == i)
  }

  /** A timer is in the list of its own slot only. */
  lemma HomedApart(lists: Lists, live: set<TwTimer>, i: nat, j: nat)
    requires Homed(lists, live) && i < N && j < N && i != j
    ensures forall k :: 0 <= k < |lists[i]| ==> lists[i][k] in live && lists[i][k] !in lists[j]
  {
  }

  lemma HomedWith(lists: Lists, live: set<TwTimer>, t: TwTimer)
    requires Homed(lists, live) && t.timeSlot < N
    ensures Homed(Pushed(lists, t), live + {t})
  {
  }

  lemma HomedWithout(lists: Lists, live: set<TwTimer>, i: nat, k: nat)
    requires Homed(lists, live) && i < N && k < |lists[i]| && Distinct(lists[i])
    ensures Homed(Removed(lists, i, k), live - {lists[i][k]})
  {
    WithoutOne(lists[i], k);
    var ls, gone := Removed(lists, i, k), lists[i][k];
    hide Without, Collections.Distinct;
    forall j, m | 0 <= j < N && 0 <= m < |ls[j]| ensures ls[j][m] in live - {gone} && ls[j][m].timeSlot == j {
      assert ls[j][m] in lists[j];
    }
  }

  ghost predicate Chained(lists: Lists, live: set<TwTimer>)
    requires Homed(lists, live)
    reads live`next, live`prev
  {
    forall i :: 0 <= i < N ==> Chain(lists[i])
  }

  ghost predicate SameBut(lists: Lists, lists': Lists, c: nat) {
    forall i :: 0 <= i < N && i != c ==> lists'[i] == lists[i]
  }

  ghost predicate Headed(heads: seq<TwTimer?>, lists: Lists) {
    |heads| == N && forall i :: 0 <= i < N ==> heads[i] == First(lists[i])
  }

  function Pushed(lists: Lists, t: TwTimer): Lists
    requires t.timeSlot < N
  {
    lists[t.timeSlot := [t] + lists[t.timeSlot]]
  }

  function Removed(lists: Lists, i: nat, k: nat): Lists
    requires i < N && k < |lists[i]|
  {
    lists[i := Without(lists[i], k)]
  }

  /** Links a new timer in front of the list of its slot. */
  method Attach(t: TwTimer, head: TwTimer?, ghost lists: Lists, ghost live: set<TwTimer>)
    requires Homed(lists, live) && Chained(lists, live) && t !in live && t.timeSlot < N
    requires head == First(lists[t.timeSlot]) && t.next == null && t.prev == null
    modifies live`prev, t`next
    ensures Homed(Pushed(lists, t), live + {t}) && Chained(Pushed(lists, t), live + {t})
  {
    var i := t.timeSlot;
    HomedWith(lists, live, t);
    assert t !in lists[i] && forall k :: 0 <= k < |lists[i]| ==> lists[i][k] in live;
    hide Chain, Homed;
    LinkInFront(t, head, lists[i]);
    forall j | 0 <= j < N ensures Chain(Pushed(lists, t)[j]) {
      if j != i {
        HomedApart(lists, live, j, i);
      }
    }
  }

  /** Unlinks a timer from the list of its slot. */
  method Detach(timer: TwTimer, ghost lists: Lists, ghost live: set<TwTimer>, ghost i: nat, ghost k: nat)
    requires Homed(lists, live) && Chained(lists, live) && i < N && k < |lists[i]| && lists[i][k] == timer
    modifies lists[i]`next, lists[i]`prev
    ensures Homed(Removed(lists, i, k), live - {timer}) && Chained(Removed(lists, i, k), live - {timer})
    ensures timer.next == old(timer.next)
  {
    HomedWithout(lists, live, i, k);
    hide Chain, Without, Homed;
    Bypass(timer, lists[i], k);
    forall j | 0 <= j < N ensures Chain(Removed(lists, i, k)[j]) {
      if j != i {
        HomedApart(lists, live, j, i);
      }
    }
  }

  lemma HeadedPushed(heads: seq<TwTimer?>, lists: Lists, t: TwTimer)
    requires Headed(heads, lists) && t.timeSlot < N
    ensures heads[t.timeSlot] == First(lists[t.timeSlot]) && Headed(heads[t.timeSlot := t], Pushed(lists, t))
  {
  }

  lemma HeadedRemoved(heads: seq<TwTimer?>, lists: Lists, i: nat, k: nat)
    requires Headed(heads, lists) && i < N && k < |lists[i]| && Distinct(lists[i])
    ensures Headed(if lists[i][k] == heads[i] then heads[i := Successor(lists[i], k)] else heads, Removed(lists, i, k))
  {
    FirstWithout(lists[i], k);
    hide Without;
  }

  // ---------- one slot swept ----------

  ghost predicate Known(ts: seq<TwTimer>, rotations: map<TwTimer, nat>) {
    forall i :: 0 <= i < |ts| ==> ts[i] in rotations
  }

  /** The timers of a list that are due, or those that are not, in list order. */
  ghost function Picked(ts: seq<TwTimer>, rotations: map<TwTimer, nat>, due: bool): (r: seq<TwTimer>)
    requires Known(ts, rotations)
    ensures forall t :: t in r ==> t in ts && (rotations[t] == 0) == due
    ensures forall t :: t in ts && (rotations[t] == 0) == due ==> t in r
    ensures Distinct(ts) ==> Distinct(r)
  {
    if ts == [] then []
    else
      var n := |ts| - 1;
      var front, last := Picked(ts[..n], rotations, due), ts[n];
      assert ts == ts[..n] + [last];
      if (rotations[last] == 0) == due then front + [last] else front
  }

  ghost function Rotations(ts: seq<TwTimer>): (r: map<TwTimer, nat>)
    ensures Known(ts, r)
    reads ts`rotation
  {
    map t | t in ts :: t.rotation
  }

  /** Behind the walk rotations are lowered, in front of it they are as they were. */
  ghost predicate Lowered(ts: seq<TwTimer>, m: nat, rotations: map<TwTimer, nat>)
    requires Known(ts, rotations)
    reads ts`rotation
  {
    forall k :: 0 <= k < |ts| ==>
      ts[k].rotation == if k < m && rotations[ts[k]] > 0 then rotations[ts[k]] - 1 else rotations[ts[k]]
  }

  method LowerOne(t: TwTimer, ghost ts: seq<TwTimer>, ghost m: nat, ghost rotations: map<TwTimer, nat>)
    requires Known(ts, rotations) && Lowered(ts, m, rotations)
    requires m < |ts| && ts[m] == t && Distinct(ts) && t.rotation > 0
    modifies t`rotation
    ensures Lowered(ts, m + 1, rotations)
  {
    t.rotation := t.rotation - 1;
  }

  lemma LoweredStart(ts: seq<TwTimer>)
    ensures Lowered(ts, 0, Rotations(ts)) && Listed<TwTimer>([]) == {}
  {
  }

  lemma LoweredAt(ts: seq<TwTimer>, m: nat, rotations: map<TwTimer, nat>)
    requires Known(ts, rotations) && Lowered(ts, m, rotations) && m < |ts|
    ensures ts[m].rotation == rotations[ts[m]]
    ensures rotations[ts[m]] == 0 ==> Lowered(ts, m + 1, rotations)
  {
  }

  /** What the walk has done after m nodes: the list is what it kept and what is still ahead. */
  ghost predicate Swept(ts: seq<TwTimer>, m: nat, rotations: map<TwTimer, nat>, list: seq<TwTimer>, fired: seq<TwTimer>)
    requires Known(ts, rotations)
  {
    && m <= |ts| && fired == Picked(ts[..m], rotations, true)
    && list == Picked(ts[..m], rotations, false) + ts[m..]
  }

  /** Where the walk stands, and what a step of it amounts to. */
  lemma SweptStep(ts: seq<TwTimer>, m: nat, rotations: map<TwTimer, nat>, list: seq<TwTimer>, fired: seq<TwTimer>)
    requires Known(ts, rotations) && Swept(ts, m, rotations, list, fired) && m < |ts|
    ensures |list| >= |ts| - m && list[|list| - (|ts| - m)] == ts[m]
    ensures forall i :: 0 <= i < |list| ==> list[i] in ts
    ensures rotations[ts[m]] > 0 ==> Swept(ts, m + 1, rotations, list, fired)
    ensures rotations[ts[m]] == 0 ==>
      Swept(ts, m + 1, rotations, Without(list, |list| - (|ts| - m)), fired + [ts[m]])
    ensures Successor(list, |list| - (|ts| - m)) == Successor(ts, m)
  {
    hide Picked, Known;
    PickedMore(ts, m, rotations);
    var kept := Picked(ts[..m], rotations, false);
    Middle(kept, ts, m);
    forall i | 0 <= i < |list| ensures list[i] in ts {
      assert i < |kept| ==> list[i] in ts[..m];
    }
  }

  lemma PickedMore(ts: seq<TwTimer>, m: nat, rotations: map<TwTimer, nat>)
    requires Known(ts, rotations) && m < |ts|
    ensures Known(ts[..m], rotations) && Known(ts[..m + 1], rotations) && ts[m] in rotations
    ensures forall due ::
      (var more := if (rotations[ts[m]] == 0) == due then [ts[m]] else [];
       Picked(ts[..m + 1], rotations, due) == Picked(ts[..m], rotations, due) + more)
  {
    assert ts[..m + 1][..m] == ts[..m];
  }

  lemma Middle(kept: seq<TwTimer>, ts: seq<TwTimer>, m: nat)
    requires m < |ts|
    ensures var list := kept + ts[m..];
      && list == kept + [ts[m]] + ts[m + 1..] && Without(list, |kept|) == kept + ts[m + 1..]
      && Successor(list, |kept|) == Successor(ts, m)
  {
    assert ts[m..] == [ts[m]] + ts[m + 1..];
  }

  lemma SweptStart(ts: seq<TwTimer>, rotations: map<TwTimer, nat>)
    requires Known(ts, rotations)
    ensures Swept(ts, 0, rotations, ts, [])
  {
    assert ts[..0] == [] && ts[0..] == ts;
  }

  lemma SweptEnd(ts: seq<TwTimer>, rotations: map<TwTimer, nat>, list: seq<TwTimer>, fired: seq<TwTimer>)
    requires Known(ts, rotations) && Swept(ts, |ts|, rotations, list, fired)
    ensures fired == Picked(ts, rotations, true) && list == Picked(ts, rotations, false)
  {
    assert ts[..|ts|] == ts && ts[|ts|..] == [];
  }

  // ---------- the wheel ----------

  class TimeWheel {
    var slots: array<TwTimer?>
    var curSlot: nat
    ghost var lists: Lists
    ghost var live: set<TwTimer>

    ghost predicate Valid()
      reads this, slots, live`next, live`prev
    {
      curSlot < N == slots.Length && Homed(lists, live) && Chained(lists, live) && Headed(slots[..], lists)
    }

    ghost function Counts(): (r: Counts<TwTimer>)
      requires Valid()
      reads this, slots, live
      ensures r.Keys == live
    {
      map t | t in live :: Remaining(t.rotation, t.timeSlot, curSlot)
    }

    constructor ()
      ensures Valid() && Counts() == map[] && fresh(slots)
    {
      slots := new TwTimer?[N](_ => null);
      curSlot, lists, live := 0, seq(N, _ => []), {};
    }

    /** Puts a new timer at the head of its slot. */
    method AddTimer(timeout: int) returns (timer: TwTimer?)
      requires Valid()
      modifies this`live, this`lists, slots, live`prev
      ensures Valid() && slots == old(slots)
      ensures timer == null <==> timeout < 0
      ensures timer == null ==> Counts() == old(Counts())
      ensures timer != null ==>
        fresh(timer) && timer in Counts() && Counts() == old(Counts())[timer := Counts()[timer]]
      ensures timer != null && timeout < TI ==> Counts()[timer] == 1
      ensures timer != null && timeout >= TI ==> Counts()[timer] * TI <= timeout < (Counts()[timer] + 1) * TI
    {
      hide Remaining, Homed, Chained, Headed;
      if timeout < 0 {
        return null;
      }
      var ticks := if timeout < TI then 1 else timeout / TI;
      PlacedAt(ticks, curSlot);
      var t := new TwTimer(ticks / N, (curSlot + ticks % N) % N);
      Insert(t);
      timer := t;
    }

    method Insert(t: TwTimer)
      requires Valid() && t !in live && t.timeSlot < N && t.next == null && t.prev == null
      modifies this`live, this`lists, slots, live`prev, t`next
      ensures Valid() && Counts() == old(Counts())[t := Remaining(t.rotation, t.timeSlot, curSlot)]
    {
      hide Remaining, Chained, Headed, Homed, Pushed, First;
      HeadedPushed(slots[..], lists, t);
      Attach(t, slots[t.timeSlot], lists, live);
      slots[t.timeSlot] := t;
      lists, live := Pushed(lists, t), live + {t};
    }

    /** Takes a live timer out of its slot, without a search: its links say where it is. */
    method DelTimer(timer: TwTimer?)
      requires Valid() && (timer != null ==> timer in live)
      modifies this`live, this`lists, slots, live`next, live`prev
      ensures Valid() && slots == old(slots)
      ensures Counts() == if timer == null then old(Counts()) else old(Counts()) - {timer}
    {
      hide Remaining, Chained, Headed, Homed, Removed;
      if timer != null {
        ghost var k := Place(lists, live, timer);
        Unlink(timer, k);
      }
    }

    /** The pointer surgery of a removal. A head has no predecessor, so its slot moves on instead. */
    method Unlink(timer: TwTimer, ghost k: nat)
      requires Valid() && timer.timeSlot < N
      requires k < |lists[timer.timeSlot]| && lists[timer.timeSlot][k] == timer
      modifies this`live, this`lists, slots, lists[timer.timeSlot]`next, lists[timer.timeSlot]`prev
      ensures Valid() && live == old(live) - {timer} && lists == Removed(old(lists), timer.timeSlot, k)
      ensures timer.next == old(timer.next) && slots == old(slots)
    {
      hide Chained, Chain, Headed, Homed, Removed, Successor;
      var i := timer.timeSlot;
      ChainAt(lists, live, i, k);
      HeadedRemoved(slots[..], lists, i, k);
      if timer == slots[i] {
        slots[i] := timer.next;
      }
      Detach(timer, lists, live, i, k);
      lists, live := Removed(lists, i, k), live - {timer};
    }

    /** One turn: in the current slot a timer either loses a rotation or fires. */
    method Tick() returns (fired: seq<TwTimer>)
      requires Valid()
      modifies this`live, this`lists, this`curSlot, slots, live
      ensures Valid() && slots == old(slots)
      ensures Distinct(fired) && (forall t :: t in fired <==> t in Due(old(Counts())))
      ensures Counts() == AfterTick(old(Counts()))
    {
      hide Chained, Headed, Homed, Remaining, Picked, Lowered, Countdown.AfterTick, Countdown.Due;
      ghost var ts, rotations := lists[curSlot], Rotations(lists[curSlot]);
      ChainDistinct(lists, live, curSlot);
      HomedWithin(lists, live, curSlot);
      fired := Sweep();
      forall t | t in old(live) ensures Turned(t, curSlot, old(t.rotation), t in fired) {
        HomedAt(old(lists), old(live), t, curSlot);
        SweptTurns(ts, rotations, fired, curSlot, t, old(t.rotation));
      }
      curSlot := (curSlot + 1) % N;
      CountsTurn(old(Counts()), Counts(), fired);
    }

    /** The walk over the current slot: a timer either loses a rotation or fires and is unlinked, while the
        walk goes on along the same list. */
    method Sweep() returns (fired: seq<TwTimer>)
      requires Valid()
      modifies this`live, this`lists, slots, lists[curSlot]
      ensures Valid() && slots == old(slots) && live == old(live) - Listed(fired)
      ensures
        var ts, rotations := old(lists[curSlot]), old(Rotations(lists[curSlot]));
        && fired == Picked(ts, rotations, true) && lists[curSlot] == Picked(ts, rotations, false)
        && Lowered(ts, |ts|, rotations) && SameBut(old(lists), lists, curSlot)
    {
      hide Chained, Chain, Headed, Homed, First, Known, Rotations, Lowered, Picked, Walked, SameBut, Collections.Listed;
      hide Collections.Distinct;
      ghost var ts, rotations, m := lists[curSlot], Rotations(lists[curSlot]), 0;
      WalkedStart(lists, live, curSlot, rotations);
      LoweredStart(ts);
      ChainDistinct(lists, live, curSlot);
      HeadIsFirst(slots[..], lists, curSlot);
      fired := [];
      var tmp := slots[curSlot];
      while tmp != null
        invariant Valid() && slots == old(slots) && Lowered(ts, m, rotations)
        invariant Walked(old(lists), old(live), lists, live, curSlot, m, rotations, fired)
        invariant m <= |ts| && tmp == if m < |ts| then ts[m] else null
        decreases |ts| - m
      {
        WalkedNow(old(lists), old(live), lists, live, curSlot, m, rotations, fired);
        ghost var lists0, live0 := lists, live;
        var fires, tmp2 := Visit(tmp, ts, m, rotations, fired);
        WalkedStep(old(lists), old(live), lists0, live0, lists, live, curSlot, m, rotations, fired, tmp, fires);
        if fires {
          fired := fired + [tmp];
        }
        tmp, m := tmp2, m + 1;
      }
      WalkedEnd(old(lists), old(live), lists, live, curSlot, rotations, fired);
    }

    /** One turn of the walk. */
    method Visit(tmp: TwTimer, ghost ts: seq<TwTimer>, ghost m: nat, ghost rotations: map<TwTimer, nat>,
                 ghost fired: seq<TwTimer>)
      returns (fires: bool, tmp2: TwTimer?)
      requires Valid() && Distinct(ts) && m < |ts| && ts[m] == tmp && Known(ts, rotations)
      requires Swept(ts, m, rotations, lists[curSlot], fired) && Lowered(ts, m, rotations)
      modifies this`live, this`lists, slots, ts
      ensures Valid() && slots == old(slots) && SameBut(old(lists), lists, curSlot)
      ensures live == if fires then old(live) - {tmp} else old(live)
      ensures Swept(ts, m + 1, rotations, lists[curSlot], if fires then fired + [tmp] else fired)
      ensures Lowered(ts, m + 1, rotations) && tmp2 == Successor(ts, m)
    {
      hide Chained, Chain, Headed, Homed, First, Swept, Lowered, Without, Successor, Collections.Distinct;
      ghost var k := |lists[curSlot]| - (|ts| - m);
      SweptStep(ts, m, rotations, lists[curSlot], fired);
      ChainAt(lists, live, curSlot, k);
      LoweredAt(ts, m, rotations);
      tmp2 := tmp.next;
      fires := tmp.rotation == 0;
      if fires {
        Unlink(tmp, k);
      } else {
        LowerOne(tmp, ts, m, rotations);
      }
    }
  }

  lemma HomedAt(lists: Lists, live: set<TwTimer>, t: TwTimer, i: nat)
    requires Homed(lists, live) && t in live && i < N
    ensures t.timeSlot < N && (t in lists[i] <==> t.timeSlot == i)
  {
  }

  lemma HomedWithin(lists: Lists, live: set<TwTimer>, i: nat)
    requires Homed(lists, live) && i < N
    ensures forall k :: 0 <= k < |lists[i]| ==> lists[i][k] in live
  {
  }

  /** What a tick does to one timer. */
  ghost predicate Turned(t: TwTimer, curSlot: nat, rotation: nat, fires: bool)
    requires curSlot < N
    reads t`rotation
  {
    && t.timeSlot < N && (fires <==> Remaining(rotation, t.timeSlot, curSlot) == 0)
    && (!fires ==>
          Remaining(t.rotation, t.timeSlot, (curSlot + 1) % N) == Remaining(rotation, t.timeSlot, curSlot) - 1)
  }

  lemma SweptTurns(ts: seq<TwTimer>, rotations: map<TwTimer, nat>, fired: seq<TwTimer>, curSlot: nat, t: TwTimer,
                   rotation: nat)
    requires Known(ts, rotations) && Lowered(ts, |ts|, rotations) && fired == Picked(ts, rotations, true)
    requires curSlot < N && t.timeSlot < N && (t in ts <==> t.timeSlot == curSlot)
    requires if t in ts then t in rotations && rotations[t] == rotation else t.rotation == rotation
    ensures Turned(t, curSlot, rotation, t in fired)
  {
    hide Remaining, Picked;
    TurnOnce(rotation, t.timeSlot, curSlot);
  }

  lemma CountsTurn(before: Counts<TwTimer>, after: Counts<TwTimer>, fired: seq<TwTimer>)
    requires after.Keys == before.Keys - Listed(fired) && forall t :: t in fired ==> t in before
    requires forall t :: t in before ==> (t in fired <==> before[t] == 0)
    requires forall t :: t in after ==> after[t] == before[t] - 1
    ensures after == AfterTick(before) && forall t :: t in fired <==> t in Due(before)
  {
  }

  /** Where a live timer stands in the list of its slot. */
  ghost function Place(lists: Lists, live: set<TwTimer>, t: TwTimer): (k: nat)
    requires Homed(lists, live) && t in live
    ensures t.timeSlot < N && k < |lists[t.timeSlot]| && lists[t.timeSlot][k] == t
    ensures forall i :: 0 <= i < |lists[t.timeSlot]| ==> lists[t.timeSlot][i] in live
  {
    var k :| 0 <= k < |lists[t.timeSlot]| && lists[t.timeSlot][k] == t;
    k
  }

  lemma ChainAt(lists: Lists, live: set<TwTimer>, i: nat, k: nat)
    requires Homed(lists, live) && Chained(lists, live) && i < N && k < |lists[i]|
    ensures Distinct(lists[i]) && lists[i][k].next == Successor(lists[i], k) && lists[i][k].timeSlot == i
  {
    assert Chain(lists[i]);
  }

  lemma ChainDistinct(lists: Lists, live: set<TwTimer>, i: nat)
    requires Homed(lists, live) && Chained(lists, live) && i < N
    ensures Distinct(lists[i])
  {
    assert Chain(lists[i]);
  }

  lemma HeadIsFirst(heads: seq<TwTimer?>, lists: Lists, i: nat)
    requires Headed(heads, lists) && i < N
    ensures heads[i] == if lists[i] == [] then null else lists[i][0]
  {
  }

  /** How far the walk over slot c has brought the lists and the live timers. */
  ghost predicate Walked(lists0: Lists, live0: set<TwTimer>, lists: Lists, live: set<TwTimer>, c: nat, m: nat,
                         rotations: map<TwTimer, nat>, fired: seq<TwTimer>)
    requires c < N && Known(lists0[c], rotations)
  {
    SameBut(lists0, lists, c) && live == live0 - Listed(fired) && Swept(lists0[c], m, rotations, lists[c], fired)
  }

  lemma WalkedStart(lists: Lists, live: set<TwTimer>, c: nat, rotations: map<TwTimer, nat>)
    requires c < N && Known(lists[c], rotations)
    ensures Walked(lists, live, lists, live, c, 0, rotations, [])
  {
    SweptStart(lists[c], rotations);
  }

  lemma WalkedNow(lists0: Lists, live0: set<TwTimer>, lists: Lists, live: set<TwTimer>, c: nat, m: nat,
                  rotations: map<TwTimer, nat>, fired: seq<TwTimer>)
    requires c < N && Known(lists0[c], rotations) && Walked(lists0, live0, lists, live, c, m, rotations, fired)
    ensures Swept(lists0[c], m, rotations, lists[c], fired)
  {
  }

  lemma WalkedStep(lists0: Lists, live0: set<TwTimer>, lists1: Lists, live1: set<TwTimer>, lists: Lists,
                   live: set<TwTimer>, c: nat, m: nat, rotations: map<TwTimer, nat>, fired: seq<TwTimer>, t: TwTimer,
                   fires: bool)
    requires c < N && Known(lists0[c], rotations) && Walked(lists0, live0, lists1, live1, c, m, rotations, fired)
    requires SameBut(lists1, lists, c) && live == if fires then live1 - {t} else live1
    requires Swept(lists0[c], m + 1, rotations, lists[c], if fires then fired + [t] else fired)
    ensures Walked(lists0, live0, lists, live, c, m + 1, rotations, if fires then fired + [t] else fired)
  {
    hide Swept;
    ListedMore(fired, t);
  }

  lemma WalkedEnd(lists0: Lists, live0: set<TwTimer>, lists: Lists, live: set<TwTimer>, c: nat,
                  rotations: map<TwTimer, nat>, fired: seq<TwTimer>)
    requires c < N && Known(lists0[c], rotations)
    requires Walked(lists0, live0, lists, live, c, |lists0[c]|, rotations, fired)
    ensures fired == Picked(lists0[c], rotations, true) && lists[c] == Picked(lists0[c], rotations, false)
    ensures SameBut(lists0, lists, c) && live == live0 - Listed(fired)
  {
    SweptEnd(lists0[c], rotations, lists[c], fired);
  }

  lemma ListedMore(ts: seq<TwTimer>, t: TwTimer)
    ensures Listed(ts + [t]) == Listed(ts) + {t}
  {
  }

  // ---------- whole runs ----------

  /** What the owner of a wheel may do: `Cancel(n)` names the timer that the n-th operation added. */
  datatype Op = Start(timeout: int) | Cancel(n: nat) | Turn

  /** An operation as an event on countdowns; a refused timeout changes nothing. */
  function EventOf(op: Op, i: nat): Event<nat> {
    match op
    case Start(timeout) => if timeout < 0 then Delete(i) else Add(i, TicksOf(timeout))
    case Cancel(n) => Delete(n)
    case Turn => Tick
  }

  function Events(ops: seq<Op>): (r: seq<Event<nat>>)
    ensures |r| == |ops| && forall i :: 0 <= i < |ops| ==> r[i] == EventOf(ops[i], i)
  {
    seq(|ops|, i requires 0 <= i < |ops| => EventOf(ops[i], i))
  }

  /** The owner's pointers, one per operation: a pointer is dropped when its timer fires or is cancelled. */
  ghost predicate Tracks(handles: seq<TwTimer?>, counts: Counts<TwTimer>, model: Counts<nat>) {
    && (forall n :: n in model ==> n < |handles| && handles[n] != null)
    && (forall n :: 0 <= n < |handles| && handles[n] != null ==>
          n in model && handles[n] in counts && counts[handles[n]] == model[n])
    && (forall m, n :: 0 <= m < n < |handles| && handles[m] != null ==> handles[m] != handles[n])
  }

  function Dropped(handles: seq<TwTimer?>, fired: seq<TwTimer>): (r: seq<TwTimer?>)
    ensures |r| == |handles|
  {
    seq(|handles|, i requires 0 <= i < |handles| =>
      if handles[i] != null && handles[i] in fired then null else handles[i])
  }

  function Fired(handles: seq<TwTimer?>, fired: seq<TwTimer>): set<nat> {
    set n | 0 <= n < |handles| && handles[n] != null && handles[n] in fired
  }

  lemma TracksTurn(handles: seq<TwTimer?>, counts: Counts<TwTimer>, model: Counts<nat>, fired: seq<TwTimer>)
    requires Tracks(handles, counts, model) && forall t :: t in fired <==> t in Due(counts)
    ensures Fired(handles, fired) == Due(model)
    ensures Tracks(Dropped(handles, fired) + [null], AfterTick(counts), AfterTick(model))
  {
  }

  lemma TracksStart(handles: seq<TwTimer?>, counts: Counts<TwTimer>, model: Counts<nat>, t: TwTimer, ticks: nat)
    requires Tracks(handles, counts, model) && t !in handles
    ensures Tracks(handles + [t], counts[t := ticks], model[|handles| := ticks])
  {
  }

  lemma TracksNothing(handles: seq<TwTimer?>, counts: Counts<TwTimer>, model: Counts<nat>, n: nat)
    requires Tracks(handles, counts, model) && (n < |handles| ==> handles[n] == null)
    ensures Tracks(handles + [null], counts, model - {n})
  {
    assert model - {n} == model;
  }

  lemma TracksCancel(handles: seq<TwTimer?>, counts: Counts<TwTimer>, model: Counts<nat>, n: nat)
    requires Tracks(handles, counts, model) && n < |handles| && handles[n] != null
    ensures handles[n] in counts && Tracks(handles[n := null] + [null], counts - {handles[n]}, model - {n})
  {
  }

  function Turns(ops: seq<Op>): nat {
    if ops == [] then 0 else Turns(ops[..|ops| - 1]) + if ops[|ops| - 1].Turn? then 1 else 0
  }

  lemma {:induction false} TurnsAreTicks(ops: seq<Op>, n: nat)
    requires n <= |ops|
    ensures Ticks(Events(ops)[..n]) == Turns(ops[..n])
    decreases n
  {
    if n > 0 {
      TurnsAreTicks(ops, n - 1);
      assert Events(ops)[..n][..n - 1] == Events(ops)[..n - 1] && ops[..n][..n - 1] == ops[..n - 1];
    }
  }

  /** Any run of operations on a new wheel. The log says, turn by turn, which operations' timers fired; it is that
      of the countdowns. So a timer whose timeout is worth k ticks, and that is not cancelled, fires in the (k+1)-th
      turn after the operation that added it, and in no other. */
  method Run(ops: seq<Op>) returns (wheel: TimeWheel, log: seq<set<nat>>)
    ensures fresh(wheel) && wheel.Valid() && log == Log(map[], Events(ops)) && |log| == Turns(ops)
    ensures forall n, j, k: nat :: 0 <= n < |ops| && 0 <= j < |log| && StaysOn(ops, n) && Worth(ops[n].timeout, k) ==>
      (n in log[j] <==> j == Turns(ops[..n]) + k)
  {
    hide Tracks, Countdown.Log, Countdown.After, Countdown.Due, Countdown.AfterTick, Events, TimeWheel.Counts;
    wheel := new TimeWheel();
    log := [];
    var handles: seq<TwTimer?> := [];
    RunStart(ops);
    for i := 0 to |ops|
      invariant fresh(wheel) && fresh(wheel.slots) && fresh(wheel.live) && wheel.Valid() && |handles| == i
      invariant Tracks(handles, wheel.Counts(), After(map[], Events(ops)[..i]))
      invariant log == Log(map[], Events(ops)[..i])
    {
      RunTurn(ops, i);
      var fired;
      handles, fired := Perform(wheel, ops[i], handles, After(map[], Events(ops)[..i]));
      if ops[i].Turn? {
        log := log + [fired];
      }
    }
    RunEnd(ops);
    forall n, j, k: nat | 0 <= n < |ops| && 0 <= j < |log| && StaysOn(ops, n) && Worth(ops[n].timeout, k)
      ensures n in log[j] <==> j == Turns(ops[..n]) + k
    {
      StartedFiresOnTime(ops, n, j);
      TicksOfIsWorth(ops[n].timeout, k);
      TurnsAreTicks(ops, n);
    }
  }

  /** Operation n adds a timer, and nothing cancels it afterwards. */
  ghost predicate StaysOn(ops: seq<Op>, n: nat) {
    n < |ops| && ops[n].Start? && ops[n].timeout >= 0 && forall i :: n < i < |ops| ==> ops[i] != Cancel(n)
  }

  lemma StartedFiresOnTime(ops: seq<Op>, n: nat, j: nat)
    requires StaysOn(ops, n) && j < Ticks(Events(ops))
    ensures n in Log(map[], Events(ops))[j] <==> j == Ticks(Events(ops)[..n]) + TicksOf(ops[n].timeout)
  {
    hide Countdown.Log, Countdown.Ticks;
    var es := Events(ops);
    assert NeverAdds(es[..n], n);
    var rest := es[n + 1..];
    forall i | 0 <= i < |rest| && !rest[i].Tick? ensures rest[i].timer != n {
      assert rest[i] == EventOf(ops[n + 1 + i], n + 1 + i);
      assert ops[n + 1 + i] != Cancel(n);
    }
    AddedFiresOnTime(es, n, j);
  }

  lemma RunStart(ops: seq<Op>)
    ensures After(map[], Events(ops)[..0]) == map[] && Log(map[], Events(ops)[..0]) == [] && Tracks([], map[], map[])
  {
  }

  lemma RunTurn(ops: seq<Op>, i: nat)
    requires i < |ops|
    ensures var es := Events(ops);
      && After(map[], es[..i + 1]) == Next(After(map[], es[..i]), EventOf(ops[i], i))
      && Log(map[], es[..i + 1])
         == Log(map[], es[..i]) + if ops[i].Turn? then [Due(After(map[], es[..i]))] else []
  {
    assert Events(ops)[..i + 1][..i] == Events(ops)[..i];
  }

  lemma RunEnd(ops: seq<Op>)
    ensures Events(ops)[..|ops|] == Events(ops) && |Log(map[], Events(ops))| == Ticks(Events(ops)) == Turns(ops)
  {
    TurnsAreTicks(ops, |ops|);
    assert Events(ops)[..|ops|] == Events(ops) && ops[..|ops|] == ops;
  }

  /** One operation, on the wheel and on the owner's pointers. */
  method Perform(wheel: TimeWheel, op: Op, handles: seq<TwTimer?>, ghost model: Counts<nat>)
    returns (handles': seq<TwTimer?>, fired: set<nat>)
    requires wheel.Valid() && Tracks(handles, wheel.Counts(), model)
    modifies wheel, wheel.slots, wheel.live
    ensures wheel.Valid() && wheel.slots == old(wheel.slots) && |handles'| == |handles| + 1
    ensures fresh(wheel.live - old(wheel.live))
    ensures Tracks(handles', wheel.Counts(), Next(model, EventOf(op, |handles|)))
    ensures op.Turn? ==> fired == Due(model)
  {
    hide Tracks, Countdown.Due, Countdown.AfterTick, TimeWheel.Counts, TimeWheel.Valid, Dropped, Fired;
    fired := {};
    match op
    case Start(timeout) =>
      var t := wheel.AddTimer(timeout);
      if t != null {
        TracksStart(handles, old(wheel.Counts()), model, t, TicksOf(timeout));
      } else {
        TracksNothing(handles, wheel.Counts(), model, |handles|);
      }
      handles' := handles + [t];
    case Cancel(n) =>
      var t := if n < |handles| then handles[n] else null;
      if t != null {
        TracksCancel(handles, wheel.Counts(), model, n);
        wheel.DelTimer(t);
        handles' := handles[n := null] + [null];
      } else {
        TracksNothing(handles, wheel.Counts(), model, n);
        wheel.DelTimer(t);
        handles' := handles + [null];
      }
    case Turn =>
      var ts := wheel.Tick();
      TracksTurn(handles, old(wheel.Counts()), model, ts);
      fired := Fired(handles, ts);
      handles' := Dropped(handles, ts) + [null];
  }
}
