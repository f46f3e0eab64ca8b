/** Whole runs of the timer heap and of the sorted list against one specification: a table of the timers started,
    which of them are still waiting, and what each tick calls. The heap forgets a deleted timer only when it is due,
    the list at once; no run can tell. */
module TimerRuns {
  import opened Collections
  import opened TimerHeap
  import opened TimerList
  import opened TimerAgreement

  // ---------- the specification ----------

  /** `Stop(n)` deletes the n-th timer started, if it is still waiting. */
  datatype Op = Start(expire: int) | Stop(n: nat) | Turn(cur: int)

  datatype Entry = Entry(expire: int, waiting: bool)

  function After(es: seq<Entry>, op: Op): seq<Entry> {
    match op
    case Start(expire) => es + [Entry(expire, true)]
    case Stop(n) => if n < |es| then es[n := es[n].(waiting := false)] else es
    case Turn(cur) => Turned(es, cur)
  }

  function Turned(es: seq<Entry>, cur: int): (r: seq<Entry>)
    ensures |r| == |es|
    ensures forall i :: 0 <= i < |es| ==> r[i] == es[i].(waiting := es[i].waiting && cur < es[i].expire)
  {
    seq(|es|, i requires 0 <= i < |es| => es[i].(waiting := es[i].waiting && cur < es[i].expire))
  }

  function AfterAll(ops: seq<Op>): seq<Entry> {
    if ops == [] then [] else After(AfterAll(ops[..|ops| - 1]), ops[|ops| - 1])
  }

  function Waiting(es: seq<Entry>): seq<int> {
    if es == [] then []
    else Waiting(es[..|es| - 1]) + Own(es[|es| - 1], true)
  }

  function Own(e: Entry, counts: bool): seq<int> {
    if e.waiting && counts then [e.expire] else []
  }

  function Due(es: seq<Entry>, cur: int): seq<int> {
    if es == [] then []
    else
      var e := es[|es| - 1];
      Due(es[..|es| - 1], cur) + Own(e, e.expire <= cur)
  }

  /** What one operation calls: a tick calls the waiting timers that are due, earliest first. */
  ghost predicate Calls(es: seq<Entry>, op: Op, called: seq<int>) {
    match op
    case Turn(cur) => Rising(called) && multiset(called) == multiset(Due(es, cur))
    case _ => called == []
  }

  ghost predicate IsLog(ops: seq<Op>, log: seq<seq<int>>) {
    |log| == |ops| && forall k :: 0 <= k < |ops| ==> Calls(AfterAll(ops[..k]), ops[k], log[k])
  }

  lemma LogMore(ops: seq<Op>, i: nat, log: seq<seq<int>>, called: seq<int>)
    requires i < |ops| && IsLog(ops[..i], log) && Calls(AfterAll(ops[..i]), ops[i], called)
    ensures IsLog(ops[..i + 1], log + [called]) && AfterAll(ops[..i + 1]) == After(AfterAll(ops[..i]), ops[i])
  {
    hide AfterAll, Calls;
    var more := ops[..i + 1];
    forall k | 0 <= k <= i ensures Calls(AfterAll(more[..k]), more[k], (log + [called])[k]) {
      assert more[..k] == ops[..i + 1][..k];
      if k < i {
        assert more[..k] == ops[..i][..k];
      } else {
        assert more[..k] == ops[..i];
      }
    }
    AfterMore(ops, i);
  }

  lemma AfterMore(ops: seq<Op>, i: nat)
    requires i < |ops|
    ensures AfterAll(ops[..i + 1]) == After(AfterAll(ops[..i]), ops[i])
  {
    assert ops[..i + 1][..i] == ops[..i];
  }

  /** The specification leaves no choice. */
  lemma LogIsUnique(ops: seq<Op>, a: seq<seq<int>>, b: seq<seq<int>>)
    requires IsLog(ops, a) && IsLog(ops, b)
    ensures a == b
  {
    forall k | 0 <= k < |ops| ensures a[k] == b[k] {
      var es := AfterAll(ops[..k]);
      assert Calls(es, ops[k], a[k]) && Calls(es, ops[k], b[k]);
      if ops[k].Turn? {
        RisingIsUnique(a[k], b[k]);
      }
    }
  }

  /** A tick splits the waiting deadlines into the due ones and those that go on waiting. */
  lemma {:induction false} WaitingSplits(es: seq<Entry>, cur: int)
    ensures multiset(Waiting(es)) == multiset(Due(es, cur)) + multiset(Waiting(Turned(es, cur)))
    ensures AtMost(Due(es, cur), cur) && Above(Waiting(Turned(es, cur)), cur)
    decreases |es|
  {
    hide Own, Waiting, Due, Collections.AtMost, Collections.Above;
    if es == [] {
      NoneWaiting(cur);
      assert Turned(es, cur) == [];
    } else {
      var n := |es| - 1;
      var e, later := es[n], Turned(es, cur);
      WaitingSplits(es[..n], cur);
      assert later[..n] == Turned(es[..n], cur);
      LastOwn(es, cur);
      LastOwn(later, cur);
      OwnSplits(e, cur);
      AppendSplits(Due(es[..n], cur), Waiting(later[..n]), Own(e, e.expire <= cur), Own(later[n], true), cur);
    }
  }

  lemma NoneWaiting(cur: int)
    ensures Waiting([]) == Due([], cur) == [] && AtMost([], cur) && Above([], cur)
  {
  }

  lemma LastOwn(es: seq<Entry>, cur: int)
    requires es != []
    ensures var n := |es| - 1;
      && Waiting(es) == Waiting(es[..n]) + Own(es[n], true)
      && Due(es, cur) == Due(es[..n], cur) + Own(es[n], es[n].expire <= cur)
  {
  }

  lemma AppendSplits(d: seq<int>, w: seq<int>, b: seq<int>, c: seq<int>, cur: int)
    requires AtMost(d, cur) && Above(w, cur) && AtMost(b, cur) && Above(c, cur)
    ensures AtMost(d + b, cur) && Above(w + c, cur)
  {
  }

  lemma OwnSplits(e: Entry, cur: int)
    ensures var later := e.(waiting := e.waiting && cur < e.expire);
      && multiset(Own(e, true)) == multiset(Own(e, e.expire <= cur)) + multiset(Own(later, true))
      && AtMost(Own(e, e.expire <= cur), cur) && Above(Own(later, true), cur)
  {
  }

  lemma {:induction false} WaitingStopped(es: seq<Entry>, n: nat)
    requires n < |es|
    ensures multiset(Waiting(es)) ==
      multiset(Waiting(es[n := es[n].(waiting := false)])) + multiset(Own(es[n], true))
    decreases |es|
  {
    hide Own;
    var m, stopped := |es| - 1, es[n := es[n].(waiting := false)];
    OwnStopped(es[n]);
    if n < m {
      WaitingStopped(es[..m], n);
      assert stopped[..m] == es[..m][n := es[n].(waiting := false)];
    } else {
      assert stopped[..m] == es[..m];
    }
  }

  lemma OwnStopped(e: Entry)
    ensures Own(e.(waiting := false), true) == []
  {
  }

  lemma WaitingStarted(es: seq<Entry>, expire: int)
    ensures multiset(Waiting(es + [Entry(expire, true)])) == multiset(Waiting(es)) + multiset{expire}
  {
    assert (es + [Entry(expire, true)])[..|es|] == es;
  }

  // ---------- the heap ----------

  /** The deadlines of the timers whose callback is still set. */
  function Armed(s: Timers): seq<int>
    reads s
  {
    Deadlines(Active(s))
  }

  ghost predicate Once(s: Timers) {
    forall i :: 0 <= i < |s| ==> multiset(s)[s[i]] == 1
  }

  /** The callbacks still set are those of the waiting timers. */
  ghost predicate HeapAgrees(es: seq<Entry>, timers: Timers, contents: Timers)
    reads contents, timers
  {
    && |timers| == |es|
    && (forall i :: 0 <= i < |es| ==> timers[i].expire == es[i].expire)
    && (forall i :: 0 <= i < |es| && es[i].waiting ==> timers[i] in contents && timers[i].active)
    && Distinct(timers) && Once(contents)
    && multiset(Armed(contents)) == multiset(Waiting(es))
  }

  lemma {:induction false} ActiveConcat(a: Timers, b: Timers)
    ensures Active(a + b) == Active(a) + Active(b)
    decreases |b|
  {
    if b == [] {
      assert a + b == a;
    } else {
      ActiveConcat(a, b[..|b| - 1]);
      assert (a + b)[..|a + b| - 1] == a + b[..|b| - 1];
    }
  }

  lemma ArmedConcat(a: Timers, b: Timers)
    ensures Armed(a + b) == Armed(a) + Armed(b)
  {
    hide Active;
    ActiveConcat(a, b);
    DeadlinesConcat(Active(a), Active(b));
  }

  lemma ArmedSplit(s: Timers, k: nat)
    requires k < |s|
    ensures Armed(s) == Armed(s[..k]) + Armed([s[k]]) + Armed(s[k + 1..])
    ensures Armed(s[..k] + s[k + 1..]) == Armed(s[..k]) + Armed(s[k + 1..])
  {
    hide Armed;
    var l, m, r := s[..k], [s[k]], s[k + 1..];
    assert s == l + m + r;
    ArmedConcat(l + m, r);
    ArmedConcat(l, m);
    ArmedConcat(l, r);
  }

  lemma {:induction false} ArmedPermutation(a: Timers, b: Timers)
    requires multiset(a) == multiset(b)
    ensures multiset(Armed(a)) == multiset(Armed(b))
    decreases |a|
  {
    hide Armed;
    SameLength(a, b);
    if a != [] {
      assert a[0] in multiset(b);
      var k :| 0 <= k < |b| && b[k] == a[0];
      var rest := b[..k] + b[k + 1..];
      WithoutFirst(a);
      WithoutOne(b, k);
      ArmedPermutation(a[1..], rest);
      ArmedSplit(a, 0);
      ArmedSplit(b, k);
      assert a[..0] + a[1..] == a[1..] && Armed(a[..0] + a[1..]) == Armed(a[1..]);
    }
  }

  lemma {:induction false} ActiveOnes(s: Timers)
    ensures forall i :: 0 <= i < |Active(s)| ==> Active(s)[i] in s
    decreases |s|
  {
    if s != [] {
      ActiveOnes(s[..|s| - 1]);
      assert s == s[..|s| - 1] + [s[|s| - 1]];
    }
  }

  /** What is left of a collection in deadline order is in order. */
  lemma {:induction false} ActiveRising(s: Timers)
    requires Rising(Deadlines(s))
    ensures Rising(Armed(s))
    decreases |s|
  {
    hide Collections.Rising, Collections.AtMost;
    if s == [] {
      RisingAppend([], 0);
    } else {
      var n := |s| - 1;
      var t, a := s[n], Active(s[..n]);
      DeadlinesConcat(s[..n], [t]);
      DeadlinesConcat(a, [t]);
      assert Active(s) == a + if t.active then [t] else [];
      assert a + [] == a;
      assert s == s[..n] + [t] && Deadlines([t]) == [t.expire];
      RisingAppend(Deadlines(s[..n]), t.expire);
      ActiveRising(s[..n]);
      ActiveWithin(s[..n], t.expire);
      RisingAppend(Deadlines(a), t.expire);
    }
  }

  lemma RisingAppend(s: seq<int>, d: int)
    ensures Rising([]) && (Rising(s + [d]) <==> Rising(s) && AtMost(s, d))
  {
    var r := s + [d];
    if Rising(r) {
      forall i | 0 <= i < |s| ensures s[i] <= d {
        assert r[i] <= r[|s|];
      }
      forall i, j | 0 <= i < j < |s| ensures s[i] <= s[j] {
        assert r[i] <= r[j];
      }
    }
  }

  lemma ActiveWithin(s: Timers, cur: int)
    ensures AtMost(Deadlines(s), cur) ==> AtMost(Armed(s), cur)
    ensures Above(Deadlines(s), cur) ==> Above(Armed(s), cur)
  {
    ActiveOnes(s);
    var a := Active(s);
    forall i | 0 <= i < |a|
      ensures AtMost(Deadlines(s), cur) ==> Deadlines(a)[i] <= cur
      ensures Above(Deadlines(s), cur) ==> cur < Deadlines(a)[i]
    {
      assert a[i] in s;
      var j :| 0 <= j < |s| && s[j] == a[i];
      assert Deadlines(s)[j] == a[i].expire;
    }
  }

  lemma HeapStarted(es: seq<Entry>, timers: Timers, held: Timers, t: HeapTimer, contents: Timers)
    requires HeapAgrees(es, timers, held) && t !in held && t !in timers && t.active
    requires multiset(contents) == multiset(held) + multiset{t}
    ensures HeapAgrees(es + [Entry(t.expire, true)], timers + [t], contents)
  {
    hide Armed, Waiting;
    WaitingStarted(es, t.expire);
    ArmedConcat(held, [t]);
    ArmedPermutation(contents, held + [t]);
    ArmedOne(t);
    forall i | 0 <= i < |contents| ensures multiset(contents)[contents[i]] == 1 {
      assert contents[i] in multiset(contents);
      if contents[i] in multiset(held) {
        assert contents[i] in held;
      }
    }
    forall x | x in held ensures x in contents {
      assert x in multiset(contents);
    }
    assert t in multiset(contents);
  }

  lemma ArmedOne(t: HeapTimer)
    ensures Armed([t]) == if t.active then [t.expire] else []
  {
    assert Active([]) == [] && [t][..0] == [];
  }

  lemma HeapTurned(es: seq<Entry>, timers: Timers, held: Timers, removed: Timers, contents: Timers, cur: int)
    requires HeapAgrees(es, timers, held) && multiset(removed) + multiset(contents) == multiset(held)
    requires AtMost(Deadlines(removed), cur) && Above(Deadlines(contents), cur) && Rising(Deadlines(removed))
    ensures HeapAgrees(Turned(es, cur), timers, contents) && Calls(es, Turn(cur), Armed(removed))
  {
    hide Armed, Waiting, Due, Collections.Rising, Collections.AtMost, Collections.Above, Once;
    var later := Turned(es, cur);
    ArmedPermutation(removed + contents, held);
    ArmedConcat(removed, contents);
    WaitingSplits(es, cur);
    ActiveWithin(removed, cur);
    ActiveWithin(contents, cur);
    ActiveRising(removed);
    SplitIsUnique(Armed(removed), Armed(contents), Due(es, cur), Waiting(later), cur);
    OnceStays(held, removed, contents);
    forall i | 0 <= i < |es| && later[i].waiting ensures timers[i] in contents {
      StaysBehind(held, removed, contents, timers[i], cur);
    }
  }

  lemma OnceStays(held: Timers, removed: Timers, contents: Timers)
    requires Once(held) && multiset(removed) + multiset(contents) == multiset(held)
    ensures Once(contents)
  {
    forall i | 0 <= i < |contents| ensures multiset(contents)[contents[i]] == 1 {
      assert contents[i] in multiset(contents);
      assert contents[i] in multiset(held);
      assert contents[i] in held;
    }
  }

  lemma StaysBehind(held: Timers, removed: Timers, contents: Timers, t: HeapTimer, cur: int)
    requires multiset(removed) + multiset(contents) == multiset(held) && t in held
    requires AtMost(Deadlines(removed), cur) && cur < t.expire
    ensures t in contents
  {
    assert t in multiset(held);
    assert t !in removed by {
      assert forall i :: 0 <= i < |removed| ==> Deadlines(removed)[i] == removed[i].expire;
    }
  }

  /** Deletes a waiting timer: its callback is cleared, and it stays in the heap. */
  method StopInHeap(heap: TimeHeap, timers: Timers, ghost es: seq<Entry>, n: nat)
    requires heap.Valid() && HeapAgrees(es, timers, heap.contents) && n < |es| && es[n].waiting
    modifies timers[n]
    ensures heap.Valid() && HeapAgrees(es[n := es[n].(waiting := false)], timers, heap.contents)
  {
    hide Armed, Waiting, Once, TimerHeap.Ordered;
    ghost var s := heap.contents;
    ghost var k: nat :| k < |s| && s[k] == timers[n];
    ghost var rest := s[..k] + s[k + 1..];
    OnlyThere(s, k);
    ArmedTake(s, k);
    ghost var before, left := Armed(s), Armed(rest);
    heap.DelTimer(timers[n]);
    ArmedTake(s, k);
    assert Armed(rest) == left;
    HeapStopped(es, timers, s, n, before);
  }

  lemma ArmedTake(s: Timers, k: nat)
    requires k < |s|
    ensures multiset(Armed(s)) ==
      multiset(Armed(s[..k] + s[k + 1..])) + if s[k].active then multiset{s[k].expire} else multiset{}
  {
    hide Armed;
    ArmedSplit(s, k);
    ArmedOne(s[k]);
  }

  /** The table agrees again once one timer has lost its callback and its deadline. */
  lemma HeapStopped(es: seq<Entry>, timers: Timers, s: Timers, n: nat, before: seq<int>)
    requires |timers| == |es| && n < |es| && es[n].waiting && Distinct(timers) && Once(s)
    requires forall i :: 0 <= i < |es| ==> timers[i].expire == es[i].expire
    requires forall i :: 0 <= i < |es| && i != n && es[i].waiting ==> timers[i] in s && timers[i].active
    requires multiset(before) == multiset(Waiting(es)) == multiset(Armed(s)) + multiset{es[n].expire}
    ensures HeapAgrees(es[n := es[n].(waiting := false)], timers, s)
  {
    hide Armed, Waiting, Once;
    var later := es[n := es[n].(waiting := false)];
    WaitingStopped(es, n);
    SameLeft(multiset(Armed(s)), multiset(Waiting(later)), es[n].expire);
  }

  lemma SameLeft(a: multiset<int>, b: multiset<int>, x: int)
    requires a + multiset{x} == b + multiset{x}
    ensures a == b
  {
    assert (a + multiset{x}) - multiset{x} == a;
    assert (b + multiset{x}) - multiset{x} == b;
  }

  lemma OnlyThere(s: Timers, k: nat)
    requires k < |s| && Once(s)
    ensures s[k] !in s[..k] + s[k + 1..]
  {
    WithoutOne(s, k);
    assert multiset(s[..k] + s[k + 1..])[s[k]] == 0;
  }

  method StartInHeap(heap: TimeHeap, timers: Timers, ghost es: seq<Entry>, expire: int) returns (t: HeapTimer)
    requires heap.Valid() && heap.slots.Length > 0 && HeapAgrees(es, timers, heap.contents)
    modifies heap, heap.slots
    ensures heap.Valid() && heap.slots.Length > 0 && (heap.slots == old(heap.slots) || fresh(heap.slots))
    ensures fresh(t) && HeapAgrees(es + [Entry(expire, true)], timers + [t], heap.contents)
  {
    hide HeapAgrees, TimerHeap.Ordered;
    ghost var held := heap.contents;
    t := new HeapTimer(expire);
    var ok := heap.AddTimer(t);
    HeapStarted(es, timers, held, t, heap.contents);
  }

  method TurnHeap(heap: TimeHeap, timers: Timers, ghost es: seq<Entry>, cur: int) returns (called: seq<int>)
    requires heap.Valid() && HeapAgrees(es, timers, heap.contents)
    modifies heap`curSize, heap`contents, heap.slots
    ensures heap.Valid() && HeapAgrees(Turned(es, cur), timers, heap.contents) && Calls(es, Turn(cur), called)
  {
    hide HeapAgrees, Calls, TimerHeap.Ordered;
    ghost var held := heap.contents;
    var ok, removed, fired := heap.Tick(cur);
    HeapTurned(es, timers, held, removed, heap.contents, cur);
    called := Deadlines(fired);
    assert called == Armed(removed);
  }

  /** One operation on the heap; `es` is the table of the timers started. */
  method OnHeap(heap: TimeHeap, timers: Timers, es: seq<Entry>, op: Op) returns (more: Timers, called: seq<int>)
    requires heap.Valid() && heap.slots.Length > 0 && |timers| == |es| && HeapAgrees(es, timers, heap.contents)
    modifies heap, heap.slots, timers
    ensures heap.Valid() && heap.slots.Length > 0 && (heap.slots == old(heap.slots) || fresh(heap.slots))
    ensures HeapAgrees(After(es, op), more, heap.contents) && Calls(es, op, called)
    ensures |more| == |After(es, op)| && forall t :: t in more ==> t in timers || fresh(t)
  {
    hide HeapAgrees, TimeHeap.Valid, Turned, Waiting, Due, Armed, TimerHeap.Ordered, Collections.Rising;
    more, called := timers, [];
    match op
    case Start(expire) =>
      var t := StartInHeap(heap, timers, es, expire);
      more := timers + [t];
    case Stop(n) =>
      if n < |es| {
        if es[n].waiting {
          StopInHeap(heap, timers, es, n);
        } else {
          assert es[n := es[n].(waiting := false)] == es;
        }
      }
    case Turn(cur) =>
      called := TurnHeap(heap, timers, es, cur);
  }

  /** The heap over any run: every tick calls the timers that the table says, and the callbacks still set are those
      of the timers that wait. */
  method RunHeap(capacity: nat, ops: seq<Op>) returns (heap: TimeHeap, log: seq<seq<int>>)
    requires capacity > 0
    ensures fresh(heap) && heap.Valid() && IsLog(ops, log)
    ensures multiset(Armed(heap.contents)) == multiset(Waiting(AfterAll(ops)))
  {
    hide HeapAgrees, TimeHeap.Valid, IsLog, AfterAll, Calls, After, Waiting, Armed;
    heap := new TimeHeap(capacity);
    log := [];
    var timers: Timers, es: seq<Entry> := [], [];
    EmptyHeapAgrees();
    NothingLogged(ops);
    for i := 0 to |ops|
      invariant fresh(heap) && fresh(heap.slots) && heap.Valid() && heap.slots.Length > 0
      invariant |timers| == |es| && fresh(timers) && es == AfterAll(ops[..i])
      invariant HeapAgrees(es, timers, heap.contents) && IsLog(ops[..i], log)
    {
      var called;
      timers, called := OnHeap(heap, timers, es, ops[i]);
      assert forall k :: 0 <= k < |timers| ==> timers[k] in timers;
      LogMore(ops, i, log, called);
      es, log := After(es, ops[i]), log + [called];
    }
    HeapAgreement(es, timers, heap.contents);
    assert ops[..|ops|] == ops;
  }

  lemma EmptyHeapAgrees()
    ensures HeapAgrees([], [], [])
  {
  }

  lemma NothingLogged(ops: seq<Op>)
    ensures AfterAll(ops[..0]) == [] && IsLog(ops[..0], [])
  {
  }

  lemma HeapAgreement(es: seq<Entry>, timers: Timers, contents: Timers)
    requires HeapAgrees(es, timers, contents)
    ensures multiset(Armed(contents)) == multiset(Waiting(es))
  {
  }

  // ---------- the list ----------

  /** The nodes are those of the waiting timers. */
  ghost predicate ListAgrees(es: seq<Entry>, timers: seq<UtilTimer>, nodes: seq<UtilTimer>)
    reads timers`expire, nodes`expire
  {
    && |timers| == |es|
    && (forall i :: 0 <= i < |es| ==> timers[i].expire == es[i].expire)
    && (forall i :: 0 <= i < |es| && es[i].waiting ==> timers[i] in nodes)
    && Distinct(timers)
    && multiset(ListDeadlines(nodes)) == multiset(Waiting(es))
  }

  lemma ListStarted(es: seq<Entry>, timers: seq<UtilTimer>, held: seq<UtilTimer>, t: UtilTimer, k: nat)
    requires ListAgrees(es, timers, held) && t !in timers && k <= |held|
    ensures ListAgrees(es + [Entry(t.expire, true)], timers + [t], With(held, k, t))
  {
    hide ListDeadlines, Waiting;
    WaitingStarted(es, t.expire);
    var l, r := held[..k], held[k..];
    assert held == l + r;
    ListDeadlinesConcat(l, r);
    ListDeadlinesConcat(l + [t], r);
    ListDeadlinesConcat(l, [t]);
    OneListed(t);
  }

  lemma OneListed(t: UtilTimer)
    ensures ListDeadlines([t]) == [t.expire]
  {
  }

  lemma ListStopped(es: seq<Entry>, timers: seq<UtilTimer>, held: seq<UtilTimer>, n: nat, k: nat)
    requires ListAgrees(es, timers, held) && n < |es| && es[n].waiting && k < |held| && held[k] == timers[n]
    ensures ListAgrees(es[n := es[n].(waiting := false)], timers, Without(held, k))
  {
    hide ListDeadlines, Waiting;
    var later := es[n := es[n].(waiting := false)];
    var l, m, r := held[..k], [held[k]], held[k + 1..];
    assert held == l + m + r;
    ListDeadlinesConcat(l + m, r);
    ListDeadlinesConcat(l, m);
    ListDeadlinesConcat(l, r);
    OneListed(held[k]);
    WaitingStopped(es, n);
    SameLeft(multiset(ListDeadlines(l + r)), multiset(Waiting(later)), es[n].expire);
  }

  lemma ListTurned(es: seq<Entry>, timers: seq<UtilTimer>, fired: seq<UtilTimer>, nodes: seq<UtilTimer>, cur: int)
    requires ListAgrees(es, timers, fired + nodes) && Rising(ListDeadlines(fired + nodes))
    requires AtMost(ListDeadlines(fired), cur) && Above(ListDeadlines(nodes), cur)
    ensures ListAgrees(Turned(es, cur), timers, nodes) && Calls(es, Turn(cur), ListDeadlines(fired))
  {
    hide ListDeadlines, Waiting, Due, Collections.AtMost, Collections.Above;
    var later := Turned(es, cur);
    var out := ListDeadlines(fired);
    ListDeadlinesConcat(fired, nodes);
    WaitingSplits(es, cur);
    SplitIsUnique(out, ListDeadlines(nodes), Due(es, cur), Waiting(later), cur);
    assert forall i :: 0 <= i < |out| ==> ListDeadlines(fired + nodes)[i] == out[i];
    forall i | 0 <= i < |es| && later[i].waiting ensures timers[i] in nodes {
      StaysListed(fired, timers[i], cur);
    }
  }

  lemma StaysListed(fired: seq<UtilTimer>, t: UtilTimer, cur: int)
    requires AtMost(ListDeadlines(fired), cur) && cur < t.expire
    ensures t !in fired
  {
    assert forall i :: 0 <= i < |fired| ==> ListDeadlines(fired)[i] == fired[i].expire;
  }

  method StartInList(list: SortedTimerList, timers: seq<UtilTimer>, ghost es: seq<Entry>, expire: int)
    returns (t: UtilTimer)
    requires list.Valid() && ListAgrees(es, timers, list.nodes)
    modifies list, list.nodes`next, list.nodes`prev
    ensures list.Valid() && fresh(t) && ListAgrees(es + [Entry(expire, true)], timers + [t], list.nodes)
    ensures forall x :: x in list.nodes ==> x in old(list.nodes) || fresh(x)
  {
    hide ListAgrees, TimerList.Linked, TimerList.Sorted;
    ghost var held := list.nodes;
    t := new UtilTimer(expire);
    ghost var k := list.AddTimer(t);
    ListStarted(es, timers, held, t, k);
  }

  method StopInList(list: SortedTimerList, timers: seq<UtilTimer>, ghost es: seq<Entry>, n: nat)
    requires list.Valid() && n < |es| == |timers| && ListAgrees(es, timers, list.nodes) && es[n].waiting
    modifies list, list.nodes`next, list.nodes`prev
    ensures list.Valid() && ListAgrees(es[n := es[n].(waiting := false)], timers, list.nodes)
    ensures forall x :: x in list.nodes ==> x in old(list.nodes)
  {
    hide TimerList.Linked, TimerList.Sorted, Waiting, ListDeadlines;
    ghost var held := list.nodes;
    ghost var k: nat :| k < |held| && held[k] == timers[n];
    list.DelTimer(timers[n], k);
    ListStopped(es, timers, held, n, k);
  }

  method TurnList(list: SortedTimerList, timers: seq<UtilTimer>, ghost es: seq<Entry>, cur: int)
    returns (called: seq<int>)
    requires list.Valid() && ListAgrees(es, timers, list.nodes)
    modifies list, list.nodes`prev
    ensures list.Valid() && ListAgrees(Turned(es, cur), timers, list.nodes) && Calls(es, Turn(cur), called)
    ensures forall x :: x in list.nodes ==> x in old(list.nodes)
  {
    hide ListAgrees, Calls, TimerList.Linked, TimerList.Sorted, ListDeadlines, Collections.Rising;
    var fired := ListTick(list, cur);
    ListTurned(es, timers, fired, list.nodes, cur);
    called := ListDeadlines(fired);
  }

  /** One operation on the list. */
  method OnList(list: SortedTimerList, timers: seq<UtilTimer>, es: seq<Entry>, op: Op)
    returns (more: seq<UtilTimer>, called: seq<int>)
    requires list.Valid() && |timers| == |es| && ListAgrees(es, timers, list.nodes)
    modifies list, list.nodes`next, list.nodes`prev
    ensures list.Valid() && forall x :: x in list.nodes ==> x in old(list.nodes) || fresh(x)
    ensures |more| == |After(es, op)| && ListAgrees(After(es, op), more, list.nodes) && Calls(es, op, called)
  {
    hide ListAgrees, SortedTimerList.Valid, Turned, Waiting, Due, ListDeadlines, Collections.Rising;
    more, called := timers, [];
    match op
    case Start(expire) =>
      var t := StartInList(list, timers, es, expire);
      more := timers + [t];
    case Stop(n) =>
      if n < |es| {
        if es[n].waiting {
          StopInList(list, timers, es, n);
        } else {
          assert es[n := es[n].(waiting := false)] == es;
        }
      }
    case Turn(cur) =>
      called := TurnList(list, timers, es, cur);
  }

  /** The list over any run. */
  method RunList(ops: seq<Op>) returns (list: SortedTimerList, log: seq<seq<int>>)
    ensures fresh(list) && list.Valid() && IsLog(ops, log)
    ensures multiset(ListDeadlines(list.nodes)) == multiset(Waiting(AfterAll(ops)))
  {
    hide ListAgrees, SortedTimerList.Valid, IsLog, AfterAll, Calls, After, Waiting, ListDeadlines;
    list := new SortedTimerList();
    log := [];
    var timers: seq<UtilTimer>, es: seq<Entry> := [], [];
    EmptyListAgrees();
    NothingLogged(ops);
    for i := 0 to |ops|
      invariant fresh(list) && list.Valid() && fresh(list.nodes)
      invariant |timers| == |es| && es == AfterAll(ops[..i])
      invariant ListAgrees(es, timers, list.nodes) && IsLog(ops[..i], log)
    {
      var called;
      timers, called := OnList(list, timers, es, ops[i]);
      assert forall k :: 0 <= k < |list.nodes| ==> list.nodes[k] in list.nodes;
      LogMore(ops, i, log, called);
      es, log := After(es, ops[i]), log + [called];
    }
    ListAgreement(es, timers, list.nodes);
    assert ops[..|ops|] == ops;
  }

  lemma EmptyListAgrees()
    ensures ListAgrees([], [], [])
  {
  }

  lemma ListAgreement(es: seq<Entry>, timers: seq<UtilTimer>, nodes: seq<UtilTimer>)
    requires ListAgrees(es, timers, nodes)
    ensures multiset(ListDeadlines(nodes)) == multiset(Waiting(es))
  {
  }

  // ---------- both ----------

  /** Any run of adds, deletions and ticks has the same log on both containers, and leaves the same deadlines to be
      called in both. */
  method RunBoth(capacity: nat, ops: seq<Op>)
    returns (heap: TimeHeap, list: SortedTimerList, heapLog: seq<seq<int>>, listLog: seq<seq<int>>)
    requires capacity > 0
    ensures heap.Valid() && list.Valid()
    ensures heapLog == listLog && IsLog(ops, heapLog)
    ensures multiset(Armed(heap.contents)) == multiset(ListDeadlines(list.nodes))
  {
    hide IsLog, AfterAll, Waiting, Armed, ListDeadlines, TimeHeap.Valid, SortedTimerList.Valid;
    heap, heapLog := RunHeap(capacity, ops);
    list, listLog := RunList(ops);
    LogIsUnique(ops, heapLog, listLog);
  }
}
