/** The timer list: doubly linked, kept sorted by deadline. */
module TimerList {
  import opened Collections

  class UtilTimer {
    var expire: int
    var prev: UtilTimer?
    var next: UtilTimer?

    constructor (expire: int)
      ensures this.expire == expire && prev == null && next == null
    {
      this.expire, prev, next := expire, null, null;
    }
  }

  // ---------- chains of nodes ----------

  function Successor(ns: seq<UtilTimer>, i: nat): UtilTimer? {
    if i + 1 < |ns| then ns[i + 1] else null
  }

  function Predecessor(ns: seq<UtilTimer>, i: nat): UtilTimer? {
    if 0 < i <= |ns| then ns[i - 1] else null
  }

  ghost predicate NextLinked(ns: seq<UtilTimer>)
    reads ns`next
  {
    forall i :: 0 <= i < |ns| ==> ns[i].next == Successor(ns, i)
  }

  ghost predicate PrevLinked(ns: seq<UtilTimer>)
    reads ns`prev
  {
    forall i :: 0 <= i < |ns| ==> ns[i].prev == Predecessor(ns, i)
  }

  /** Every node points to its neighbours, and the ends point nowhere. */
  ghost predicate Linked(ns: seq<UtilTimer>)
    reads ns`next, ns`prev
  {
    Distinct(ns) && NextLinked(ns) && PrevLinked(ns)
  }

  ghost predicate Sorted(ns: seq<UtilTimer>)
    reads ns`expire
  {
    forall i, j :: 0 <= i < j < |ns| ==> ns[i].expire <= ns[j].expire
  }

  function Without(ns: seq<UtilTimer>, k: nat): seq<UtilTimer>
    requires k < |ns|
  {
    ns[..k] + ns[k + 1..]
  }

  function With(ns: seq<UtilTimer>, k: nat, t: UtilTimer): seq<UtilTimer>
    requires k <= |ns|
  {
    ns[..k] + [t] + ns[k..]
  }

  lemma WithAt(ns: seq<UtilTimer>, k: nat, t: UtilTimer)
    requires k <= |ns|
    ensures |With(ns, k, t)| == |ns| + 1
    ensures forall i {:trigger With(ns, k, t)[i]} :: 0 <= i <= |ns| ==>
      With(ns, k, t)[i] == if i < k then ns[i] else if i == k then t else ns[i - 1]
  {
  }

  lemma WithoutAt(ns: seq<UtilTimer>, k: nat)
    requires k < |ns|
    ensures |Without(ns, k)| == |ns| - 1
    ensures forall i {:trigger Without(ns, k)[i]} :: 0 <= i < |ns| - 1 ==>
      Without(ns, k)[i] == if i < k then ns[i] else ns[i + 1]
  {
  }

  // ---------- pointer surgery, one direction at a time ----------

  /** Links a timer in behind its predecessor. */
  method LinkForward(before: UtilTimer, timer: UtilTimer, after: UtilTimer?, ghost ns: seq<UtilTimer>, ghost k: nat)
    requires Distinct(ns) && NextLinked(ns) && timer !in ns && k <= |ns|
    requires before == Predecessor(ns, k) && after == if k < |ns| then ns[k] else null
    modifies ns`next, timer`next
    ensures NextLinked(With(ns, k, timer))
  {
    hide With;
    WithAt(ns, k, timer);
    before.next := timer;
    timer.next := after;
  }

  /** Links a timer in front of its successor, if it has one; the caller moves the tail otherwise. */
  method LinkBack(before: UtilTimer, timer: UtilTimer, after: UtilTimer?, ghost ns: seq<UtilTimer>, ghost k: nat)
    requires Distinct(ns) && PrevLinked(ns) && timer !in ns && k <= |ns|
    requires before == Predecessor(ns, k) && after == if k < |ns| then ns[k] else null
    modifies ns`prev, timer`prev
    ensures PrevLinked(With(ns, k, timer))
  {
    hide With;
    WithAt(ns, k, timer);
    timer.prev := before;
    if after != null {
      after.prev := timer;
    }
  }

  /** Where the neighbours are once t stands in front. */
  lemma InFront(t: UtilTimer, ns: seq<UtilTimer>, i: nat)
    requires i <= |ns|
    ensures With(ns, 0, t)[i] == if i == 0 then t else ns[i - 1]
    ensures Successor(With(ns, 0, t), i) == if i > 0 then Successor(ns, i - 1) else if ns == [] then null else ns[0]
    ensures Predecessor(With(ns, 0, t), i) == if i == 0 then null else if i == 1 then t else Predecessor(ns, i - 1)
  {
  }

  /** Links a timer in front of a chain; a link that is not written must be unset already. */
  method LinkInFront(timer: UtilTimer, head: UtilTimer?, ghost ns: seq<UtilTimer>)
    requires Linked(ns) && timer !in ns && head == if ns == [] then null else ns[0]
    modifies timer`next, ns`prev
    ensures Linked(With(ns, 0, timer)) <==> timer.prev == null && (ns == [] ==> old(timer.next) == null)
  {
    hide With;
    WithAt(ns, 0, timer);
    if head != null {
      timer.next := head;
      head.prev := timer;
    }
    ghost var longer := With(ns, 0, timer);
    forall i | 0 <= i <= |ns|
      ensures i > 0 ==> longer[i].next == Successor(longer, i) && longer[i].prev == Predecessor(longer, i)
      ensures i == 0 ==> Predecessor(longer, i) == null && (longer[i].next == Successor(longer, i) <==>
        (ns == [] ==> old(timer.next) == null))
    {
      InFront(timer, ns, i);
    }
    assert longer[0] == timer;
  }

  /** Makes the predecessor of a node point past it. */
  method SkipForward(timer: UtilTimer, ghost ns: seq<UtilTimer>, ghost k: nat)
    requires Distinct(ns) && NextLinked(ns) && k < |ns| && ns[k] == timer && timer.prev == Predecessor(ns, k)
    modifies ns`next
    ensures NextLinked(Without(ns, k)) && timer.next == old(timer.next)
  {
    hide Without;
    WithoutAt(ns, k);
    if timer.prev != null {
      timer.prev.next := timer.next;
    }
  }

  /** Makes the successor of a node point back past it. */
  method SkipBack(timer: UtilTimer, ghost ns: seq<UtilTimer>, ghost k: nat)
    requires Distinct(ns) && PrevLinked(ns) && k < |ns| && ns[k] == timer && timer.next == Successor(ns, k)
    modifies ns`prev
    ensures PrevLinked(Without(ns, k)) && timer.prev == old(timer.prev)
  {
    hide Without;
    WithoutAt(ns, k);
    if timer.next != null {
      timer.next.prev := timer.prev;
    }
  }

  lemma DistinctWith(ns: seq<UtilTimer>, k: nat, t: UtilTimer)
    requires Distinct(ns) && t !in ns && k <= |ns|
    ensures Distinct(With(ns, k, t))
  {
    hide With;
    WithAt(ns, k, t);
  }

  lemma DistinctWithout(ns: seq<UtilTimer>, k: nat)
    requires Distinct(ns) && k < |ns|
    ensures Distinct(Without(ns, k)) && forall t :: t in Without(ns, k) ==> t in ns
  {
  }

  method LinkBetween(before: UtilTimer, timer: UtilTimer, after: UtilTimer?, ghost ns: seq<UtilTimer>, ghost k: nat)
    requires Linked(ns) && timer !in ns && k <= |ns|
    requires before == Predecessor(ns, k) && after == if k < |ns| then ns[k] else null
    modifies ns`next, ns`prev, timer`next, timer`prev
    ensures Linked(With(ns, k, timer))
  {
    hide NextLinked, PrevLinked, With, Collections.Distinct;
    ghost var longer := With(ns, k, timer);
    DistinctWith(ns, k, timer);
    LinkForward(before, timer, after, ns, k);
    assert NextLinked(longer);
    LinkBack(before, timer, after, ns, k);
  }

  method Bypass(timer: UtilTimer, ghost ns: seq<UtilTimer>, ghost k: nat)
    requires Linked(ns) && k < |ns| && ns[k] == timer
    modifies ns`next, ns`prev
    ensures Linked(Without(ns, k)) && timer.next == old(timer.next) && timer.prev == old(timer.prev)
  {
    hide NextLinked, PrevLinked, Without, Collections.Distinct;
    NodeAt(ns, k);
    ghost var shorter := Without(ns, k);
    DistinctWithout(ns, k);
    SkipForward(timer, ns, k);
    assert NextLinked(shorter);
    SkipBack(timer, ns, k);
  }

  /** k is where t belongs: behind everything that is due no later. */
  ghost predicate Slot(ns: seq<UtilTimer>, k: nat, t: UtilTimer)
    reads ns`expire, t`expire
  {
    && k <= |ns|
    && (forall i :: 0 <= i < k ==> ns[i].expire <= t.expire)
    && (forall i :: k <= i < |ns| ==> t.expire < ns[i].expire)
  }

  lemma SlotIsUnique(ns: seq<UtilTimer>, t: UtilTimer, j: nat, k: nat)
    requires Slot(ns, j, t) && Slot(ns, k, t)
    ensures j == k
  {
    var m := if j < k then j else k;
    var due := m < |ns| && ns[m].expire <= t.expire;
  }

  lemma WithStaysSorted(ns: seq<UtilTimer>, k: nat, t: UtilTimer)
    requires Sorted(ns) && Slot(ns, k, t)
    ensures Sorted(With(ns, k, t))
  {
    var r := With(ns, k, t);
    assert forall i :: 0 <= i < |r| ==> r[i] == if i < k then ns[i] else if i == k then t else ns[i - 1];
  }

  lemma WithoutStaysSorted(ns: seq<UtilTimer>, k: nat)
    requires k < |ns| && Sorted(ns)
    ensures Sorted(Without(ns, k))
  {
    var r := Without(ns, k);
    assert forall i :: 0 <= i < |r| ==> r[i] == if i < k then ns[i] else ns[i + 1];
  }

  lemma TakeOutPutBack(ns: seq<UtilTimer>, k: nat)
    requires k < |ns|
    ensures ns == With(Without(ns, k), k, ns[k])
  {
    assert Without(ns, k)[..k] == ns[..k] && Without(ns, k)[k..] == ns[k + 1..];
  }

  /** A raised timer that still comes before its successor is where it belongs. */
  lemma StaysPut(ns: seq<UtilTimer>, k: nat)
    requires k < |ns| && Sorted(Without(ns, k))
    requires forall i :: 0 <= i < k ==> ns[i].expire <= ns[k].expire
    requires k + 1 < |ns| ==> ns[k].expire < ns[k + 1].expire
    ensures Slot(Without(ns, k), k, ns[k])
  {
    var others := Without(ns, k);
    assert others[..k] == ns[..k];
    assert forall i :: 0 <= i < k ==> others[i] == ns[i];
    if k < |others| {
      assert others[k] == ns[k + 1];
      assert forall i :: k < i < |others| ==> others[k].expire <= others[i].expire;
    }
  }

  lemma FrontIsLeast(ns: seq<UtilTimer>, i: nat)
    requires Sorted(ns) && i < |ns|
    ensures ns[0].expire <= ns[i].expire
  {
  }

  lemma MoveFront(ns: seq<UtilTimer>, m: nat)
    requires m < |ns|
    ensures ns[m..][0] == ns[m] && ns[m..][1..] == ns[m + 1..] && ns[..m] + [ns[m]] == ns[..m + 1]
  {
  }

  lemma LinkedDistinct(ns: seq<UtilTimer>, k: nat)
    requires Linked(ns) && k < |ns|
    ensures ns[k] !in Without(ns, k) && forall i :: 0 <= i < |Without(ns, k)| ==> Without(ns, k)[i] in ns
  {
  }

  lemma NodeAt(ns: seq<UtilTimer>, k: nat)
    requires Linked(ns) && k < |ns|
    ensures Distinct(ns) && ns[k].next == Successor(ns, k) && ns[k].prev == Predecessor(ns, k)
    ensures ns[k] == ns[0] ==> k == 0
    ensures ns[k] == ns[|ns| - 1] ==> k == |ns| - 1
    ensures Successor(ns, k) == if k + 1 < |ns| then ns[k + 1] else null
    ensures Predecessor(ns, k) == if k > 0 then ns[k - 1] else null
  {
  }

  /** Between neighbours due no later and due later is where a timer belongs. */
  lemma SlotBetween(ns: seq<UtilTimer>, k: nat, t: UtilTimer)
    requires Sorted(ns) && k <= |ns|
    requires k > 0 ==> ns[k - 1].expire <= t.expire
    requires k < |ns| ==> t.expire < ns[k].expire
    ensures Slot(ns, k, t)
  {
  }

  class SortedTimerList {
    var head: UtilTimer?
    var tail: UtilTimer?
    ghost var nodes: seq<UtilTimer>

    /** The list is well formed; `tail` is only kept while there is something in it. */
    ghost predicate Shaped()
      reads this, nodes
    {
      && Linked(nodes)
      && head == (if nodes == [] then null else nodes[0])
      && (nodes != [] ==> tail == nodes[|nodes| - 1])
    }

    ghost predicate Valid()
      reads this, nodes
    {
      Shaped() && Sorted(nodes)
    }

    constructor ()
      ensures Valid() && nodes == []
    {
      head, tail, nodes := null, null, [];
    }

    /** The pointer surgery of an insertion behind `before`. */
    method Splice(before: UtilTimer, timer: UtilTimer, after: UtilTimer?, ghost k: nat)
      requires Shaped() && timer !in nodes && k <= |nodes|
      requires before == Predecessor(nodes, k) && after == if k < |nodes| then nodes[k] else null
      modifies this, nodes`next, nodes`prev, timer`next, timer`prev
      ensures Shaped() && nodes == With(old(nodes), k, timer)
    {
      hide Linked, With;
      WithAt(nodes, k, timer);
      LinkBetween(before, timer, after, nodes, k);
      if after == null {
        tail := timer;
      }
      nodes := With(nodes, k, timer);
    }

    /** The links that the insertion at the front leaves as they are must be unset: both of the first timer of a
        list, the back link of a new head. Behind the head both links are set anyway. */
    ghost predicate LinksFit(timer: UtilTimer)
      reads this, nodes`expire, timer
    {
      && (nodes == [] ==> timer.next == null && timer.prev == null)
      && (nodes != [] && timer.expire < nodes[0].expire ==> timer.prev == null)
    }

    /** Adds a timer that is not in the list: it takes its place, and the list is well formed exactly if the
        timer's links fit. */
    method AddTimer(timer: UtilTimer?) returns (ghost k: nat)
      requires Valid() && (timer != null ==> timer !in nodes)
      modifies this, nodes`next, nodes`prev
      modifies (if timer == null then {} else {timer})`next, (if timer == null then {} else {timer})`prev
      ensures Valid() <==> timer == null || old(LinksFit(timer))
      ensures timer == null ==> nodes == old(nodes)
      ensures timer != null ==> k <= |old(nodes)| && nodes == With(old(nodes), k, timer) && Slot(old(nodes), k, timer)
    {
      hide Linked, Sorted, Slot, With;
      k := 0;
      if timer == null {
        return;
      }
      if head == null || timer.expire < head.expire {
        SlotBetween(nodes, 0, timer);
        AddFront(timer);
        return;
      }
      k := AddAfter(timer, head, 0);
    }

    /** The two branches that make the timer the head. */
    method AddFront(timer: UtilTimer)
      requires Valid() && timer !in nodes && Slot(nodes, 0, timer)
      modifies this, nodes`prev, timer`next
      ensures nodes == With(old(nodes), 0, timer)
      ensures Valid() <==> timer.prev == null && (old(nodes) == [] ==> old(timer.next) == null)
    {
      hide Linked, Sorted, Slot, With;
      WithStaysSorted(nodes, 0, timer);
      WithAt(nodes, 0, timer);
      LinkInFront(timer, head, nodes);
      if head == null {
        tail := timer;
      }
      head := timer;
      nodes := With(nodes, 0, timer);
    }

    /** Inserts in the part of the list behind `first`, which stands at h and is due no later. */
    method AddAfter(timer: UtilTimer, first: UtilTimer, ghost h: nat) returns (ghost k: nat)
      requires Valid() && timer !in nodes
      requires h < |nodes| && nodes[h] == first && first.expire <= timer.expire
      modifies this, nodes`next, nodes`prev, timer`next, timer`prev
      ensures Valid()
      ensures k <= |old(nodes)| && nodes == With(old(nodes), k, timer) && Slot(old(nodes), k, timer)
    {
      hide Linked, Sorted, Slot;
      var before, tmp;
      before, tmp, k := FindSlot(timer, first, h);
      InsertAt(before, timer, tmp, k);
    }

    /** Inserting where the timer belongs keeps the order. */
    method InsertAt(before: UtilTimer, timer: UtilTimer, after: UtilTimer?, ghost k: nat)
      requires Valid() && timer !in nodes && k <= |nodes| && Slot(nodes, k, timer)
      requires before == Predecessor(nodes, k) && after == if k < |nodes| then nodes[k] else null
      modifies this, nodes`next, nodes`prev, timer`next, timer`prev
      ensures Valid() && nodes == With(old(nodes), k, timer) && Slot(old(nodes), k, timer)
    {
      hide Linked, Sorted, Slot;
      WithStaysSorted(nodes, k, timer);
      Splice(before, timer, after, k);
    }

    /** Walks on from `first` to the first node that is due later. */
    method FindSlot(timer: UtilTimer, first: UtilTimer, ghost h: nat)
      returns (before: UtilTimer, tmp: UtilTimer?, ghost k: nat)
      requires Valid() && h < |nodes| && nodes[h] == first && first.expire <= timer.expire
      ensures Slot(nodes, k, timer) && 0 < k <= |nodes| && before == nodes[k - 1]
      ensures tmp == if k < |nodes| then nodes[k] else null
    {
      hide Linked, Sorted, Slot;
      before := first;
      tmp := before.next;
      k := h + 1;
      NodeAt(nodes, h);
      while tmp != null && tmp.expire <= timer.expire
        invariant h < k <= |nodes| && before == nodes[k - 1] && before.expire <= timer.expire
        invariant tmp == if k < |nodes| then nodes[k] else null
        decreases |nodes| - k
      {
        NodeAt(nodes, k);
        before := tmp;
        tmp := tmp.next;
        k := k + 1;
      }
      SlotBetween(nodes, k, timer);
    }

    /** The pointer surgery of every removal. The links of the removed node itself go stale. */
    method Unlink(timer: UtilTimer, ghost k: nat)
      requires Shaped() && k < |nodes| && nodes[k] == timer
      modifies this, nodes`next, nodes`prev
      ensures Shaped() && nodes == Without(old(nodes), k)
    {
      hide Linked, Predecessor, Successor, Without, Collections.Distinct;
      NodeAt(nodes, k);
      WithoutAt(nodes, k);
      Bypass(timer, nodes, k);
      if timer == head {
        head := timer.next;
      }
      if timer == tail {
        tail := timer.prev;
      }
      nodes := Without(nodes, k);
    }

    /** Moves a timer whose deadline has been raised since the list was sorted. */
    method AdjustTimer(timer: UtilTimer?, ghost k: nat) returns (ghost j: nat)
      requires timer == null ==> Valid()
      requires timer != null ==>
        && Shaped() && k < |nodes| && nodes[k] == timer && Sorted(Without(nodes, k))
        && forall i :: 0 <= i < k ==> nodes[i].expire <= timer.expire
      modifies this, nodes`next, nodes`prev
      ensures Valid()
      ensures timer == null ==> nodes == old(nodes)
      ensures timer != null ==>
        && Slot(Without(old(nodes), k), j, timer)
        && nodes == With(Without(old(nodes), k), j, timer)
    {
      hide Linked, Sorted, Slot, With, Without;
      j := k;
      if timer == null {
        return;
      }
      NodeAt(nodes, k);
      var tmp := timer.next;
      if tmp == null || timer.expire < tmp.expire {
        StaysPut(nodes, k);
        TakeOutPutBack(nodes, k);
        WithStaysSorted(Without(nodes, k), k, timer);
        return;
      }
      WithoutAt(nodes, k);
      LinkedDistinct(nodes, k);
      Unlink(timer, k);
      j := AddAfter(timer, tmp, k);
    }

    method DelTimer(timer: UtilTimer?, ghost k: nat)
      requires Valid() && (timer != null ==> k < |nodes| && nodes[k] == timer)
      modifies this, nodes`next, nodes`prev
      ensures Valid()
      ensures nodes == if timer == null then old(nodes) else Without(old(nodes), k)
    {
      hide Linked, Sorted, Without;
      if timer != null {
        ghost var shorter := Without(nodes, k);
        WithoutStaysSorted(nodes, k);
        assert Sorted(shorter);
        Unlink(timer, k);
      }
    }

    /** Fires the due timers from the front, in list order; whoever is left is due later. */
    method Tick(cur: int) returns (fired: seq<UtilTimer>)
      requires Valid()
      modifies this, nodes`prev
      ensures Valid() && fired + nodes == old(nodes)
      ensures forall i :: 0 <= i < |fired| ==> fired[i].expire <= cur
      ensures forall i :: 0 <= i < |nodes| ==> cur < nodes[i].expire
    {
      hide Linked, Sorted;
      fired := [];
      while head != null && head.expire <= cur
        invariant Valid() && |fired| <= |old(nodes)|
        invariant fired == old(nodes)[..|fired|] && nodes == old(nodes)[|fired|..]
        invariant forall i :: 0 <= i < |fired| ==> fired[i].expire <= cur
        decreases |nodes|
      {
        MoveFront(old(nodes), |fired|);
        fired := fired + [head];
        PopFront();
      }
      forall i | 0 <= i < |nodes| ensures cur < nodes[i].expire {
        FrontIsLeast(nodes, i);
      }
    }

    method PopFront()
      requires Valid() && nodes != []
      modifies this, nodes`prev
      ensures Valid() && nodes == old(nodes)[1..]
    {
      hide Linked, Sorted;
      NodeAt(nodes, 0);
      TailStaysSorted(nodes);
      CutFront(head, nodes);
      head := head.next;
      nodes := nodes[1..];
    }
  }

  /** What is left of a chain without its first node. */
  method CutFront(first: UtilTimer, ghost ns: seq<UtilTimer>)
    requires Linked(ns) && ns != [] && ns[0] == first
    modifies ns`prev
    ensures Linked(ns[1..]) && first.next == old(first.next)
  {
    if first.next != null {
      first.next.prev := null;
    }
  }

  lemma TailStaysSorted(ns: seq<UtilTimer>)
    requires Sorted(ns) && ns != []
    ensures Sorted(ns[1..])
  {
  }
}
