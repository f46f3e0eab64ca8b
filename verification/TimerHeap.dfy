/** The timer heap: an array in which no timer is due before its parent. */
module TimerHeap {
  import opened Collections

  /** A timer; `active` is whether `cb_func` is still set. */
  class HeapTimer {
    const expire: int
    var active: bool

    constructor (expire: int)
      ensures this.expire == expire && active
    {
      this.expire, active := expire, true;
    }
  }

  // ---------- heap order on sequences ----------

  type Timers = seq<HeapTimer>

  function Parent(i: int): int
    requires i >= 1
    ensures 0 <= Parent(i) < i
  {
    (i - 1) / 2
  }

  /** Order holds below every position from `start` on. */
  ghost predicate Ordered(s: Timers, start: nat) {
    forall i :: 1 <= i < |s| && start <= Parent(i) ==> s[Parent(i)].expire <= s[i].expire
  }

  /** Order may fail only between `hole` and its children, which are no earlier than the hole's parent. */
  ghost predicate OrderedBut(s: Timers, start: nat, hole: nat) {
    && (forall i :: 1 <= i < |s| && start <= Parent(i) && Parent(i) != hole ==> s[Parent(i)].expire <= s[i].expire)
    && (forall i :: 1 <= i < |s| && Parent(i) == hole && hole >= 1 && start <= Parent(hole) ==>
          s[Parent(hole)].expire <= s[i].expire)
  }

  function Swap(s: Timers, i: nat, j: nat): Timers
    requires i < |s| && j < |s|
  {
    s[i := s[j]][j := s[i]]
  }

  lemma SwapKeepsMultiset(s: Timers, i: nat, j: nat)
    requires i < |s| && j < |s|
    ensures multiset(Swap(s, i, j)) == multiset(s)
  {
  }

  lemma SwapAt(s: Timers, i: nat, j: nat)
    requires i < |s| && j < |s|
    ensures |Swap(s, i, j)| == |s| && Swap(s, i, j)[i] == s[j] && Swap(s, i, j)[j] == s[i]
    ensures forall k :: 0 <= k < |s| && k != i && k != j ==> Swap(s, i, j)[k] == s[k]
  {
  }

  /** Percolating down by one: the earlier child moves up into the hole. */
  lemma DownStep(s: Timers, start: nat, hole: nat, child: nat)
    requires start <= hole < |s| && 1 <= child < |s| && Parent(child) == hole
    requires OrderedBut(s, start, hole) && s[child].expire < s[hole].expire
    requires forall i :: 1 <= i < |s| && Parent(i) == hole ==> s[child].expire <= s[i].expire
    ensures OrderedBut(Swap(s, hole, child), start, child)
  {
    var t := Swap(s, hole, child);
    forall i | 1 <= i < |t| && start <= Parent(i) && Parent(i) != child
      ensures t[Parent(i)].expire <= t[i].expire
    {
      if Parent(i) != hole {
        assert t[Parent(i)] == s[Parent(i)];
      }
    }
  }

  lemma NoChildren(s: Timers, h: nat)
    requires h * 2 + 1 >= |s|
    ensures forall i :: 1 <= i < |s| ==> Parent(i) != h
  {
  }

  lemma DownDone(s: Timers, start: nat, hole: nat)
    requires start <= hole && OrderedBut(s, start, hole)
    requires forall i :: 1 <= i < |s| && Parent(i) == hole ==> s[hole].expire <= s[i].expire
    ensures Ordered(s, start)
  {
  }

  /** Order may fail only between `hole` and its parent; the hole's children are no earlier than that parent. */
  ghost predicate OrderedAbove(s: Timers, hole: nat) {
    && (forall i :: 1 <= i < |s| && i != hole ==> s[Parent(i)].expire <= s[i].expire)
    && (forall i :: 1 <= i < |s| && Parent(i) == hole && hole >= 1 ==> s[Parent(hole)].expire <= s[i].expire)
  }

  /** Percolating up by one: the parent moves down into the hole. */
  lemma UpStep(s: Timers, hole: nat)
    requires 1 <= hole < |s| && OrderedAbove(s, hole) && s[hole].expire < s[Parent(hole)].expire
    ensures OrderedAbove(Swap(s, hole, Parent(hole)), Parent(hole))
  {
    var p := Parent(hole);
    var t := Swap(s, hole, p);
    forall i | 1 <= i < |t| && i != p ensures t[Parent(i)].expire <= t[i].expire {
      if Parent(i) == p && i != hole {
        assert s[p].expire <= s[i].expire;
      } else if Parent(i) == hole {
        assert t[hole] == s[p];
      }
    }
  }

  lemma UpDone(s: Timers, hole: nat)
    requires OrderedAbove(s, hole) && (1 <= hole < |s| ==> s[Parent(hole)].expire <= s[hole].expire)
    ensures Ordered(s, 0)
  {
  }

  /** The root of a heap is due first. */
  lemma {:induction false} RootIsLeast(s: Timers, i: nat)
    requires Ordered(s, 0) && i < |s|
    ensures s[0].expire <= s[i].expire
  {
    if i > 0 {
      RootIsLeast(s, Parent(i));
    }
  }

  lemma SameLength(s: Timers, t: Timers)
    requires multiset(s) == multiset(t)
    ensures |s| == |t|
  {
    assert |multiset(s)| == |s| && |multiset(t)| == |t|;
  }

  /** What `pop_timer` leaves for percolation: the last timer takes the root's place. */
  function LastToRoot(s: Timers): (r: Timers)
    requires s != []
    ensures |r| == |s| - 1
  {
    if |s| == 1 then [] else s[..|s| - 1][0 := s[|s| - 1]]
  }

  lemma LastToRootLosesRoot(s: Timers)
    requires s != []
    ensures multiset(LastToRoot(s)) == multiset(s) - multiset{s[0]}
  {
    var n := |s|;
    assert s == [s[0]] + s[1..];
    if n > 1 {
      assert s[1..] == s[1..n - 1] + [s[n - 1]];
      assert LastToRoot(s) == [s[n - 1]] + s[1..n - 1];
    }
  }

  lemma LastToRootAt(s: Timers)
    requires s != []
    ensures forall i :: 1 <= i < |s| - 1 ==> LastToRoot(s)[i] == s[i]
    ensures |s| > 1 ==> LastToRoot(s)[0] == s[|s| - 1]
  {
  }

  lemma LastToRootOrder(s: Timers)
    requires s != [] && Ordered(s, 0)
    ensures OrderedBut(LastToRoot(s), 0, 0) && (|s| == 1 ==> Ordered(LastToRoot(s), 0))
  {
    var r := LastToRoot(s);
    assert forall i :: 1 <= i < |r| ==> r[i] == s[i];
  }

  function Deadlines(s: Timers): (r: seq<int>)
    ensures |r| == |s| && forall i :: 0 <= i < |s| ==> r[i] == s[i].expire
  {
    seq(|s|, i requires 0 <= i < |s| => s[i].expire)
  }

  /** The timers of s whose callback is still set. */
  function Active(s: Timers): Timers
    reads s
  {
    if s == [] then []
    else Active(s[..|s| - 1]) + if s[|s| - 1].active then [s[|s| - 1]] else []
  }

  lemma ActiveAppend(s: Timers, t: HeapTimer)
    ensures Active(s + [t]) == Active(s) + if t.active then [t] else []
  {
    assert (s + [t])[..|s|] == s;
  }

  class TimeHeap {
    var slots: array<HeapTimer?>
    var curSize: nat
    ghost var contents: Timers

    /** The used part of the array holds the contents. */
    ghost predicate Holds(s: Timers)
      reads this, slots
    {
      curSize == |s| <= slots.Length && forall i :: 0 <= i < |s| ==> slots[i] == s[i]
    }

    ghost predicate Valid()
      reads this, slots
    {
      Holds(contents) && Ordered(contents, 0)
    }

    constructor (capacity: nat)
      ensures Valid() && contents == [] && slots.Length == capacity && fresh(slots)
    {
      slots := new HeapTimer?[capacity](_ => null);
      curSize, contents := 0, [];
    }

    /** The constructor from an array: null stands for the exception when the capacity is too small. */
    static method FromArray(init: Timers, capacity: nat) returns (h: TimeHeap?)
      ensures h == null <==> capacity < |init|
      ensures h != null ==>
        && fresh(h) && fresh(h.slots) && h.Valid() && h.slots.Length == capacity
        && multiset(h.contents) == multiset(init)
    {
      if capacity < |init| {
        return null;
      }
      h := new TimeHeap(capacity);
      forall i | 0 <= i < |init| {
        h.slots[i] := init[i];
      }
      h.curSize := |init|;
      ghost var s := init;
      if |init| > 0 {
        var i := (|init| - 1) / 2 + 1;
        while i > 0
          invariant 0 <= i <= |init| == |s| && fresh(h) && fresh(h.slots) && h.slots.Length == capacity
          invariant h.Holds(s) && Ordered(s, i) && multiset(s) == multiset(init)
        {
          i := i - 1;
          s := h.PercolateDown(i, s, i);
          SameLength(s, init);
        }
      }
      h.contents := s;
    }

    /** The loop of `percolate_down`: from the hole, which holds s[hole], until order is restored. */
    method PercolateDown(hole: nat, ghost s: Timers, ghost start: nat) returns (ghost t: Timers)
      requires Holds(s) && start <= hole < |s| && OrderedBut(s, start, hole)
      modifies slots
      ensures Holds(t) && Ordered(t, start) && multiset(t) == multiset(s)
    {
      hide OrderedBut, Ordered, Swap;
      t := s;
      var temp: HeapTimer := slots[hole];
      var h := hole;
      while h * 2 + 1 <= curSize - 1
        invariant start <= h < |t| == |s| == curSize <= slots.Length
        invariant t[h] == temp && OrderedBut(t, start, h) && multiset(t) == multiset(s)
        invariant forall i :: 0 <= i < |t| && i != h ==> slots[i] == t[i]
        decreases |t| - h
      {
        var child := EarlierChild(h, t);
        if slots[child].expire >= temp.expire {
          break;
        }
        slots[h] := slots[child];
        DownStep(t, start, h, child);
        SwapKeepsMultiset(t, h, child);
        SwapAt(t, h, child);
        t := Swap(t, h, child);
        h := child;
      }
      slots[h] := temp;
      DownDone(t, start, h) by {
        if h * 2 + 1 > curSize - 1 {
          NoChildren(t, h);
        }
      }
    }

    method EarlierChild(h: nat, ghost t: Timers) returns (child: nat)
      requires h * 2 + 1 < |t| == curSize <= slots.Length
      requires forall i :: 0 <= i < |t| && i != h ==> slots[i] == t[i]
      ensures 1 <= child < |t| && Parent(child) == h
      ensures forall i :: 1 <= i < |t| && Parent(i) == h ==> t[child].expire <= t[i].expire
    {
      child := h * 2 + 1;
      if child < curSize - 1 && slots[child + 1].expire < slots[child].expire {
        child := child + 1;
      }
      assert forall i :: 1 <= i < |t| && Parent(i) == h ==> i == h * 2 + 1 || i == h * 2 + 2;
    }

    /** Doubles the array. */
    method Resize()
      requires Holds(contents)
      modifies this`slots
      ensures Holds(contents) && slots.Length == 2 * old(slots.Length) && fresh(slots)
    {
      var temp := new HeapTimer?[2 * slots.Length](_ => null);
      forall i | 0 <= i < curSize {
        temp[i] := slots[i];
      }
      slots := temp;
    }

    /** Adds a timer. Doubling a capacity of zero leaves no room: the source then writes past its array, and
        `ok` says that it does not come to that. */
    method AddTimer(timer: HeapTimer?) returns (ok: bool)
      requires Valid()
      modifies this, slots
      ensures Valid() && (slots == old(slots) || fresh(slots))
      ensures ok <==> timer == null || old(slots.Length) > 0
      ensures slots.Length > 0 <==> old(slots.Length) > 0
      ensures timer == null || !ok ==> contents == old(contents)
      ensures timer != null && ok ==> multiset(contents) == multiset(old(contents)) + multiset{timer}
    {
      if timer == null {
        return true;
      }
      if curSize >= slots.Length {
        Resize();
        if curSize >= slots.Length {
          return false;
        }
      }
      ghost var t: Timers := contents + [timer];
      curSize := curSize + 1;
      t := PercolateUp(timer, t);
      contents := t;
      ok := true;
    }

    /** The loop of `add_timer`: from the new last position towards the root. */
    method PercolateUp(timer: HeapTimer, ghost s: Timers) returns (ghost t: Timers)
      requires 0 < |s| == curSize <= slots.Length && s[|s| - 1] == timer && OrderedAbove(s, |s| - 1)
      requires forall i :: 0 <= i < |s| - 1 ==> slots[i] == s[i]
      modifies slots
      ensures Holds(t) && Ordered(t, 0) && multiset(t) == multiset(s)
    {
      hide OrderedAbove, Ordered, Swap;
      t := s;
      var hole: nat := curSize - 1;
      while hole > 0
        invariant hole < |t| == |s| == curSize <= slots.Length
        invariant t[hole] == timer && OrderedAbove(t, hole) && multiset(t) == multiset(s)
        invariant forall i :: 0 <= i < |t| && i != hole ==> slots[i] == t[i]
      {
        var parent := (hole - 1) / 2;
        assert parent == Parent(hole);
        if slots[parent].expire <= timer.expire {
          break;
        }
        slots[hole] := slots[parent];
        UpStep(t, hole);
        SwapKeepsMultiset(t, hole, parent);
        SwapAt(t, hole, parent);
        t := Swap(t, hole, parent);
        hole := parent;
      }
      slots[hole] := timer;
      UpDone(t, hole);
    }

    /** Deletes lazily: the timer stays in the heap without its callback. */
    method DelTimer(timer: HeapTimer?)
      requires Valid()
      modifies if timer == null then {} else {timer}
      ensures Valid() && contents == old(contents) && (timer != null ==> !timer.active)
    {
      if timer != null {
        timer.active := false;
      }
    }

    /** Removes the root. */
    method PopTimer()
      requires Valid()
      modifies this`curSize, this`contents, slots
      ensures Valid()
      ensures old(contents) == [] ==> contents == []
      ensures old(contents) != [] ==>
        multiset(contents) == multiset(old(contents)) - multiset{old(contents)[0]} && |contents| == |old(contents)| - 1
    {
      hide Ordered, OrderedBut, LastToRoot;
      if curSize == 0 {
        return;
      }
      ghost var r := LastToRoot(contents);
      LastToRootAt(contents);
      LastToRootLosesRoot(contents);
      LastToRootOrder(contents);
      curSize := curSize - 1;
      slots[0] := slots[curSize];
      if curSize > 0 {
        r := PercolateDown(0, r, 0);
      }
      contents := r;
    }

    /** Removes every due timer, earliest first, and calls those that were not deleted. The source looks at
        `array[0]` first, which a heap of capacity zero does not have. */
    method Tick(cur: int) returns (ok: bool, removed: Timers, called: Timers)
      requires Valid()
      modifies this`curSize, this`contents, slots
      ensures ok <==> slots.Length > 0
      ensures Valid() && multiset(removed) + multiset(contents) == multiset(old(contents))
      ensures AtMost(Deadlines(removed), cur) && Above(Deadlines(contents), cur) && Rising(Deadlines(removed))
      ensures called == Active(removed)
    {
      hide Ordered, TickedSoFar, Active, Collections.Above, Deadlines;
      ok, removed, called := slots.Length > 0, [], [];
      ghost var held := contents;
      NothingYet(held, cur);
      while ok && curSize > 0 && slots[0].expire <= cur
        invariant Valid() && TickedSoFar(held, removed, contents, cur) && called == Active(removed)
        decreases curSize
      {
        var root: HeapTimer := slots[0];
        ActiveAppend(removed, root);
        if root.active {
          called := called + [root];
        }
        PopDue(held, removed, cur);
        removed := removed + [root];
      }
      NothingDue(contents, cur);
      TickedAll(held, removed, contents, cur);
    }

    /** One removal of a tick. */
    method PopDue(ghost held: Timers, ghost removed: Timers, cur: int)
      requires Valid() && contents != [] && contents[0].expire <= cur && TickedSoFar(held, removed, contents, cur)
      modifies this`curSize, this`contents, slots
      ensures Valid() && |contents| == |old(contents)| - 1
      ensures TickedSoFar(held, removed + [old(contents)[0]], contents, cur)
    {
      hide Ordered, TickedSoFar;
      ghost var before := contents;
      PopTimer();
      TickTurn(held, removed, before, contents, cur);
    }

    /** The loop that an owner of timers runs to add them: a heap made with capacity zero takes none, any other
        takes them all. */
    static method AddAll(capacity: nat, timers: Timers) returns (h: TimeHeap, accepted: nat)
      ensures fresh(h) && h.Valid()
      ensures accepted == if capacity > 0 then |timers| else 0
      ensures multiset(h.contents) == multiset(timers[..accepted])
    {
      h := new TimeHeap(capacity);
      accepted := 0;
      for i := 0 to |timers|
        invariant fresh(h) && fresh(h.slots) && h.Valid() && (h.slots.Length > 0 <==> capacity > 0)
        invariant accepted == if capacity > 0 then i else 0
        invariant multiset(h.contents) == multiset(timers[..accepted])
      {
        hide Ordered;
        var ok := h.AddTimer(timers[i]);
        if ok {
          assert timers[..i + 1] == timers[..i] + [timers[i]];
          accepted := accepted + 1;
        }
      }
    }
  }

  /** Nothing is due in a heap whose root is not. */
  lemma NothingDue(s: Timers, cur: int)
    requires Ordered(s, 0) && (s == [] || cur < s[0].expire)
    ensures Above(Deadlines(s), cur)
  {
    forall i | 0 <= i < |s| ensures cur < Deadlines(s)[i] {
      RootIsLeast(s, i);
    }
  }

  ghost predicate NoLater(s: Timers, t: Timers) {
    forall i, j :: 0 <= i < |s| && 0 <= j < |t| ==> s[i].expire <= t[j].expire
  }

  /** What a tick has removed so far, and what it has left. */
  ghost predicate TickedSoFar(held: Timers, removed: Timers, left: Timers, cur: int) {
    && AtMost(Deadlines(removed), cur) && Rising(Deadlines(removed)) && NoLater(removed, left)
    && multiset(removed) + multiset(left) == multiset(held)
  }

  lemma NothingYet(held: Timers, cur: int)
    ensures TickedSoFar(held, [], held, cur) && Active([]) == []
  {
  }

  lemma TickedAll(held: Timers, removed: Timers, left: Timers, cur: int)
    requires TickedSoFar(held, removed, left, cur)
    ensures AtMost(Deadlines(removed), cur) && Rising(Deadlines(removed))
    ensures multiset(removed) + multiset(left) == multiset(held)
  {
  }

  /** One turn of the loop of `tick`. */
  lemma TickTurn(held: Timers, removed: Timers, before: Timers, after: Timers, cur: int)
    requires before != [] && Ordered(before, 0) && before[0].expire <= cur
    requires multiset(after) == multiset(before) - multiset{before[0]} && TickedSoFar(held, removed, before, cur)
    ensures TickedSoFar(held, removed + [before[0]], after, cur)
  {
    var root := before[0];
    Popped(before, after, root);
    forall i, j | 0 <= i < |removed| && 0 <= j < |after| ensures removed[i].expire <= after[j].expire {
      var k :| 0 <= k < |before| && before[k] == after[j];
    }
  }

  /** What is left after a pop was there before, and is due no earlier than the root. */
  lemma Popped(before: Timers, after: Timers, root: HeapTimer)
    requires before != [] && before[0] == root && Ordered(before, 0)
    requires multiset(after) == multiset(before) - multiset{root}
    ensures forall j :: 0 <= j < |after| ==> after[j] in before && root.expire <= after[j].expire
    ensures multiset(before) == multiset{root} + multiset(after)
  {
    forall j | 0 <= j < |after| ensures after[j] in before && root.expire <= after[j].expire {
      assert after[j] in multiset(after);
      assert after[j] in multiset(before);
      var i :| 0 <= i < |before| && before[i] == after[j];
      RootIsLeast(before, i);
    }
  }
}
