/** The heap and the sorted list are two forms of one thing: equal deadlines in, equal deadlines out. */
module TimerAgreement {
  import opened Collections
  import opened TimerHeap
  import opened TimerList

  function ListDeadlines(ns: seq<UtilTimer>): (r: seq<int>)
    reads ns`expire
    ensures |r| == |ns| && forall i :: 0 <= i < |ns| ==> r[i] == ns[i].expire
  {
    if ns == [] then [] else ListDeadlines(ns[..|ns| - 1]) + [ns[|ns| - 1].expire]
  }

  lemma WithoutFirst<T>(s: seq<T>)
    requires s != []
    ensures multiset(s[1..]) == multiset(s) - multiset{s[0]}
  {
    assert s == [s[0]] + s[1..];
  }

  lemma WithoutOne<T>(s: seq<T>, k: nat)
    requires k < |s|
    ensures multiset(s[..k] + s[k + 1..]) == multiset(s) - multiset{s[k]}
  {
    assert s == s[..k] + [s[k]] + s[k + 1..];
  }

  /** Rearranging timers rearranges their deadlines. */
  lemma {:induction false} DeadlinesOfPermutation(a: Timers, b: Timers)
    requires multiset(a) == multiset(b)
    ensures multiset(Deadlines(a)) == multiset(Deadlines(b))
    decreases |a|
  {
    SameLength(a, b);
    if a != [] {
      assert a[0] in multiset(b);
      var k :| 0 <= k < |b| && b[k] == a[0];
      var rest := b[..k] + b[k + 1..];
      WithoutFirst(a);
      WithoutOne(b, k);
      DeadlinesOfPermutation(a[1..], rest);
      DeadlinesWithout(a, b, k);
      PutBack(Deadlines(a), Deadlines(b), k);
    }
  }

  lemma DeadlinesWithout(a: Timers, b: Timers, k: nat)
    requires a != [] && k < |b|
    ensures Deadlines(a[1..]) == Deadlines(a)[1..]
    ensures Deadlines(b[..k] + b[k + 1..]) == Deadlines(b)[..k] + Deadlines(b)[k + 1..]
  {
  }

  /** Equal remainders of the removal of one value come from equal collections. */
  lemma PutBack(c: seq<int>, d: seq<int>, k: nat)
    requires c != [] && k < |d| && c[0] == d[k]
    requires multiset(c[1..]) == multiset(d[..k] + d[k + 1..])
    ensures multiset(c) == multiset(d)
  {
    assert c == [c[0]] + c[1..];
    assert d == d[..k] + [d[k]] + d[k + 1..];
  }

  lemma FirstIsLeast(a: seq<int>, b: seq<int>)
    requires Rising(a) && multiset(a) == multiset(b) && a != [] && b != []
    ensures a[0] <= b[0]
  {
    assert b[0] in multiset(a);
    var j :| 0 <= j < |a| && a[j] == b[0];
  }

  lemma {:induction false} RisingIsUnique(a: seq<int>, b: seq<int>)
    requires Rising(a) && Rising(b) && multiset(a) == multiset(b)
    ensures a == b
    decreases |a|
  {
    assert |multiset(a)| == |a| && |multiset(b)| == |b|;
    if a != [] {
      FirstIsLeast(a, b);
      FirstIsLeast(b, a);
      WithoutFirst(a);
      WithoutFirst(b);
      RisingIsUnique(a[1..], b[1..]);
      assert a == [a[0]] + a[1..] && b == [b[0]] + b[1..];
    }
  }

  /** A collection splits into what is due and what is not in one way only. */
  lemma SplitIsUnique(out: seq<int>, rest: seq<int>, out': seq<int>, rest': seq<int>, cur: int)
    requires multiset(out) + multiset(rest) == multiset(out') + multiset(rest')
    requires AtMost(out, cur) && AtMost(out', cur) && Above(rest, cur) && Above(rest', cur)
    ensures multiset(out) == multiset(out') && multiset(rest) == multiset(rest')
  {
    forall d: int
      ensures multiset(out)[d] == multiset(out')[d] && multiset(rest)[d] == multiset(rest')[d]
    {
      assert (multiset(out) + multiset(rest))[d] == (multiset(out') + multiset(rest'))[d];
      if d <= cur {
        assert d !in rest && d !in rest';
        assert d !in multiset(rest) && d !in multiset(rest');
      } else {
        assert d !in out && d !in out';
        assert d !in multiset(out) && d !in multiset(out');
      }
    }
  }

  lemma DeadlinesConcat(a: Timers, b: Timers)
    ensures Deadlines(a + b) == Deadlines(a) + Deadlines(b)
  {
  }

  /** What the two ticks leave behind, compared as values. */
  lemma TicksAgree(held: Timers, removed: Timers, kept: Timers, fired: seq<int>, left: seq<int>, cur: int)
    requires multiset(Deadlines(held)) == multiset(fired + left) && Rising(fired + left)
    requires multiset(removed) + multiset(kept) == multiset(held)
    requires AtMost(Deadlines(removed), cur) && Above(Deadlines(kept), cur) && Rising(Deadlines(removed))
    requires AtMost(fired, cur) && Above(left, cur)
    ensures Deadlines(removed) == fired && multiset(Deadlines(kept)) == multiset(left)
  {
    assert multiset(removed + kept) == multiset(held);
    DeadlinesOfPermutation(removed + kept, held);
    DeadlinesConcat(removed, kept);
    SplitIsUnique(Deadlines(removed), Deadlines(kept), fired, left, cur);
    assert forall i :: 0 <= i < |fired| ==> (fired + left)[i] == fired[i];
    RisingIsUnique(Deadlines(removed), fired);
  }

  /** The list's tick in terms of deadlines. */
  method ListTick(list: SortedTimerList, cur: int) returns (fired: seq<UtilTimer>)
    requires list.Valid()
    modifies list, list.nodes`prev
    ensures list.Valid() && fired + list.nodes == old(list.nodes)
    ensures ListDeadlines(fired) + ListDeadlines(list.nodes) == old(ListDeadlines(list.nodes))
    ensures Rising(old(ListDeadlines(list.nodes)))
    ensures AtMost(ListDeadlines(fired), cur) && Above(ListDeadlines(list.nodes), cur)
  {
    hide TimerList.Linked, TimerList.Sorted, ListDeadlines, Collections.Rising;
    RisenDeadlines(list.nodes);
    fired := list.Tick(cur);
    ListDeadlinesConcat(fired, list.nodes);
  }

  /** The same tick on both containers: the same deadlines leave, in the same order, and the same ones stay. */
  method TickBoth(heap: TimeHeap, list: SortedTimerList, cur: int) returns (removed: Timers, fired: seq<UtilTimer>)
    requires heap.Valid() && list.Valid()
    requires multiset(Deadlines(heap.contents)) == multiset(ListDeadlines(list.nodes))
    modifies heap`curSize, heap`contents, heap.slots, list, list.nodes`prev
    ensures heap.Valid() && list.Valid()
    ensures Deadlines(removed) == ListDeadlines(fired)
    ensures multiset(Deadlines(heap.contents)) == multiset(ListDeadlines(list.nodes))
  {
    hide TimerList.Linked, TimerList.Sorted, TimerHeap.Ordered, TimerHeap.Deadlines, ListDeadlines;
    hide Collections.Rising, Collections.AtMost, Collections.Above;
    ghost var held, listed := heap.contents, ListDeadlines(list.nodes);
    fired := ListTick(list, cur);
    ghost var out, left := ListDeadlines(fired), ListDeadlines(list.nodes);
    var ok, called;
    ok, removed, called := heap.Tick(cur);
    TicksAgree(held, removed, heap.contents, out, left, cur);
  }

  lemma RisenDeadlines(ns: seq<UtilTimer>)
    requires TimerList.Sorted(ns)
    ensures Rising(ListDeadlines(ns))
  {
  }

  lemma ListDeadlinesConcat(a: seq<UtilTimer>, b: seq<UtilTimer>)
    ensures ListDeadlines(a + b) == ListDeadlines(a) + ListDeadlines(b)
  {
  }
}
