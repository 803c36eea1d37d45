/**
 The binary min-heap of lib/heap_sort.c, seen as the sequence of its nodes in level order.

 `Attach`, `Detach` and `Delete` say what the pointer code does to that sequence, swap by swap; the
 lemmas say what that is worth.  `TimerHeap` proves the pointer code against these functions.
 */
module HeapOrder {

  datatype Entry<T> = Entry(item: T, key: nat)

  function Parent(i: nat): (p: nat)
    requires 0 < i
    ensures p < i && (i == 2 * p + 1 || i == 2 * p + 2)
  {
    (i - 1) / 2
  }

  function Swap<T>(s: seq<T>, i: nat, j: nat): (r: seq<T>)
    requires i < |s| && j < |s|
  {
    s[i := s[j]][j := s[i]]
  }

  lemma SwapPermutes<T>(s: seq<T>, i: nat, j: nat)
    requires i < |s| && j < |s|
    ensures multiset(Swap(s, i, j)) == multiset(s)
  {
  }

  /** The edge from node `i` to its parent is in order. */
  predicate Edge<T>(s: seq<Entry<T>>, i: nat)
    requires i < |s|
  {
    i > 0 ==> s[Parent(i)].key <= s[i].key
  }

  ghost predicate HeapOrdered<T>(s: seq<Entry<T>>) {
    forall i {:trigger Edge(s, i)} :: 0 <= i < |s| ==> Edge(s, i)
  }

  /**
   The child that the code swaps with node `c`: the smaller one, if it is below node `c`; `c` itself when there is
   none.
   */
  function Smaller<T>(s: seq<Entry<T>>, c: nat): (r: nat)
    requires c < |s|
    ensures r < |s| && (r == c || r == 2 * c + 1 || r == 2 * c + 2)
    ensures r != c ==> s[r].key < s[c].key
    ensures 2 * c + 1 < |s| ==> s[r].key <= s[2 * c + 1].key
    ensures 2 * c + 2 < |s| ==> s[r].key <= s[2 * c + 2].key
  {
    var l, r := 2 * c + 1, 2 * c + 2;
    var leftIsSmaller := l < |s| && s[l].key < s[c].key;
    var rightIsSmaller := r < |s| && (if leftIsSmaller then s[r].key < s[l].key else s[r].key < s[c].key);
    if rightIsSmaller then r else if leftIsSmaller then l else c
  }

  /** The loop of attach_heap_node from node `c` upwards. */
  function SiftUp<T>(s: seq<Entry<T>>, c: nat): (r: seq<Entry<T>>)
    requires c < |s|
    ensures |r| == |s|
    decreases c
  {
    var m := Smaller(s, c);
    if m == c then s
    else if c == 0 then Swap(s, c, m)
    else SiftUp(Swap(s, c, m), Parent(c))
  }

  /** The loop of adjust_heap_node from node `c` downwards. */
  function SiftDown<T>(s: seq<Entry<T>>, c: nat): (r: seq<Entry<T>>)
    requires c < |s|
    ensures |r| == |s|
    decreases |s| - c
  {
    var m := Smaller(s, c);
    if m == c then s else SiftDown(Swap(s, c, m), m)
  }

  function Attach<T>(s: seq<Entry<T>>, x: Entry<T>): (r: seq<Entry<T>>)
    ensures |r| == |s| + 1
  {
    if s == [] then [x] else SiftUp(s + [x], Parent(|s|))
  }

  /** What is left when the first node is detached. */
  function Detach<T>(s: seq<Entry<T>>): (r: seq<Entry<T>>)
    requires s != []
    ensures |r| == |s| - 1
  {
    Delete(s, 0)
  }

  /** What is left when node `i` is deleted: the last node takes its place and sinks. */
  function Delete<T>(s: seq<Entry<T>>, i: nat): (r: seq<Entry<T>>)
    requires i < |s|
    ensures |r| == |s| - 1
  {
    var last := |s| - 1;
    if i == last then s[..last] else SiftDown(s[..last][i := s[last]], i)
  }

  // ---------------------------------------------------------------- contents

  lemma {:induction false} SiftUpPermutes<T>(s: seq<Entry<T>>, c: nat)
    requires c < |s|
    ensures multiset(SiftUp(s, c)) == multiset(s)
    decreases c
  {
    var m := Smaller(s, c);
    SwapPermutes(s, c, m);
    if m != c && c != 0 {
      SiftUpPermutes(Swap(s, c, m), Parent(c));
    }
  }

  lemma {:induction false} SiftDownPermutes<T>(s: seq<Entry<T>>, c: nat)
    requires c < |s|
    ensures multiset(SiftDown(s, c)) == multiset(s)
    decreases |s| - c
  {
    var m := Smaller(s, c);
    SwapPermutes(s, c, m);
    if m != c {
      SiftDownPermutes(Swap(s, c, m), m);
    }
  }

  lemma AttachAdds<T>(s: seq<Entry<T>>, x: Entry<T>)
    ensures multiset(Attach(s, x)) == multiset(s) + multiset{x}
  {
    if s != [] {
      SiftUpPermutes(s + [x], Parent(|s|));
    }
  }

  /** Deleting node `i` removes exactly that node. */
  lemma DeleteRemoves<T>(s: seq<Entry<T>>, i: nat)
    requires i < |s|
    ensures multiset(Delete(s, i)) == multiset(s) - multiset{s[i]}
  {
    var last := |s| - 1;
    assert s == s[..last] + [s[last]];
    if i != last {
      var t := s[..last][i := s[last]];
      SiftDownPermutes(t, i);
      assert multiset(t) == multiset(s[..last]) - multiset{s[i]} + multiset{s[last]};
    }
  }

  // ---------------------------------------------------------------- order

  ghost predicate OrderedBut<T>(s: seq<Entry<T>>, e: nat) {
    forall i {:trigger Edge(s, i)} :: 0 <= i < |s| && i != e ==> Edge(s, i)
  }

  /** The children of `e` are not below the parent of `e`. */
  ghost predicate Bridged<T>(s: seq<Entry<T>>, e: nat)
    requires e < |s|
  {
    e > 0 ==>
      && (2 * e + 1 < |s| ==> s[Parent(e)].key <= s[2 * e + 1].key)
      && (2 * e + 2 < |s| ==> s[Parent(e)].key <= s[2 * e + 2].key)
  }

  /** Sifting up mends the one edge above node `e`. */
  lemma {:induction false} SiftUpOrders<T>(s: seq<Entry<T>>, e: nat)
    requires 0 < e < |s| && OrderedBut(s, e) && Bridged(s, e)
    ensures HeapOrdered(SiftUp(s, Parent(e)))
    decreases e
  {
    var c := Parent(e);
    var m := Smaller(s, c);
    if m == c {
      assert Edge(s, e);
    } else {
      assert m != e ==> Edge(s, m);
      SwapUpOrders(s, e);
      if c != 0 {
        SiftUpOrders(Swap(s, c, e), c);
      }
    }
  }

  lemma SwapUpOrders<T>(s: seq<Entry<T>>, e: nat)
    requires 0 < e < |s| && OrderedBut(s, e) && Bridged(s, e) && s[e].key < s[Parent(e)].key
    ensures OrderedBut(Swap(s, Parent(e), e), Parent(e))
    ensures Bridged(Swap(s, Parent(e), e), Parent(e))
    ensures Parent(e) == 0 ==> HeapOrdered(Swap(s, Parent(e), e))
  {
    var c := Parent(e);
    var t := Swap(s, c, e);
    assert c > 0 ==> Edge(s, c);
    forall i | 0 <= i < |t| && i != c
      ensures Edge(t, i)
    {
      if i > 0 && i != e {
        assert Edge(s, i);
      }
    }
    forall j | c > 0 && (j == 2 * c + 1 || j == 2 * c + 2) && j < |s|
      ensures t[Parent(c)].key <= t[j].key
    {
      if j != e {
        assert Edge(s, j);
      }
    }
    assert Edge(t, 0);
  }

  /** Attaching keeps the heap in order. */
  lemma AttachKeepsOrder<T>(s: seq<Entry<T>>, x: Entry<T>)
    requires HeapOrdered(s)
    ensures HeapOrdered(Attach(s, x))
  {
    if s != [] {
      var t := s + [x];
      forall i | 0 <= i < |t| && i != |s|
        ensures Edge(t, i)
      {
        assert Edge(s, i);
      }
      SiftUpOrders(t, |s|);
    }
  }

  /** All edges are in order except those below node `c`. */
  ghost predicate OrderedAbove<T>(s: seq<Entry<T>>, c: nat) {
    forall i {:trigger Edge(s, i)} :: 0 <= i < |s| && !(i > 0 && Parent(i) == c) ==> Edge(s, i)
  }

  /** Sifting down mends the edges below node `c`. */
  lemma {:induction false} SiftDownOrders<T>(s: seq<Entry<T>>, c: nat)
    requires c < |s| && OrderedAbove(s, c) && Bridged(s, c)
    ensures HeapOrdered(SiftDown(s, c))
    decreases |s| - c
  {
    var m := Smaller(s, c);
    if m == c {
      forall i | 0 <= i < |s|
        ensures Edge(s, i)
      {
        assert !(i > 0 && Parent(i) == c) ==> Edge(s, i);
      }
    } else {
      SwapDownOrders(s, c);
      SiftDownOrders(Swap(s, c, m), m);
    }
  }

  lemma SwapDownOrders<T>(s: seq<Entry<T>>, c: nat)
    requires c < |s| && OrderedAbove(s, c) && Bridged(s, c) && Smaller(s, c) != c
    ensures OrderedAbove(Swap(s, c, Smaller(s, c)), Smaller(s, c)) && Bridged(Swap(s, c, Smaller(s, c)), Smaller(s, c))
  {
    var m := Smaller(s, c);
    var t := Swap(s, c, m);
    forall i | 0 <= i < |t| && !(i > 0 && Parent(i) == m)
      ensures Edge(t, i)
    {
      if i > 0 && Parent(i) != c {
        assert Edge(s, i);
      }
    }
    forall j | (j == 2 * m + 1 || j == 2 * m + 2) && j < |s|
      ensures t[Parent(m)].key <= t[j].key
    {
      assert Parent(j) == m;
      assert Edge(s, j);
    }
  }

  /**
   Deleting node `i` keeps the heap in order exactly when the last node is not below the parent of node `i`:
   the code only sifts down.
   */
  lemma DeleteKeepsOrderIff<T>(s: seq<Entry<T>>, i: nat)
    requires HeapOrdered(s) && i < |s|
    ensures HeapOrdered(Delete(s, i)) <==> i == 0 || s[Parent(i)].key <= s[|s| - 1].key
  {
    var last := |s| - 1;
    if i == last {
      assert Edge(s, last);
      forall j | 0 <= j < last
        ensures Edge(s[..last], j)
      {
        assert Edge(s, j);
      }
    } else {
      var t := s[..last][i := s[last]];
      forall j | (j == 2 * i + 1 || j == 2 * i + 2) && j < |s|
        ensures s[i].key <= s[j].key && (i > 0 ==> s[Parent(i)].key <= s[j].key)
      {
        assert Edge(s, j) && Edge(s, i);
        assert Parent(j) == i;
      }
      if i == 0 || s[Parent(i)].key <= s[last].key {
        forall j | 0 <= j < |t| && !(j > 0 && Parent(j) == i)
          ensures Edge(t, j)
        {
          assert Edge(s, j);
        }
        SiftDownOrders(t, i);
      } else {
        assert SiftDown(t, i) == t;
        assert !Edge(t, i);
      }
    }
  }

  lemma DetachKeepsOrder<T>(s: seq<Entry<T>>)
    requires HeapOrdered(s) && s != []
    ensures HeapOrdered(Detach(s))
    ensures multiset(Detach(s)) == multiset(s) - multiset{s[0]}
  {
    DeleteKeepsOrderIff(s, 0);
    DeleteRemoves(s, 0);
  }

  /** The root of an ordered heap has the least key. */
  lemma {:induction false} RootIsLeast<T>(s: seq<Entry<T>>, i: nat)
    requires HeapOrdered(s) && i < |s|
    ensures s[0].key <= s[i].key
    decreases i
  {
    if i > 0 {
      assert Edge(s, i);
      RootIsLeast(s, Parent(i));
    }
  }

  ghost predicate Sorted<T>(s: seq<Entry<T>>) {
    forall i, j :: 0 <= i < j < |s| ==> s[i].key <= s[j].key
  }

  /** Detach until the heap is empty. */
  function Drain<T>(s: seq<Entry<T>>): (r: seq<Entry<T>>)
    decreases |s|
  {
    if s == [] then [] else [s[0]] + Drain(Detach(s))
  }

  lemma {:induction false} DrainPermutes<T>(s: seq<Entry<T>>)
    ensures multiset(Drain(s)) == multiset(s)
    decreases |s|
  {
    if s != [] {
      DeleteRemoves(s, 0);
      DrainPermutes(Detach(s));
      assert s[0] in multiset(s);
    }
  }

  lemma ConsSorted<T>(s: seq<Entry<T>>, t: seq<Entry<T>>)
    requires HeapOrdered(s) && s != [] && Sorted(t) && multiset(t) <= multiset(s)
    ensures Sorted([s[0]] + t)
  {
    forall j | 0 <= j < |t|
      ensures s[0].key <= t[j].key
    {
      MemberNotBelowRoot(s, t, t[j]);
    }
  }

  /** Draining an ordered heap yields its entries in nondecreasing key order. */
  lemma {:induction false} DrainSorts<T>(s: seq<Entry<T>>)
    requires HeapOrdered(s)
    ensures Sorted(Drain(s)) && multiset(Drain(s)) == multiset(s)
    decreases |s|
  {
    DrainPermutes(s);
    if s != [] {
      DetachKeepsOrder(s);
      DrainSorts(Detach(s));
      ConsSorted(s, Drain(Detach(s)));
    }
  }

  lemma MemberNotBelowRoot<T>(s: seq<Entry<T>>, r: seq<Entry<T>>, e: Entry<T>)
    requires HeapOrdered(s) && s != [] && multiset(r) <= multiset(s) && e in r
    ensures s[0].key <= e.key
  {
    assert e in multiset(r);
    assert e in s;
    var i :| 0 <= i < |s| && s[i] == e;
    RootIsLeast(s, i);
  }

  // ---------------------------------------------------------------- due entries

  /** The loop of schedule_timer: detach while the root is due.  Yields what is fired, in order, and what is left. */
  function FireDue<T>(s: seq<Entry<T>>, now: nat): (r: (seq<Entry<T>>, seq<Entry<T>>))
    decreases |s|
  {
    if s == [] || s[0].key > now then ([], s)
    else var r := FireDue(Detach(s), now); ([s[0]] + r.0, r.1)
  }

  lemma NoneDue<T>(s: seq<Entry<T>>, now: nat)
    ensures s == [] || s[0].key > now ==> FireDue(s, now) == ([], s)
  {
  }

  lemma {:induction false} FireDueConserves<T>(s: seq<Entry<T>>, now: nat)
    ensures multiset(FireDue(s, now).0) + multiset(FireDue(s, now).1) == multiset(s)
    decreases |s|
  {
    if s != [] && s[0].key <= now {
      DeleteRemoves(s, 0);
      FireDueConserves(Detach(s), now);
      assert s[0] in multiset(s);
      var r := FireDue(Detach(s), now);
      assert FireDue(s, now) == ([s[0]] + r.0, r.1);
      assert multiset(s) == multiset{s[0]} + multiset(Detach(s));
      assert multiset([s[0]] + r.0) == multiset{s[0]} + multiset(r.0);
    }
  }

  lemma {:induction false} FireDueBounds<T>(s: seq<Entry<T>>, now: nat)
    requires HeapOrdered(s)
    ensures HeapOrdered(FireDue(s, now).1)
    ensures forall i :: 0 <= i < |FireDue(s, now).0| ==> FireDue(s, now).0[i].key <= now
    ensures forall i :: 0 <= i < |FireDue(s, now).1| ==> now < FireDue(s, now).1[i].key
    decreases |s|
  {
    if s == [] {
    } else if s[0].key > now {
      forall i | 0 <= i < |s|
        ensures now < s[i].key
      {
        RootIsLeast(s, i);
      }
    } else {
      DetachKeepsOrder(s);
      FireDueBounds(Detach(s), now);
    }
  }

  lemma {:induction false} FireDueSorted<T>(s: seq<Entry<T>>, now: nat)
    requires HeapOrdered(s)
    ensures Sorted(FireDue(s, now).0)
    decreases |s|
  {
    if s != [] && s[0].key <= now {
      DetachKeepsOrder(s);
      FireDueSorted(Detach(s), now);
      FireDueConserves(Detach(s), now);
      assert multiset(FireDue(Detach(s), now).0) <= multiset(Detach(s)) <= multiset(s);
      ConsSorted(s, FireDue(Detach(s), now).0);
    }
  }

  /** In an ordered heap exactly the due entries are fired, each as often as it is there, earliest first. */
  lemma FireDueExact<T>(s: seq<Entry<T>>, now: nat)
    requires HeapOrdered(s)
    ensures Sorted(FireDue(s, now).0) && HeapOrdered(FireDue(s, now).1)
    ensures forall i :: 0 <= i < |FireDue(s, now).0| ==> FireDue(s, now).0[i].key <= now
    ensures forall i :: 0 <= i < |FireDue(s, now).1| ==> now < FireDue(s, now).1[i].key
    ensures multiset(FireDue(s, now).0) + multiset(FireDue(s, now).1) == multiset(s)
  {
    FireDueConserves(s, now);
    FireDueBounds(s, now);
    FireDueSorted(s, now);
  }

  /** One call of the timer module. */
  datatype Step<T> = Register(entry: Entry<T>) | Tick(now: nat)

  /** The heap and everything fired so far, with the time of firing. */
  datatype Log<T> = Log(heap: seq<Entry<T>>, fired: seq<Entry<T>>, times: seq<nat>)

  function Act<T>(l: Log<T>, step: Step<T>): Log<T> {
    match step
    case Register(e) => l.(heap := Attach(l.heap, e))
    case Tick(now) =>
      var r := FireDue(l.heap, now);
      Log(r.1, l.fired + r.0, l.times + seq(|r.0|, _ => now))
  }

  function Run<T>(l: Log<T>, steps: seq<Step<T>>): Log<T> {
    if steps == [] then l else Act(Run(l, steps[..|steps| - 1]), steps[|steps| - 1])
  }

  ghost function Registered<T>(steps: seq<Step<T>>): multiset<Entry<T>> {
    if steps == [] then multiset{}
    else
      var m := Registered(steps[..|steps| - 1]);
      if steps[|steps| - 1].Register? then m + multiset{steps[|steps| - 1].entry} else m
  }

  /** Fired and waiting entries together are the registered ones, and nothing fires before its time. */
  ghost predicate Accounted<T>(l: Log<T>, registered: multiset<Entry<T>>) {
    && HeapOrdered(l.heap)
    && |l.times| == |l.fired| && (forall i :: 0 <= i < |l.fired| ==> l.fired[i].key <= l.times[i])
    && multiset(l.fired) + multiset(l.heap) == registered
  }

  /** What step `j` leaves waiting is not due, if that step is a tick. */
  ghost predicate OnTime<T>(steps: seq<Step<T>>, j: nat)
    requires j < |steps|
  {
    steps[j].Tick? ==> forall e :: e in Run(Log([], [], []), steps[..j + 1]).heap ==> e.key > steps[j].now
  }

  /**
   Over every run of registrations and ticks no timer is lost, fired twice, fired early or late: whatever was
   registered and is due is fired by the next tick.
   */
  lemma RunsAccount<T>(steps: seq<Step<T>>)
    ensures Accounted(Run(Log([], [], []), steps), Registered(steps))
    ensures forall j :: 0 <= j < |steps| ==> OnTime(steps, j)
  {
    hide Accounted, Run, Act;
    RunsConserve(steps);
    forall j | 0 <= j < |steps|
      ensures OnTime(steps, j)
    {
      TickInTime(steps, j);
    }
  }

  lemma {:induction false} RunsConserve<T>(steps: seq<Step<T>>)
    ensures Accounted(Run(Log([], [], []), steps), Registered(steps))
    decreases |steps|
  {
    hide Accounted, Act;
    if steps == [] {
      NothingYet<T>();
    } else {
      var n := |steps| - 1;
      RunsConserve(steps[..n]);
      ActAccounts(Run(Log([], [], []), steps[..n]), Registered(steps[..n]), steps[n]);
    }
  }

  lemma NothingYet<T>()
    ensures Accounted<T>(Log([], [], []), multiset{})
  {
  }

  lemma TickInTime<T>(steps: seq<Step<T>>, j: nat)
    requires j < |steps|
    ensures OnTime(steps, j)
  {
    hide Accounted, Act;
    RunsConserve(steps[..j]);
    ActAccounts(Run(Log([], [], []), steps[..j]), Registered(steps[..j]), steps[j]);
    assert steps[..j + 1][..j] == steps[..j];
  }

  lemma ActAccounts<T>(l: Log<T>, registered: multiset<Entry<T>>, step: Step<T>)
    requires Accounted(l, registered)
    ensures Accounted(Act(l, step), if step.Register? then registered + multiset{step.entry} else registered)
    ensures step.Tick? ==> forall i :: 0 <= i < |Act(l, step).heap| ==> Act(l, step).heap[i].key > step.now
  {
    match step
    case Register(e) =>
      AttachAdds(l.heap, e);
      AttachKeepsOrder(l.heap, e);
    case Tick(now) =>
      FireDueExact(l.heap, now);
      var r := FireDue(l.heap, now);
      assert multiset(l.fired + r.0) + multiset(r.1) == multiset(l.fired) + (multiset(r.0) + multiset(r.1));
  }

  function Keys(ks: seq<nat>): seq<Entry<nat>> {
    seq(|ks|, i requires 0 <= i < |ks| => Entry(ks[i], ks[i]))
  }

  /**
   Cancelling can make another timer late: in the heap that registering these keys in order gives, deleting the node
   of key 11 moves key 4 below key 10, and the tick at time 4 stops at key 10 with key 4 still waiting.
   */
  lemma CancelCanDelayTimer()
    ensures var ks := [1, 10, 2, 11, 12, 50, 4];
            var s := Run(Log([], [], []), Registrations(ks)).heap;
            s == Keys(ks) && HeapOrdered(s) && FireDue(Delete(s, 3), 4).1 == Keys([10, 4, 50, 12])
  {
    BuiltInOrder([1, 10, 2, 11, 12, 50, 4]);
    DeletedHeap();
  }

  function Registrations(ks: seq<nat>): seq<Step<nat>> {
    seq(|ks|, i requires 0 <= i < |ks| => Register(Entry(ks[i], ks[i])))
  }

  /** Registering the keys of an ordered heap in level order builds that heap. */
  lemma {:induction false} BuiltInOrder(ks: seq<nat>)
    requires forall i :: 0 < i < |ks| ==> ks[Parent(i)] <= ks[i]
    ensures Run(Log([], [], []), Registrations(ks)).heap == Keys(ks)
    decreases |ks|
  {
    hide Attach, HeapOrdered;
    if ks != [] {
      var n := |ks| - 1;
      BuiltInOrder(ks[..n]);
      LastRegistered(ks);
      KeysOrdered(ks[..n]);
      AttachStays(Keys(ks[..n]), Entry(ks[n], ks[n]));
    }
  }

  lemma LastRegistered(ks: seq<nat>)
    requires ks != []
    ensures var n := |ks| - 1;
            && Keys(ks[..n]) + [Entry(ks[n], ks[n])] == Keys(ks)
            && Run(Log([], [], []), Registrations(ks)).heap ==
               Attach(Run(Log([], [], []), Registrations(ks[..n])).heap, Entry(ks[n], ks[n]))
  {
    hide Attach;
    assert Registrations(ks)[..|ks| - 1] == Registrations(ks[..|ks| - 1]);
  }

  lemma KeysOrdered(ks: seq<nat>)
    requires forall i :: 0 < i < |ks| ==> ks[Parent(i)] <= ks[i]
    ensures HeapOrdered(Keys(ks))
  {
  }

  /** A key not below its parent's stays where it is appended. */
  lemma AttachStays<T>(s: seq<Entry<T>>, x: Entry<T>)
    requires HeapOrdered(s) && (s != [] ==> s[Parent(|s|)].key <= x.key)
    ensures Attach(s, x) == s + [x]
  {
    if s != [] {
      var p := Parent(|s|);
      assert 2 * p + 1 < |s| ==> Edge(s, 2 * p + 1);
      assert Smaller(s + [x], p) == p;
    }
  }

  lemma DeletedHeap()
    ensures var s := Keys([1, 10, 2, 11, 12, 50, 4]);
            HeapOrdered(s) && FireDue(Delete(s, 3), 4).1 == Keys([10, 4, 50, 12])
  {
    var s := Keys([1, 10, 2, 11, 12, 50, 4]);
    forall i | 0 <= i < |s|
      ensures Edge(s, i)
    {
    }
    var d := Keys([1, 10, 2, 4, 12, 50]);
    assert s[..6][3 := s[6]] == d;
    assert Delete(s, 3) == d;
    var e := Keys([2, 10, 50, 4, 12]);
    assert d[..5][0 := d[5]] == Keys([50, 10, 2, 4, 12]);
    assert Swap(Keys([50, 10, 2, 4, 12]), 0, 2) == e;
    assert SiftDown(e, 2) == e;
    assert Detach(d) == e;
    assert e[..4][0 := e[4]] == Keys([12, 10, 50, 4]);
    assert Swap(Keys([12, 10, 50, 4]), 0, 1) == Keys([10, 12, 50, 4]);
    assert Swap(Keys([10, 12, 50, 4]), 1, 3) == Keys([10, 4, 50, 12]);
    assert SiftDown(Keys([10, 4, 50, 12]), 3) == Keys([10, 4, 50, 12]);
    assert SiftDown(Keys([10, 12, 50, 4]), 1) == Keys([10, 4, 50, 12]);
    assert Detach(e) == Keys([10, 4, 50, 12]);
  }
}
