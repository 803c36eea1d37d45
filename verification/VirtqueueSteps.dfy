/**
 The split virtqueue of network/virtio_net.c (sections 2.4.5, 2.4.6 and 2.4.8 of VIRTIO 1.0) as a
 machine of driver steps and device steps.

 The counters run freely here; the program keeps them modulo 65536.  The driver stages descriptors in
 the available ring and then publishes them by moving its index; the device fetches published ones and
 later returns each through the used ring; the driver reclaims what was returned.
 */
module VirtqueueSteps {
  import opened Common

  /** A buffer handed to the driver: its descriptor and the pointer that identifies it to the caller. */
  datatype Buffer = Buffer(addr: nat, len: nat, flags: nat, pointer: nat)

  datatype UsedElem = UsedElem(id: nat, len: nat)

  /**
   `free`: descriptors the driver may use.  `table`: what each descriptor says.  `held`: fetched by the device,
   not yet returned.  The rest is history: every buffer accepted so far, the one each busy descriptor carries,
   and the ones given back to the caller.
   */
  datatype Queue = Queue(
    size: nat, table: seq<Buffer>, avail: seq<nat>, used: seq<UsedElem>,
    staged: nat, published: nat, fetched: nat, returned: nat, reclaimed: nat,
    free: seq<nat>, held: multiset<nat>,
    sent: seq<Buffer>, owner: map<nat, nat>, delivered: seq<nat>)

  // ---------------------------------------------------------------- windows of a ring

  function Slot(ring: seq<nat>, k: nat): nat
    requires ring != []
  {
    ring[k % |ring|]
  }

  /** The ring entries with running numbers lo to hi. */
  function Window(ring: seq<nat>, lo: nat, hi: nat): (w: seq<nat>)
    requires ring != [] && lo <= hi
    ensures |w| == hi - lo
  {
    seq<nat>(hi - lo, k requires 0 <= k < hi - lo => Slot(ring, lo + k))
  }

  lemma ModApart(k: nat, h: nat, n: nat)
    requires 0 < h - k < n
    ensures k % n != h % n
  {
    var q := h / n - k / n;
    assert h - k == q * n + (h % n - k % n);
    if q >= 1 {
      MulAtLeast(q, n);
    } else if q <= -1 {
      MulAtLeast(-q, n);
    }
  }

  lemma WindowPush(ring: seq<nat>, lo: nat, hi: nat, x: nat)
    requires ring != [] && lo <= hi && hi - lo < |ring|
    ensures Window(ring[hi % |ring| := x], lo, hi) == Window(ring, lo, hi)
    ensures Window(ring[hi % |ring| := x], lo, hi + 1) == Window(ring, lo, hi) + [x]
  {
    var r := ring[hi % |ring| := x];
    forall k: nat | lo <= k < hi
      ensures Slot(r, k) == Slot(ring, k)
    {
      ModApart(k, hi, |ring|);
    }
    assert Slot(r, hi) == x;
  }

  lemma WindowPop(ring: seq<nat>, lo: nat, hi: nat)
    requires ring != [] && lo < hi
    ensures Window(ring, lo, hi) == [Slot(ring, lo)] + Window(ring, lo + 1, hi)
  {
  }

  function UsedIds(used: seq<UsedElem>): (s: seq<nat>)
    ensures |s| == |used|
  {
    seq<nat>(|used|, k requires 0 <= k < |used| => used[k].id)
  }

  // ---------------------------------------------------------------- invariant

  ghost function Numbers(n: nat): (s: set<nat>)
    ensures |s| == n && forall i: nat :: i in s <==> i < n
  {
    if n == 0 then {} else Numbers(n - 1) + {n - 1}
  }

  /** Section 2.4 of VIRTIO 1.0. */
  predicate QueueSize(n: nat) {
    0 < n <= 32768 && PowerOfTwo(n)
  }

  ghost function Total(a: seq<nat>, b: seq<nat>, c: multiset<nat>, d: seq<nat>): multiset<nat> {
    multiset(a) + multiset(b) + c + multiset(d)
  }

  /** One descriptor moves on. */
  lemma Moves(x: nat, a: seq<nat>, b: seq<nat>, c: multiset<nat>, d: seq<nat>)
    ensures Total([x] + a, b, c, d) == Total(a, b + [x], c, d)
    ensures Total(a, [x] + b, c, d) == Total(a, b, c + multiset{x}, d)
    ensures Total(a, b, c + multiset{x}, d) == Total(a, b, c, d + [x])
    ensures Total(a, b, c, [x] + d) == Total(a + [x], b, c, d)
  {
  }

  /**
   Where every descriptor is: free, in the available ring and not fetched, held, or in the used ring and not
   reclaimed.
   */
  ghost function Places(q: Queue): multiset<nat>
    requires q.avail != [] && q.used != [] && q.fetched <= q.staged && q.reclaimed <= q.returned
  {
    Total(q.free, Window(q.avail, q.fetched, q.staged), q.held, Window(UsedIds(q.used), q.reclaimed, q.returned))
  }

  ghost predicate Shape(q: Queue) {
    && QueueSize(q.size)
    && |q.table| == q.size && |q.avail| == q.size && |q.used| == q.size
    && q.fetched <= q.published <= q.staged && q.reclaimed <= q.returned
  }

  /** Descriptor `id` carries the buffer it was given. */
  predicate Carries(q: Queue, id: nat)
    requires id in q.owner
  {
    id < |q.table| && q.owner[id] < |q.sent| && q.table[id] == q.sent[q.owner[id]]
  }

  ghost predicate Owners(q: Queue) {
    && (forall id: nat :: id in q.owner <==> id < q.size && id !in q.free)
    && (forall id {:trigger Carries(q, id)} :: id in q.owner ==> Carries(q, id))
    && (forall i, j :: i in q.owner && j in q.owner && i != j ==> q.owner[i] != q.owner[j])
  }

  ghost predicate Inv(q: Queue) {
    && Shape(q)
    && Places(q) == multiset(Numbers(q.size))
    && Owners(q)
    && multiset(q.delivered) + multiset(q.owner.Values) == multiset(Numbers(|q.sent|))
  }

  /** No more descriptors are anywhere than there are. */
  lemma Counts(q: Queue)
    requires Inv(q)
    ensures |q.free| + (q.staged - q.fetched) + |q.held| + (q.returned - q.reclaimed) == q.size
  {
    assert |Places(q)| == |q.free| + (q.staged - q.fetched) + |q.held| + (q.returned - q.reclaimed);
  }

  // ---------------------------------------------------------------- steps

  function Init(size: nat): Queue {
    Queue(size, seq(size, _ => Buffer(0, 0, 0, 0)), seq(size, _ => 0), seq(size, _ => UsedElem(0, 0)),
          0, 0, 0, 0, 0, seq<nat>(size, i requires 0 <= i < size => i), multiset{}, [], map[], [])
  }

  /** One turn of the loop in virtio_net_device_raw_send. */
  function Stage(q: Queue, b: Buffer): Queue
    requires Shape(q) && q.free != [] && q.free[0] < q.size
  {
    var id := q.free[0];
    q.(free := q.free[1..], table := q.table[id := b],
       avail := q.avail[q.staged % q.size := id], staged := q.staged + 1,
       sent := q.sent + [b], owner := q.owner[id := |q.sent|])
  }

  /** The move of avail->idx that ends virtio_net_device_raw_send. */
  function Publish(q: Queue): Queue {
    q.(published := q.staged)
  }

  /** The device takes the next published descriptor. */
  function Fetch(q: Queue): Queue
    requires Shape(q) && q.fetched < q.published
  {
    q.(held := q.held + multiset{Slot(q.avail, q.fetched)}, fetched := q.fetched + 1)
  }

  /** The device returns a descriptor that it holds. */
  function Return(q: Queue, e: UsedElem): Queue
    requires Shape(q) && e.id in q.held
  {
    q.(held := q.held - multiset{e.id}, used := q.used[q.returned % q.size := e], returned := q.returned + 1)
  }

  /** One turn of the loop in virtio_net_device_raw_receive. */
  function Reclaim(q: Queue): Queue
    requires Shape(q) && q.reclaimed < q.returned && q.used[q.reclaimed % q.size].id in q.owner
  {
    var id := q.used[q.reclaimed % q.size].id;
    q.(free := q.free + [id], reclaimed := q.reclaimed + 1,
       delivered := q.delivered + [q.owner[id]], owner := q.owner - {id})
  }

  /** Every descriptor is in exactly one place. */
  lemma OnePlace(q: Queue, id: nat)
    requires Inv(q)
    ensures multiset(q.free)[id] + multiset(Window(q.avail, q.fetched, q.staged))[id] + q.held[id]
            + multiset(Window(UsedIds(q.used), q.reclaimed, q.returned))[id] == if id < q.size then 1 else 0
  {
    assert Places(q)[id] == multiset(Numbers(q.size))[id];
  }

  lemma FreeAt(q: Queue, id: nat)
    requires Inv(q) && id in q.free
    ensures id < q.size && id !in q.held && id !in q.owner && multiset(q.free)[id] == 1
  {
    OnePlace(q, id);
  }

  lemma HeldAt(q: Queue, id: nat)
    requires Inv(q) && id in q.held
    ensures id < q.size && id !in q.free && id in q.owner
  {
    OnePlace(q, id);
    assert id in q.free ==> id in multiset(q.free);
  }

  /** A busy descriptor is not free. */
  lemma BusyAt(q: Queue, id: nat)
    requires Inv(q)
    requires id in Window(q.avail, q.fetched, q.staged) || id in Window(UsedIds(q.used), q.reclaimed, q.returned)
    ensures id < q.size && id !in q.free && id !in q.held && id in q.owner
  {
    OnePlace(q, id);
    assert id in q.free ==> id in multiset(q.free);
  }

  /** The oldest descriptor that the driver has not reclaimed. */
  lemma ReclaimAt(q: Queue)
    requires Inv(q) && q.reclaimed < q.returned
    ensures var id := q.used[q.reclaimed % q.size].id; id < q.size && id !in q.free && id !in q.held && id in q.owner
  {
    var w := Window(UsedIds(q.used), q.reclaimed, q.returned);
    assert w[0] == Slot(UsedIds(q.used), q.reclaimed) == q.used[q.reclaimed % q.size].id;
    BusyAt(q, w[0]);
  }

  lemma ConsCount(x: nat, s: seq<nat>)
    ensures multiset([x] + s) == multiset{x} + multiset(s) && multiset(s + [x]) == multiset{x} + multiset(s)
  {
  }

  lemma StageKeepsPlaces(q: Queue, b: Buffer)
    requires Inv(q) && q.free != [] && q.free[0] < q.size
    ensures Places(Stage(q, b)) == Places(q)
  {
    hide Owners, Total, PowerOfTwo, Window, Slot, UsedIds, Numbers;
    Counts(q);
    var id, w := q.free[0], Window(q.avail, q.fetched, q.staged);
    assert q.free == [id] + q.free[1..];
    WindowPush(q.avail, q.fetched, q.staged, id);
    Moves(id, q.free[1..], w, q.held, Window(UsedIds(q.used), q.reclaimed, q.returned));
  }

  lemma StageKeepsInv(q: Queue, b: Buffer)
    requires Inv(q) && q.free != []
    ensures q.free[0] < q.size && Inv(Stage(q, b))
  {
    FreeAt(q, q.free[0]);
    StageKeepsPlaces(q, b);
    StageKeepsOwners(q, b);
    StageKeepsHistory(q, b);
  }

  lemma StageKeepsOwners(q: Queue, b: Buffer)
    requires Inv(q) && q.free != [] && q.free[0] < q.size
    ensures Owners(Stage(q, b))
  {
    var id, r := q.free[0], Stage(q, b);
    RestOfFree(q);
    forall i | i in r.owner
      ensures Carries(r, i) && (i != id ==> r.owner[i] < |q.sent|)
    {
      assert i != id ==> Carries(q, i);
    }
  }

  lemma RestOfFree(q: Queue)
    requires Inv(q) && q.free != []
    ensures forall x :: x in q.free[1..] <==> x in q.free && x != q.free[0]
  {
    var id, rest := q.free[0], q.free[1..];
    FreeAt(q, id);
    assert q.free == [id] + rest;
    ConsCount(id, rest);
    assert id !in multiset(rest);
  }

  /** A new number for descriptor `id`. */
  lemma HistoryAdds(delivered: seq<nat>, owner: map<nat, nat>, id: nat, n: nat)
    requires id !in owner && n !in owner.Values && multiset(delivered) + multiset(owner.Values) == multiset(Numbers(n))
    ensures multiset(delivered) + multiset(owner[id := n].Values) == multiset(Numbers(n + 1))
  {
    hide Numbers;
    NumbersNext(n);
    NewValue(owner, id, n);
    AddOne(owner.Values, n);
    AddOne(Numbers(n), n);
  }

  lemma StageKeepsHistory(q: Queue, b: Buffer)
    requires Inv(q) && q.free != [] && q.free[0] < q.size
    ensures var r := Stage(q, b); multiset(r.delivered) + multiset(r.owner.Values) == multiset(Numbers(|r.sent|))
  {
    hide Places, PowerOfTwo, Numbers;
    FreeAt(q, q.free[0]);
    assert forall i :: i in q.owner ==> Carries(q, i);
    HistoryAdds(q.delivered, q.owner, q.free[0], |q.sent|);
  }

  lemma NumbersNext(n: nat)
    ensures Numbers(n + 1) == Numbers(n) + {n}
  {
  }

  lemma AddOne(s: set<nat>, n: nat)
    requires n !in s
    ensures multiset(s + {n}) == multiset(s) + multiset{n}
  {
  }

  lemma NewValue(m: map<nat, nat>, k: nat, v: nat)
    requires k !in m
    ensures m[k := v].Values == m.Values + {v}
  {
    var o := m[k := v];
    assert o[k] == v;
    forall w | w in m.Values
      ensures w in o.Values
    {
      var i :| i in m && m[i] == w;
      assert o[i] == w;
    }
  }

  lemma FetchKeepsPlaces(q: Queue)
    requires Shape(q) && q.fetched < q.published
    ensures Places(Fetch(q)) == Places(q)
  {
    WindowPop(q.avail, q.fetched, q.staged);
    Moves(Slot(q.avail, q.fetched), q.free, Window(q.avail, q.fetched + 1, q.staged), q.held,
          Window(UsedIds(q.used), q.reclaimed, q.returned));
  }

  lemma FetchKeepsInv(q: Queue)
    requires Inv(q) && q.fetched < q.published
    ensures Inv(Fetch(q))
  {
    FetchKeepsPlaces(q);
    KeepsOwners(q, Fetch(q));
  }

  lemma ReturnKeepsPlaces(q: Queue, e: UsedElem)
    requires Shape(q) && e.id in q.held && q.returned - q.reclaimed < q.size
    ensures Places(Return(q, e)) == Places(q)
  {
    var r := Return(q, e);
    WindowPush(UsedIds(q.used), q.reclaimed, q.returned, e.id);
    assert UsedIds(r.used) == UsedIds(q.used)[q.returned % q.size := e.id];
    assert q.held == r.held + multiset{e.id};
    Moves(e.id, q.free, Window(q.avail, q.fetched, q.staged), r.held, Window(UsedIds(q.used), q.reclaimed, q.returned));
  }

  lemma ReturnKeepsInv(q: Queue, e: UsedElem)
    requires Inv(q) && e.id in q.held
    ensures Inv(Return(q, e))
  {
    HeldAt(q, e.id);
    Counts(q);
    ReturnKeepsPlaces(q, e);
    KeepsOwners(q, Return(q, e));
  }

  lemma KeepsOwners(q: Queue, r: Queue)
    requires Owners(q) && r.owner == q.owner && r.table == q.table && r.sent == q.sent && r.free == q.free
    requires r.size == q.size
    ensures Owners(r)
  {
    forall i | i in r.owner
      ensures Carries(r, i)
    {
      assert Carries(q, i);
    }
  }

  lemma ReclaimKeepsPlaces(q: Queue)
    requires Inv(q) && q.reclaimed < q.returned && q.used[q.reclaimed % q.size].id in q.owner
    ensures Places(Reclaim(q)) == Places(q)
  {
    hide Owners, Total, PowerOfTwo, Window, Numbers;
    var id := q.used[q.reclaimed % q.size].id;
    WindowPop(UsedIds(q.used), q.reclaimed, q.returned);
    assert Slot(UsedIds(q.used), q.reclaimed) == id;
    Moves(id, q.free, Window(q.avail, q.fetched, q.staged), q.held,
          Window(UsedIds(q.used), q.reclaimed + 1, q.returned));
  }

  lemma ReclaimKeepsInv(q: Queue)
    requires Inv(q) && q.reclaimed < q.returned
    ensures q.used[q.reclaimed % q.size].id in q.owner && Inv(Reclaim(q))
  {
    ReclaimAt(q);
    ReclaimKeepsPlaces(q);
    var r := Reclaim(q);
    forall i | i in r.owner
      ensures Carries(r, i)
    {
      assert Carries(q, i);
    }
    ReclaimKeepsHistory(q);
  }

  lemma ReclaimKeepsHistory(q: Queue)
    requires Inv(q) && q.reclaimed < q.returned && q.used[q.reclaimed % q.size].id in q.owner
    ensures var r := Reclaim(q); multiset(r.delivered) + multiset(r.owner.Values) == multiset(Numbers(|r.sent|))
  {
    var id := q.used[q.reclaimed % q.size].id;
    var v := q.owner[id];
    var o := q.owner - {id};
    assert v in q.owner.Values;
    forall w | w in q.owner.Values && w != v
      ensures w in o.Values
    {
      var i :| i in q.owner && q.owner[i] == w;
      assert i in o && o[i] == w;
    }
    assert o.Values == q.owner.Values - {v};
    assert multiset(q.owner.Values) == multiset(o.Values) + multiset{v};
    ConsCount(v, q.delivered);
  }

  // ---------------------------------------------------------------- runs

  datatype Step = DoStage(buffer: Buffer) | DoPublish | DoFetch | DoReturn(elem: UsedElem) | DoReclaim

  /**
   A step that is not enabled changes nothing: the driver stops at an empty free ring, a conforming device fetches
   only what is published and returns only what it holds.
   */
  function Next(q: Queue, step: Step): Queue
    requires Inv(q)
  {
    match step
    case DoStage(b) => if q.free != [] then StageKeepsInv(q, b); Stage(q, b) else q
    case DoPublish => Publish(q)
    case DoFetch => if q.fetched < q.published then Fetch(q) else q
    case DoReturn(e) => if e.id in q.held then Return(q, e) else q
    case DoReclaim => if q.reclaimed < q.returned then ReclaimKeepsInv(q); Reclaim(q) else q
  }

  lemma PublishKeepsInv(q: Queue)
    requires Inv(q)
    ensures Inv(Publish(q))
  {
    KeepsOwners(q, Publish(q));
  }

  lemma NextKeepsInv(q: Queue, step: Step)
    requires Inv(q)
    ensures Inv(Next(q, step)) && Next(q, step).size == q.size && q.sent <= Next(q, step).sent
    ensures q.delivered <= Next(q, step).delivered
  {
    hide Places, PowerOfTwo;
    match step
    case DoStage(b) => if q.free != [] { StageKeepsInv(q, b); }
    case DoPublish => PublishKeepsInv(q);
    case DoFetch => if q.fetched < q.published { FetchKeepsInv(q); }
    case DoReturn(e) => if e.id in q.held { ReturnKeepsInv(q, e); }
    case DoReclaim => if q.reclaimed < q.returned { ReclaimKeepsInv(q); }
  }

  lemma InitInv(size: nat)
    requires QueueSize(size)
    ensures Inv(Init(size))
  {
    var q := Init(size);
    Identity(size);
    forall id: nat | id < size
      ensures id in q.free
    {
      assert q.free[id] == id;
    }
    assert multiset(q.free) == multiset(Numbers(size));
  }

  lemma IdentitySnoc(n: nat)
    ensures seq<nat>(n + 1, i requires 0 <= i < n + 1 => i) == seq<nat>(n, i requires 0 <= i < n => i) + [n]
  {
  }

  lemma {:induction false} Identity(n: nat)
    ensures multiset(seq<nat>(n, i requires 0 <= i < n => i)) == multiset(Numbers(n))
  {
    if n > 0 {
      var last: nat := n - 1;
      Identity(last);
      IdentitySnoc(last);
      AddOne(Numbers(last), last);
    }
  }

  lemma StageSteps(q: Queue, b: Buffer)
    requires Inv(q) && q.free != []
    ensures Shape(q) && q.free[0] < q.size && Next(q, DoStage(b)) == Stage(q, b) && Inv(Stage(q, b))
  {
    StageKeepsInv(q, b);
  }

  lemma ReclaimSteps(q: Queue)
    requires Inv(q) && q.reclaimed < q.returned
    ensures Shape(q)
    ensures var id := q.used[q.reclaimed % q.size].id;
            && id < q.size && id in q.owner && |q.free| < q.size
            && Next(q, DoReclaim) == Reclaim(q) && Inv(Reclaim(q))
            && q.owner[id] < |q.sent| && q.table[id] == q.sent[q.owner[id]]
  {
    ReclaimAt(q);
    Counts(q);
    ReclaimKeepsInv(q);
    assert Carries(q, q.used[q.reclaimed % q.size].id);
  }

  lemma PublishSteps(q: Queue)
    requires Inv(q)
    ensures Next(q, DoPublish) == Publish(q) && Inv(Publish(q))
  {
    NextKeepsInv(q, DoPublish);
  }

  /** The state reached from `q` by `steps`, in whatever order they come. */
  ghost function Exec(q: Queue, steps: seq<Step>): (r: Queue)
    requires Inv(q)
    ensures Inv(r) && r.size == q.size && q.sent <= r.sent && q.delivered <= r.delivered
  {
    if steps == [] then q
    else
      var p := Exec(q, steps[..|steps| - 1]);
      NextKeepsInv(p, steps[|steps| - 1]);
      Next(p, steps[|steps| - 1])
  }

  lemma ReturnSteps(q: Queue, e: UsedElem)
    requires Inv(q)
    ensures Shape(q)
    ensures if e.id in q.held then Next(q, DoReturn(e)) == Return(q, e) && Inv(Return(q, e))
            else Next(q, DoReturn(e)) == q
  {
    if e.id in q.held {
      ReturnKeepsInv(q, e);
    }
  }

  lemma FetchSteps(q: Queue)
    requires Inv(q)
    ensures Shape(q)
    ensures if q.fetched < q.published then Next(q, DoFetch) == Fetch(q) && Inv(Fetch(q)) else Next(q, DoFetch) == q
  {
    if q.fetched < q.published {
      FetchKeepsInv(q);
    }
  }

  lemma ExecNil(q: Queue)
    requires Inv(q)
    ensures Exec(q, []) == q
  {
  }

  lemma ExecSnoc(q: Queue, steps: seq<Step>, t: Step)
    requires Inv(q)
    ensures Exec(q, steps + [t]) == Next(Exec(q, steps), t)
  {
    assert (steps + [t])[..|steps|] == steps;
  }

  lemma {:induction false} ExecConcat(q: Queue, a: seq<Step>, b: seq<Step>)
    requires Inv(q)
    ensures Exec(q, a + b) == Exec(Exec(q, a), b)
    decreases |b|
  {
    hide Inv, Next;
    if b == [] {
      assert a + b == a;
    } else {
      var n := |b| - 1;
      ExecConcat(q, a, b[..n]);
      assert (a + b)[..|a + b| - 1] == a + b[..n];
    }
  }

  /** A step and what follows it. */
  lemma ExecTurn(q: Queue, a: seq<Step>, t: Step, b: seq<Step>)
    requires Inv(q)
    ensures Inv(Next(Exec(q, a), t)) && Exec(q, a + ([t] + b)) == Exec(Next(Exec(q, a), t), b)
  {
    hide Inv, Next, Exec;
    NextKeepsInv(Exec(q, a), t);
    ExecSnoc(q, a, t);
    ExecConcat(q, a + [t], b);
    assert a + ([t] + b) == a + [t] + b;
  }

  ghost function Run(size: nat, steps: seq<Step>): (q: Queue)
    requires QueueSize(size)
    ensures Inv(q) && q.size == size
  {
    InitInv(size);
    Exec(Init(size), steps)
  }

  /**
   After every interleaving of driver and device steps each descriptor is in exactly one place: free, staged,
   published, held by the device, or returned and not reclaimed.
   */
  lemma EachDescriptorInOnePlace(size: nat, steps: seq<Step>, id: nat)
    requires QueueSize(size)
    ensures var q := Run(size, steps);
            multiset(q.free)[id] + multiset(Window(q.avail, q.published, q.staged))[id]
            + multiset(Window(q.avail, q.fetched, q.published))[id] + q.held[id]
            + multiset(Window(UsedIds(q.used), q.reclaimed, q.returned))[id] == if id < size then 1 else 0
  {
    var q := Run(size, steps);
    OnePlace(q, id);
    WindowSplit(q.avail, q.fetched, q.published, q.staged);
  }

  lemma WindowSplit(ring: seq<nat>, lo: nat, mid: nat, hi: nat)
    requires ring != [] && lo <= mid <= hi
    ensures Window(ring, lo, hi) == Window(ring, lo, mid) + Window(ring, mid, hi)
  {
  }

  /**
   No step overwrites an available-ring entry that the device has not fetched or a used-ring entry that the driver has
   not reclaimed.
   */
  lemma NothingUnreadIsOverwritten(q: Queue, step: Step)
    requires Inv(q)
    ensures var r := Next(q, step);
            && Window(r.avail, r.fetched, q.staged) == Window(q.avail, r.fetched, q.staged)
            && Window(UsedIds(r.used), r.reclaimed, q.returned) == Window(UsedIds(q.used), r.reclaimed, q.returned)
  {
    Counts(q);
    if step.DoStage? && q.free != [] {
      FreeAt(q, q.free[0]);
      WindowPush(q.avail, q.fetched, q.staged, q.free[0]);
    } else if step.DoReturn? && step.elem.id in q.held {
      WindowPush(UsedIds(q.used), q.reclaimed, q.returned, step.elem.id);
      assert UsedIds(Return(q, step.elem).used) == UsedIds(q.used)[q.returned % q.size := step.elem.id];
    }
  }

  /** Over every run each accepted buffer is given back at most once; it is in flight exactly until then. */
  lemma DeliveredAtMostOnce(size: nat, steps: seq<Step>)
    requires QueueSize(size)
    ensures var q := Run(size, steps);
            && (forall i, j :: 0 <= i < j < |q.delivered| ==> q.delivered[i] != q.delivered[j])
            && (forall n: nat :: n < |q.sent| <==> n in q.delivered || n in q.owner.Values)
            && (forall n :: n in q.delivered ==> n !in q.owner.Values)
  {
    var q := Run(size, steps);
    forall i, j | 0 <= i < j < |q.delivered|
      ensures q.delivered[i] != q.delivered[j]
    {
      TwiceCounted(q.delivered, i, j);
      assert multiset(Numbers(|q.sent|))[q.delivered[i]] <= 1;
    }
    forall n: nat
      ensures n < |q.sent| <==> n in q.delivered || n in q.owner.Values
      ensures n in q.delivered ==> n !in q.owner.Values
    {
      assert multiset(Numbers(|q.sent|))[n] == multiset(q.delivered)[n] + multiset(q.owner.Values)[n];
      assert n in q.delivered <==> n in multiset(q.delivered);
    }
  }

  lemma TwiceCounted(s: seq<nat>, i: nat, j: nat)
    requires i < j < |s|
    ensures s[i] == s[j] ==> multiset(s)[s[i]] >= 2
  {
    assert s == s[..j] + ([s[j]] + s[j + 1..]);
    ConsCount(s[j], s[j + 1..]);
    assert s[..j][i] == s[i];
    assert s[i] in multiset(s[..j]);
  }

  /**
   What a reclaim gives back is a buffer that was sent, that the device has returned, under the pointer it was sent
   with.
   */
  lemma ReclaimDelivers(q: Queue)
    requires Inv(q) && q.reclaimed < q.returned
    ensures var id, r := q.used[q.reclaimed % q.size].id, Next(q, DoReclaim);
            && id in q.owner && r.delivered == q.delivered + [q.owner[id]]
            && q.owner[id] < |q.sent| && q.table[id] == q.sent[q.owner[id]]
            && id !in q.free && id !in q.held && id !in Window(q.avail, q.fetched, q.staged)
  {
    ReclaimAt(q);
    var id := q.used[q.reclaimed % q.size].id;
    assert Carries(q, id);
    var w := Window(UsedIds(q.used), q.reclaimed, q.returned);
    assert w[0] == Slot(UsedIds(q.used), q.reclaimed) == id;
    assert id in multiset(w);
    OnePlace(q, id);
    var a := Window(q.avail, q.fetched, q.staged);
    assert id in a ==> id in multiset(a);
  }

  // ---------------------------------------------------------------- 16-bit indices

  const WORD: nat := 65536

  lemma WordIsPower()
    ensures PowerOfTwo(WORD)
  {
    assert PowerOfTwo(16) && PowerOfTwo(256) && PowerOfTwo(4096);
  }

  lemma ModOfMod(x: nat, k: nat, n: nat)
    requires 0 < n && 0 < k
    ensures k * n > 0 && (x % (k * n)) % n == x % n
  {
    MulAtLeast(k, n);
    var m := k * n;
    var y := x % m;
    var t := (x / m) * k + y / n - x / n;
    assert x == (x / m) * m + y;
    assert (x / m) * m == ((x / m) * k) * n;
    assert x % n - y % n == t * n;
    if t >= 1 {
      MulAtLeast(t, n);
    } else if t <= -1 {
      MulAtLeast(-t, n);
    }
  }

  /** A free-running 16-bit index finds the same ring slot as the full count, because the queue size divides 65536. */
  lemma IndexFindsSlot(x: nat, n: nat)
    requires QueueSize(n)
    ensures (x % WORD) % n == x % n
  {
    WordIsPower();
    PowersDivide(n, WORD);
    var k: nat :| WORD == k * n;
    assert k > 0;
    ModOfMod(x, k, n);
  }

  lemma ModShift(x: nat, y: nat, a: nat, n: nat)
    requires 0 < n && x % n == y % n
    ensures (x + a) % n == (y + a) % n
  {
    var t := (x + a) / n - (y + a) / n - x / n + y / n;
    assert (y + a) % n - (x + a) % n == t * n;
    if t >= 1 {
      MulAtLeast(t, n);
    } else if t <= -1 {
      MulAtLeast(-t, n);
    }
  }

  /** Comparing 16-bit indices tells whether anything is left, on both rings, across any number of wrap-arounds. */
  lemma IndicesCompare(q: Queue)
    requires Inv(q)
    ensures q.fetched <= q.published && q.reclaimed <= q.returned
    ensures q.fetched % WORD == q.published % WORD <==> q.fetched == q.published
    ensures q.reclaimed % WORD == q.returned % WORD <==> q.reclaimed == q.returned
  {
    Counts(q);
    if q.fetched < q.published {
      ModApart(q.fetched, q.published, WORD);
    }
    if q.reclaimed < q.returned {
      ModApart(q.reclaimed, q.returned, WORD);
    }
  }
}
