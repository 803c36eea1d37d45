/**
 The virtqueue driver of network/virtio_net.c: the free-descriptor ring, raw send and raw receive.

 Every method is a run of the machine in `VirtqueueSteps`; the ghost field `q` is its state.  Indices are
 16-bit and wrap around.  The device is the two methods DeviceFetch and DeviceReturn.
 */
module VirtioNet {
  import opened Common
  import opened ByteRing
  import opened VirtqueueSteps

  datatype Desc = Desc(addr: nat, len: nat, flags: nat, next: nat)

  // ---------------------------------------------------------------- descriptor numbers as bytes

  function Low(id: nat): byte {
    (id % 256) as byte
  }

  function High(id: nat): byte {
    (id / 256 % 256) as byte
  }

  /** Two bytes for each number, low byte first. */
  function Encode(ids: seq<nat>): (s: seq<byte>)
    ensures |s| == 2 * |ids|
  {
    if ids == [] then [] else [Low(ids[0]), High(ids[0])] + Encode(ids[1..])
  }

  function Decode(data: seq<byte>): nat
    requires |data| == 2
  {
    data[0] as nat + 256 * data[1] as nat
  }

  /** A descriptor number survives the trip through the ring. */
  lemma DecodeEncode(id: nat)
    requires id < WORD
    ensures Decode([Low(id), High(id)]) == id
  {
  }

  lemma EncodeNone()
    ensures Encode([]) == []
  {
  }

  lemma {:induction false} EncodeAppend(ids: seq<nat>, id: nat)
    ensures Encode(ids + [id]) == Encode(ids) + [Low(id), High(id)]
  {
    if ids != [] {
      EncodeAppend(ids[1..], id);
      assert (ids + [id])[1..] == ids[1..] + [id];
    } else {
      assert [id][1..] == [];
    }
  }

  /** What the device does while a driver call runs: `turns[k]` between the turns `k - 1` and `k` of its loop. */
  type Turns = seq<seq<Step>>

  predicate OfDevice(steps: seq<Step>) {
    forall s :: s in steps ==> s.DoFetch? || s.DoReturn?
  }

  predicate ConformingTurns(turns: Turns) {
    forall k :: 0 <= k < |turns| ==> OfDevice(turns[k])
  }

  function Turn(turns: Turns, k: nat): (steps: seq<Step>)
    ensures ConformingTurns(turns) ==> OfDevice(steps)
  {
    if k < |turns| then turns[k] else []
  }

  /** A call that stages `bs`, interleaved with the device; the publish is still to come. */
  function SendSteps(turns: Turns, bs: seq<Buffer>): seq<Step> {
    if bs == [] then Turn(turns, 0)
    else SendSteps(turns, bs[..|bs| - 1]) + ([DoStage(bs[|bs| - 1])] + Turn(turns, |bs|))
  }

  /** A call that reclaims `n` descriptors, interleaved with the device. */
  function ReceiveSteps(turns: Turns, n: nat): seq<Step> {
    if n == 0 then Turn(turns, 0) else ReceiveSteps(turns, n - 1) + ([DoReclaim] + Turn(turns, n))
  }

  const ONESHOT: nat := 64
  const NET_PACKET_TOTAL_SIZE: nat := 2048
  const INITIAL_HEADER_ROOM_SIZE: nat := 28 + 0x80
  const RECEIVE_LENGTH: nat := 1514 + 12
  const F_WRITE: nat := 2

  /** A packet of the pool: its own address and its physical address. */
  datatype Packet = Packet(pointer: nat, paddr: nat)

  /** A reset packet extended to the right by the MTU and the virtio header; it fits into its half page. */
  function ReceiveBuffer(p: Packet): (b: Buffer)
    ensures p.paddr + INITIAL_HEADER_ROOM_SIZE <= b.addr && b.addr + b.len <= p.paddr + NET_PACKET_TOTAL_SIZE
    ensures b.pointer == p.pointer && b.flags == F_WRITE && b.len >= RECEIVE_LENGTH
  {
    Buffer(p.paddr + INITIAL_HEADER_ROOM_SIZE, RECEIVE_LENGTH, F_WRITE, p.pointer)
  }

  function ReceiveBuffers(ps: seq<Packet>): seq<Buffer> {
    seq(|ps|, i requires 0 <= i < |ps| => ReceiveBuffer(ps[i]))
  }

  class Virtqueue {
    const queueSize: nat
    const freeRing: Ring
    const desc: array<Desc>
    const pointers: array<nat>
    const avail: array<nat>
    const used: array<UsedElem>
    var availIdx: nat
    var usedIdx: nat
    var lastUsedIdx: nat
    /** The device's own place in the available ring, and the descriptors that it holds. */
    var deviceIdx: nat
    var deviceHeld: multiset<nat>
    ghost var q: Queue

    ghost predicate Apart()
      reads this
    {
      pointers != avail
    }

    /** The memory shared with the device, and the driver's tables, hold what `q` says. */
    ghost predicate Tables()
      reads this, desc, pointers, avail, used
    {
      && queueSize == q.size == desc.Length == pointers.Length && Apart()
      && avail[..] == q.avail && used[..] == q.used
      && |q.table| == q.size
      && (forall id :: 0 <= id < q.size ==>
            q.table[id] == Buffer(desc[id].addr, desc[id].len, desc[id].flags, pointers[id]))
    }

    ghost predicate FreeRing()
      reads this, freeRing, freeRing.buffer
    {
      && freeRing.Valid() && freeRing.ringSize == 2 * queueSize + 1
      && freeRing.Contents() == Encode(q.free)
    }

    /** As Valid, with `added` descriptors staged and not yet published. */
    ghost predicate Staging(added: nat)
      reads this, desc, pointers, avail, used, freeRing, freeRing.buffer
    {
      && Inv(q) && Tables() && FreeRing()
      && availIdx == q.published % WORD && q.staged == q.published + added
      && usedIdx == q.returned % WORD && lastUsedIdx == q.reclaimed % WORD
      && deviceIdx == q.fetched % WORD && deviceHeld == q.held
    }

    ghost predicate Valid()
      reads this, desc, pointers, avail, used, freeRing, freeRing.buffer
    {
      Staging(0)
    }

    /** virtio_net_device_virt_queue_setup: empty rings, all descriptors free. */
    constructor (size: nat)
      requires QueueSize(size)
      ensures Valid() && queueSize == size && q == Init(size)
      ensures fresh(freeRing) && fresh(freeRing.buffer) && fresh(desc) && fresh(pointers) && fresh(avail) && fresh(used)
    {
      hide Inv, Encode, PowerOfTwo, Window, Numbers, Tables;
      queueSize := size;
      freeRing := new Ring(2 * size + 1);
      desc := new Desc[size](_ => Desc(0, 0, 0, 0));
      pointers := new nat[size](_ => 0);
      avail := new nat[size](_ => 0);
      used := new UsedElem[size](_ => UsedElem(0, 0));
      availIdx, usedIdx, lastUsedIdx, deviceIdx, deviceHeld := 0, 0, 0, 0, multiset{};
      q := Init(size);
      new;
      FillFree();
    }

    /** The end of the setup: the free ring is filled with all descriptors. */
    method FillFree()
      requires QueueSize(queueSize) && q == Init(queueSize) && Zeroed() && deviceHeld == multiset{}
      requires availIdx == usedIdx == lastUsedIdx == deviceIdx == 0
      requires freeRing.Valid() && freeRing.ringSize == 2 * queueSize + 1 && freeRing.Contents() == []
      modifies freeRing, freeRing.buffer
      ensures Valid()
    {
      hide Inv, Encode, PowerOfTwo, Window, Numbers, Tables;
      InitInv(queueSize);
      InitTables();
      FillRing(freeRing, queueSize, q.free);
    }

    ghost predicate Zeroed()
      reads this, desc, pointers, avail, used
    {
      && pointers != avail && queueSize == desc.Length == pointers.Length == avail.Length == used.Length
      && (forall i :: 0 <= i < queueSize ==> desc[i] == Desc(0, 0, 0, 0) && pointers[i] == 0)
      && (forall i :: 0 <= i < queueSize ==> avail[i] == 0)
      && (forall i :: 0 <= i < queueSize ==> used[i] == UsedElem(0, 0))
    }

    /** Zeroed memory is the initial state. */
    lemma InitTables()
      requires q == Init(queueSize) && Zeroed()
      ensures Tables()
    {
      assert avail[..] == q.avail;
      assert used[..] == q.used;
    }

    static method FillRing(ring: Ring, size: nat, ghost ids: seq<nat>)
      requires ring.Valid() && ring.ringSize == 2 * size + 1 && ring.Contents() == []
      requires |ids| == size && forall i :: 0 <= i < size ==> ids[i] == i
      modifies ring, ring.buffer
      ensures ring.Valid() && ring.Contents() == Encode(ids)
    {
      hide Encode;
      EncodeNone();
      assert ids[..0] == [];
      for idx := 0 to size
        invariant ring.Valid() && ring.Contents() == Encode(ids[..idx])
      {
        EncodeAppend(ids[..idx], idx);
        assert ids[..idx + 1] == ids[..idx] + [idx];
        var low := ring.Write([Low(idx)]);
        var high := ring.Write([High(idx)]);
        assert low == 1 && high == 1;
        assert [Low(idx), High(idx)] == [Low(idx)] + [High(idx)];
      }
      assert ids[..size] == ids;
    }

    /** Take the number of a free descriptor out of the ring: both bytes are there. */
    method TakeFree() returns (id: nat)
      requires FreeRing() && q.free != [] && q.free[0] < WORD
      modifies freeRing`front
      ensures id == q.free[0] && freeRing.Valid() && freeRing.Contents() == Encode(q.free[1..])
    {
      var data := freeRing.Read(2);
      assert |data| == 2;
      DecodeEncode(q.free[0]);
      assert data == [Low(q.free[0]), High(q.free[0])];
      id := Decode(data);
    }

    /** Put the number of a descriptor back: there is room for both bytes. */
    method PutFree(id: nat)
      requires FreeRing() && |q.free| < queueSize
      modifies freeRing`rear, freeRing.buffer
      ensures freeRing.Valid() && freeRing.Contents() == Encode(q.free + [id])
    {
      EncodeAppend(q.free, id);
      var n := freeRing.Write([Low(id), High(id)]);
      assert n == 2;
    }

    /** One turn of the loop in virtio_net_device_raw_send. */
    method StageOne(b: Buffer, added: nat)
      requires Staging(added) && q.free != []
      modifies this`q, freeRing`front, desc, pointers, avail
      ensures Staging(added + 1) && q == Next(old(q), DoStage(b))
      ensures |q.free| == |old(q).free| - 1 && q.sent == old(q).sent + [b] && q.published == old(q).published
    {
      hide Inv, Next, PowerOfTwo, Encode, Window, Slot, Numbers;
      StageSteps(q, b);
      var id := TakeFree();
      assert id < queueSize;
      pointers[id] := b.pointer;
      desc[id] := Desc(b.addr, b.len, b.flags, 0);
      var slot := (availIdx + added) % queueSize;
      StageSlot(added);
      avail[slot] := id;
      q := Stage(q, b);
      assert avail[..] == q.avail;
    }

    lemma StageSlot(added: nat)
      requires QueueSize(queueSize) && availIdx == q.published % WORD && q.staged == q.published + added
      ensures (availIdx + added) % queueSize == q.staged % queueSize
    {
      IndexFindsSlot(q.published, queueSize);
      ModShift(availIdx, q.published, added, queueSize);
    }

    /**
     virtio_net_device_raw_send: stage as many buffers as there are free descriptors, then publish them all at once,
     whatever the device does meanwhile.
     */
    method RawSend(buffers: seq<Buffer>, turns: Turns) returns (n: nat)
      requires Valid() && ConformingTurns(turns)
      modifies this`q, this`availIdx, this`deviceIdx, this`deviceHeld, this`usedIdx
      modifies freeRing`front, desc, pointers, avail, used
      ensures Valid() && n == Min(|buffers|, |old(q).free|)
      ensures q == Exec(old(q), SendSteps(turns, buffers[..n]) + [DoPublish])
      ensures q.sent == old(q).sent + buffers[..n]
    {
      hide Inv, Next, Exec, SendSteps, ConformingTurns, OfDevice, Encode, PowerOfTwo, Window, Slot, Turn, Tables,
           FreeRing;
      n := 0;
      Device(Turn(turns, 0), 0);
      SendNone(turns, buffers);
      while n < |buffers|
        invariant Staging(n) && n <= |buffers| && q == Exec(old(q), SendSteps(turns, buffers[..n]))
        invariant |q.free| + n == |old(q).free| && q.sent == old(q).sent + buffers[..n]
      {
        FreeRingEmpty(n);
        if freeRing.Empty() {
          break;
        }
        SendOneMore(old(q), turns, buffers, n);
        StageOne(buffers[n], n);
        n := n + 1;
        Device(Turn(turns, n), n);
      }
      ExecSnoc(old(q), SendSteps(turns, buffers[..n]), DoPublish);
      FinishSend(n);
    }

    lemma FreeRingEmpty(added: nat)
      requires Staging(added)
      ensures freeRing.Valid() && (freeRing.Empty() <==> q.free == [])
    {
      hide Inv, Tables, Encode;
      assert |freeRing.Contents()| == 2 * |q.free|;
    }

    static lemma SendNone(turns: Turns, buffers: seq<Buffer>)
      ensures SendSteps(turns, buffers[..0]) == Turn(turns, 0)
    {
    }

    static lemma SendOneMore(q: Queue, turns: Turns, buffers: seq<Buffer>, n: nat)
      requires Inv(q) && n < |buffers|
      ensures buffers[..n + 1] == buffers[..n] + [buffers[n]]
      ensures Inv(Next(Exec(q, SendSteps(turns, buffers[..n])), DoStage(buffers[n])))
      ensures Exec(q, SendSteps(turns, buffers[..n + 1])) ==
              Exec(Next(Exec(q, SendSteps(turns, buffers[..n])), DoStage(buffers[n])), Turn(turns, n + 1))
    {
      hide Inv, Next, Exec;
      assert buffers[..n + 1][..n] == buffers[..n];
      ExecTurn(q, SendSteps(turns, buffers[..n]), DoStage(buffers[n]), Turn(turns, n + 1));
    }

    method FinishSend(added: nat)
      requires Staging(added)
      modifies this`q, this`availIdx
      ensures Valid() && q == Next(old(q), DoPublish) && q.sent == old(q).sent
    {
      hide Inv, Next, Encode;
      PublishSteps(q);
      IndexAdvance(q.published, added);
      availIdx := (availIdx + added) % WORD;
      q := Publish(q);
    }

    static lemma IndexAdvance(x: nat, n: nat)
      ensures (x % WORD + n) % WORD == (x + n) % WORD
    {
      ModShift(x % WORD, x, n, WORD);
    }

    /** One turn of the loop in virtio_net_device_raw_receive. */
    method ReclaimOne() returns (pointer: nat, ghost n: nat)
      requires Valid() && q.reclaimed < q.returned
      modifies this`q, this`lastUsedIdx, freeRing`rear, freeRing.buffer
      ensures Valid() && q == Next(old(q), DoReclaim)
      ensures q.returned == old(q).returned && q.reclaimed == old(q).reclaimed + 1 && q.sent == old(q).sent
      ensures q.delivered == old(q).delivered + [n] && n < |q.sent| && pointer == q.sent[n].pointer
    {
      hide Inv, Next, PowerOfTwo, Encode, Window;
      ReclaimSteps(q);
      IndexFindsSlot(q.reclaimed, queueSize);
      IndexAdvance(q.reclaimed, 1);
      var item := used[lastUsedIdx % queueSize];
      assert item.id < queueSize;
      pointer := pointers[item.id];
      PutFree(item.id);
      lastUsedIdx := (lastUsedIdx + 1) % WORD;
      n := q.owner[item.id];
      q := Reclaim(q);
      assert q.delivered == old(q).delivered + [n];
    }

    /** The pointers belong to the buffers delivered last. */
    static ghost predicate Delivers(q: Queue, from: nat, ptrs: seq<nat>) {
      && |q.delivered| == from + |ptrs|
      && forall i {:trigger DeliversAt(q, from, ptrs, i)} :: 0 <= i < |ptrs| ==> DeliversAt(q, from, ptrs, i)
    }

    static predicate DeliversAt(q: Queue, from: nat, ptrs: seq<nat>, i: nat)
      requires |q.delivered| == from + |ptrs| && i < |ptrs|
    {
      q.delivered[from + i] < |q.sent| && ptrs[i] == q.sent[q.delivered[from + i]].pointer
    }

    static lemma DeliversNone(q: Queue)
      ensures Delivers(q, |q.delivered|, [])
    {
    }

    static lemma DeliversOneMore(p: Queue, q: Queue, from: nat, ptrs: seq<nat>, pointer: nat, n: nat)
      requires Delivers(p, from, ptrs) && q.sent == p.sent && q.delivered == p.delivered + [n] && n < |q.sent|
      requires pointer == q.sent[n].pointer
      ensures Delivers(q, from, ptrs + [pointer])
    {
      var more := ptrs + [pointer];
      forall i | 0 <= i < |more|
        ensures DeliversAt(q, from, more, i)
      {
        assert i < |ptrs| ==> DeliversAt(p, from, ptrs, i);
      }
    }

    /**
     virtio_net_device_raw_receive: reclaim what the device has returned, oldest first, also what it returns meanwhile,
     until there are `nrBuffer` or none is left.
     */
    method RawReceive(nrBuffer: nat, turns: Turns) returns (ptrs: seq<nat>)
      requires Valid() && ConformingTurns(turns)
      modifies this`q, this`lastUsedIdx, this`deviceIdx, this`deviceHeld, this`usedIdx
      modifies freeRing`rear, freeRing.buffer, used
      ensures Valid() && q == Exec(old(q), ReceiveSteps(turns, |ptrs|)) && Delivers(q, |old(q).delivered|, ptrs)
      ensures |ptrs| <= nrBuffer && q.reclaimed == old(q).reclaimed + |ptrs|
      ensures |ptrs| == nrBuffer || q.reclaimed == q.returned
      ensures |ptrs| >= Min(nrBuffer, old(q).returned - old(q).reclaimed)
    {
      hide Inv, Next, Exec, Delivers, ReceiveSteps, ConformingTurns, OfDevice, Encode, PowerOfTwo, Window, Slot, Turn,
           Tables, FreeRing;
      DeliversNone(q);
      Device(Turn(turns, 0), 0);
      ReceiveNone(turns);
      SameDelivers(old(q), q, |old(q).delivered|, []);
      IndicesCompare(q);
      ptrs := [];
      while |ptrs| < nrBuffer && lastUsedIdx != usedIdx
        invariant Valid() && |ptrs| <= nrBuffer && q == Exec(old(q), ReceiveSteps(turns, |ptrs|))
        invariant q.returned >= old(q).returned && q.reclaimed == old(q).reclaimed + |ptrs| <= q.returned
        invariant Delivers(q, |old(q).delivered|, ptrs)
        decreases nrBuffer - |ptrs|
      {
        IndicesCompare(q);
        ReceiveOneMore(old(q), turns, |ptrs|);
        ghost var p := q;
        var pointer, n := ReclaimOne();
        DeliversOneMore(p, q, |old(q).delivered|, ptrs, pointer, n);
        ptrs := ptrs + [pointer];
        p := q;
        Device(Turn(turns, |ptrs|), 0);
        SameDelivers(p, q, |old(q).delivered|, ptrs);
      }
      IndicesCompare(q);
    }

    static lemma ReceiveNone(turns: Turns)
      ensures ReceiveSteps(turns, 0) == Turn(turns, 0)
    {
    }

    static lemma ReceiveOneMore(q: Queue, turns: Turns, n: nat)
      requires Inv(q)
      ensures Inv(Next(Exec(q, ReceiveSteps(turns, n)), DoReclaim))
      ensures Exec(q, ReceiveSteps(turns, n + 1)) ==
              Exec(Next(Exec(q, ReceiveSteps(turns, n)), DoReclaim), Turn(turns, n + 1))
    {
      hide Inv, Next, Exec;
      ExecTurn(q, ReceiveSteps(turns, n), DoReclaim, Turn(turns, n + 1));
    }

    static lemma SameDelivers(p: Queue, q: Queue, from: nat, ptrs: seq<nat>)
      requires Delivers(p, from, ptrs) && q.sent == p.sent && q.delivered == p.delivered
      ensures Delivers(q, from, ptrs)
    {
      forall i | 0 <= i < |ptrs|
        ensures DeliversAt(q, from, ptrs, i)
      {
        assert DeliversAt(p, from, ptrs, i);
      }
    }

    /** A turn of the device: it fetches and returns as the steps say, as far as it can. */
    method Device(steps: seq<Step>, ghost added: nat)
      requires Staging(added) && OfDevice(steps)
      modifies this`q, this`deviceIdx, this`deviceHeld, this`usedIdx, used
      ensures Staging(added) && q == Exec(old(q), steps) && DriverSide(q, old(q))
    {
      hide Inv, Next, Exec, Encode, PowerOfTwo;
      ExecNil(q);
      for k := 0 to |steps|
        invariant Staging(added) && q == Exec(old(q), steps[..k]) && DriverSide(q, old(q))
      {
        ExecSnoc(old(q), steps[..k], steps[k]);
        assert steps[..k + 1] == steps[..k] + [steps[k]];
        assert steps[k] in steps;
        if steps[k].DoReturn? {
          DeviceReturn(steps[k].elem, added);
        } else {
          DeviceFetch(added);
        }
      }
      assert steps[..|steps|] == steps;
    }

    /** The driver's side of the queue is the same, and nothing the device returned is taken back. */
    static predicate DriverSide(q: Queue, was: Queue) {
      && q.free == was.free && q.sent == was.sent && q.delivered == was.delivered
      && q.staged == was.staged && q.published == was.published && q.reclaimed == was.reclaimed
      && q.returned >= was.returned
    }

    /** The device takes the next published descriptor, if there is one. */
    method DeviceFetch(ghost added: nat)
      requires Staging(added)
      modifies this`q, this`deviceIdx, this`deviceHeld
      ensures Staging(added) && q == Next(old(q), DoFetch) && DriverSide(q, old(q))
    {
      hide Inv, Next, Encode, PowerOfTwo, Window;
      FetchSteps(q);
      IndicesCompare(q);
      IndexAdvance(q.fetched, 1);
      if deviceIdx != availIdx {
        IndexFindsSlot(q.fetched, queueSize);
        deviceHeld := deviceHeld + multiset{avail[deviceIdx % queueSize]};
        deviceIdx := (deviceIdx + 1) % WORD;
        q := Fetch(q);
      }
    }

    /** The device returns a descriptor, if it holds it. */
    method DeviceReturn(e: UsedElem, ghost added: nat)
      requires Staging(added)
      modifies this`q, this`usedIdx, this`deviceHeld, used
      ensures Staging(added) && q == Next(old(q), DoReturn(e)) && DriverSide(q, old(q))
    {
      hide Inv, Next, PowerOfTwo, Encode, Window;
      ReturnSteps(q, e);
      if e.id in deviceHeld {
        IndexFindsSlot(q.returned, queueSize);
        IndexAdvance(q.returned, 1);
        used[usedIdx % queueSize] := e;
        usedIdx := (usedIdx + 1) % WORD;
        deviceHeld := deviceHeld - multiset{e.id};
        q := Return(q, e);
      }
    }

    /**
     virtio_net_dev_supply_packet: hand packets of the pool to the device; every packet taken from the pool is
     accepted.
     */
    method SupplyPackets(pool: seq<Packet>, turns: Turns) returns (n: nat, rest: seq<Packet>)
      requires Valid() && ConformingTurns(turns)
      modifies this`q, this`availIdx, this`deviceIdx, this`deviceHeld, this`usedIdx
      modifies freeRing`front, desc, pointers, avail, used
      ensures Valid() && n == Min(Min(ONESHOT, |old(q).free|), |pool|) && rest == pool[n..]
      ensures q.sent == old(q).sent + ReceiveBuffers(pool[..n])
    {
      hide Inv, Next, Exec;
      var freeDescriptors := freeRing.Length();
      assert freeDescriptors % 2 == 0;
      var room := Min(ONESHOT, freeDescriptors / 2);
      var taken: seq<Packet> := [];
      while |taken| < room
        invariant |taken| <= room && |taken| <= |pool| && taken == pool[..|taken|]
      {
        if |taken| == |pool| {
          break;
        }
        taken := taken + [pool[|taken|]];
      }
      n, rest := |taken|, pool[|taken|..];
      if n != 0 {
        var accepted := RawSend(ReceiveBuffers(taken), turns);
        assert accepted == n;
        assert ReceiveBuffers(taken)[..n] == ReceiveBuffers(taken);
      }
    }
  }
}
