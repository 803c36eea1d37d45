/**
 The kernel heap allocator of memory/malloc.c: __malloc, malloc_align, __free, free, malloc_init.

 `mem` holds the malloc headers and `pads` the padding headers, by address.  Which entries of `mem`
 are chunks is not stored anywhere: the ghost map `chunks` says it, and `lists` says what each
 recycle bin links.
 */
module KernelHeap {
  import opened Common
  import opened ChunkMap
  import opened RecycleBins

  const PAD_LIMIT: nat := 0x10000

  /** The headers in memory say about the chunk at `a` what the chunk map says. */
  predicate Recorded(mem: Memory, pads: map<nat, nat>, c: Chunks, a: nat)
    requires a in c
  {
    && a in mem && mem[a].size == c[a].size && mem[a].free == c[a].Vacant?
    && (c[a].Used? ==> META + c[a].padding <= c[a].size && a + HDR + c[a].padding in pads
                       && pads[a + HDR + c[a].padding] == mem[a].padding == c[a].padding % PAD_LIMIT)
  }

  ghost predicate AllRecorded(mem: Memory, pads: map<nat, nat>, c: Chunks, loose: nat) {
    forall a {:trigger Recorded(mem, pads, c, a)} :: a in c && a != loose ==> Recorded(mem, pads, c, a)
  }

  ghost predicate Invariant(mem: Memory, pads: map<nat, nat>, c: Chunks, base: nat, lists: seq<seq<nat>>, loose: nat) {
    && Tiled(c)
    && BinsOk(mem, c, base, lists)
    && AllRecorded(mem, pads, c, loose)
  }

  /** Headers and padding headers that lie in memory about to be handed out are forgotten. */
  function Forget<T>(m: map<nat, T>, lo: nat, hi: nat): map<nat, T> {
    map x | x in m && !(lo <= x < hi) :: m[x]
  }

  /** Two headers that differ at most in their links. */
  predicate SameData(m: Memory, m': Memory, x: nat) {
    x in m && x in m' && m'[x] == m[x].(prev := m'[x].prev, next := m'[x].next)
  }

  /** Joining the chunk at `h` with the free chunk behind it keeps the heap in order. */
  lemma JoinKeepsInvariant(m: Memory, pads: map<nat, nat>, c: Chunks, base: nat, lists: seq<seq<nat>>, i: nat, k: nat,
                           h: nat)
    requires Invariant(m, pads, c, base, lists, h) && i < BINS && k < |lists[i]|
    requires h in c && c[h].Used? && h in m && m[h].size == c[h].size
    requires lists[i][k] == h + c[h].size && lists[i][k] in c && c[lists[i][k]].Vacant?
    ensures var n := lists[i][k];
            && n in m && m[n].prev in m && (m[n].next != 0 ==> m[n].next in m)
            && Unlink(m, n).Keys == m.Keys
            && (forall y :: y in m ==> SameData(m, Unlink(m, n), y))
            && m[n].size == c[n].size
            && var size := c[h].size + c[n].size;
            && Invariant(Unlink(m, n)[h := Unlink(m, n)[h].(size := size)], pads, (c - {n})[h := Used(size, 0)],
                         base, lists[i := Remove(lists[i], k)], h)
  {
    var n := lists[i][k];
    var size := c[h].size + c[n].size;
    UnlinkKeepsBins(m, c, base, lists, i, k, Used(0, 0));
    var m', d, l := Unlink(m, n)[h := Unlink(m, n)[h].(size := size)],
        (c - {n})[h := Used(size, 0)], lists[i := Remove(lists[i], k)];
    assert Placed(c, n) && Placed(c, h) && Recorded(m, pads, c, n);
    FrameBins(Unlink(m, n), m', c[n := Used(0, 0)], d, base, l);
    MergeKeepsTiled(c, h, Used(size, 0));
    forall a | a in d && a != h
      ensures Recorded(m', pads, d, a)
    {
      assert Recorded(m, pads, c, a);
    }
  }

  function MarkFree(m: Memory, h: nat): Memory
    requires h in m
  {
    m[h := m[h].(free := true, padding := 0)]
  }

  lemma FileAtKeepsBins(m: Memory, c: Chunks, base: nat, lists: seq<seq<nat>>, bin: nat, k: nat, h: nat)
    requires h in c && c[h].Used? && h in m && BinsOk(m, c, base, lists)
    requires META <= c[h].size && bin == BinOf(c[h].size - META)
    requires (forall y :: y in lists[bin] ==> y in c) && Slot(c, lists[bin], k, c[h].size)
    ensures Before(HeadOf(base, bin), lists[bin], k) in m && (At(lists[bin], k) != 0 ==> At(lists[bin], k) in m)
    ensures BinsOk(LinkIn(MarkFree(m, h), h, Before(HeadOf(base, bin), lists[bin], k), At(lists[bin], k)),
                   c[h := Vacant(c[h].size)],
                   base, lists[bin := Insert(lists[bin], k, h)])
  {
    FrameBins(m, MarkFree(m, h), c, c, base, lists);
    InsertKeepsBins(MarkFree(m, h), c, base, lists, bin, k, h);
  }

  lemma LinkInKeepsData(m: Memory, x: nat, p: nat, q: nat, y: nat)
    requires x in m && p in m && (q != 0 ==> q in m) && y in m
    ensures SameData(m, LinkIn(m, x, p, q), y)
  {
  }

  lemma FileAtKeepsRecorded(m: Memory, pads: map<nat, nat>, c: Chunks, h: nat, p: nat, q: nat)
    requires h in m && p in m && (q != 0 ==> q in m) && h in c && m[h].size == c[h].size
    requires AllRecorded(m, pads, c, h)
    ensures LinkIn(MarkFree(m, h), h, p, q).Keys == m.Keys
    ensures forall y :: y in m ==> LinkIn(MarkFree(m, h), h, p, q)[y].free == (y == h || m[y].free)
    ensures AllRecorded(LinkIn(MarkFree(m, h), h, p, q), pads, c[h := Vacant(c[h].size)], 0)
  {
    forall a | a in c
      ensures Recorded(LinkIn(MarkFree(m, h), h, p, q), pads, c[h := Vacant(c[h].size)], a)
    {
      assert a != h ==> Recorded(m, pads, c, a);
      LinkInKeepsData(MarkFree(m, h), h, p, q, a);
    }
    forall y | y in m
      ensures LinkIn(MarkFree(m, h), h, p, q)[y].free == (y == h || m[y].free)
    {
      LinkInKeepsData(MarkFree(m, h), h, p, q, y);
    }
  }

  /** The headers after the free chunk at `h` (already unlinked) was handed out, keeping its first `keep` bytes. */
  function HandOut(m: Memory, h: nat, size: nat, keep: nat, p: nat): Memory
    requires keep <= size
  {
    var f := Forget(m, h + 1, h + size);
    var f' := if keep < size then f[h + keep := Header(0, 0, size - keep, 0, true)] else f;
    f'[h := Header(0, 0, keep, p % PAD_LIMIT, false)]
  }

  function HandOutChunks(c: Chunks, h: nat, keep: nat, p: nat): Chunks
    requires h in c && keep <= c[h].size
  {
    var d := c[h := Used(keep, p)];
    if keep < c[h].size then d[h + keep := Used(c[h].size - keep, 0)] else d
  }

  lemma HandOutKeepsTiled(c: Chunks, h: nat, keep: nat, p: nat)
    requires Tiled(c) && h in c && META <= keep <= c[h].size && (keep < c[h].size ==> META <= c[h].size - keep)
    ensures Tiled(HandOutChunks(c, h, keep, p))
    ensures keep < c[h].size ==> h + keep !in c
  {
    if keep < c[h].size {
      SplitKeepsTiled(c, h, c[h].size - keep, Used(keep, p), Used(c[h].size - keep, 0));
    } else {
      SameSizesTiled(c, c[h := Used(keep, p)]);
    }
  }

  lemma HandOutKeepsBins(m: Memory, c: Chunks, base: nat, lists: seq<seq<nat>>, h: nat, keep: nat, p: nat)
    requires Tiled(c) && h in c && META <= keep <= c[h].size && (keep < c[h].size ==> h + keep !in c)
    requires BinsOk(m, c[h := Used(c[h].size, p)], base, lists)
    ensures BinsOk(HandOut(m, h, c[h].size, keep, p), HandOutChunks(c, h, keep, p), base, lists)
  {
    var m' := HandOut(m, h, c[h].size, keep, p);
    assert Placed(c, h);
    forall x | x in c && x != h
      ensures SameLinks(m, m', x)
    {
      assert Apart(c, h, x);
    }
    FrameBins(m, m', c[h := Used(c[h].size, p)], HandOutChunks(c, h, keep, p), base, lists);
  }

  lemma HandOutKeepsRecorded(m: Memory, pads: map<nat, nat>, c: Chunks, h: nat, keep: nat, p: nat, a: nat)
    requires Tiled(c) && h in c && META + p <= keep <= c[h].size && (keep < c[h].size ==> h + keep !in c)
    requires a in c && (a != h ==> Recorded(m, pads, c, a))
    ensures Recorded(HandOut(m, h, c[h].size, keep, p), Forget(pads, h, h + c[h].size)[h + HDR + p := p % PAD_LIMIT],
                     HandOutChunks(c, h, keep, p), a)
  {
    assert Placed(c, h) && Placed(c, a) && Apart(c, h, a);
  }

  lemma HandOutKeepsAllRecorded(m0: Memory, m: Memory, pads: map<nat, nat>, c: Chunks, h: nat, keep: nat, p: nat)
    requires Tiled(c) && h in c && META + p <= keep <= c[h].size && (keep < c[h].size ==> h + keep !in c)
    requires AllRecorded(m0, pads, c, 0) && HEAP_BOTTOM <= h
    requires m.Keys == m0.Keys && forall a :: a in m ==> SameData(m0, m, a)
    ensures AllRecorded(HandOut(m, h, c[h].size, keep, p), Forget(pads, h, h + c[h].size)[h + HDR + p := p % PAD_LIMIT],
                        HandOutChunks(c, h, keep, p), if keep < c[h].size then h + keep else 0)
  {
    forall a | a in c
      ensures Recorded(HandOut(m, h, c[h].size, keep, p), Forget(pads, h, h + c[h].size)[h + HDR + p := p % PAD_LIMIT],
                       HandOutChunks(c, h, keep, p), a)
    {
      assert Placed(c, a) && Recorded(m0, pads, c, a) && SameData(m0, m, a);
      HandOutKeepsRecorded(m, pads, c, h, keep, p, a);
    }
  }

  /**
   Handing out the chunk at position `k` of bin `i` keeps the heap in order; a split-off rest is still to be released.
   */
  lemma HandOutKeepsInvariant(m: Memory, pads: map<nat, nat>, c: Chunks, base: nat, lists: seq<seq<nat>>, i: nat,
                              k: nat, keep: nat, p: nat)
    requires Invariant(m, pads, c, base, lists, 0) && i < BINS && k < |lists[i]|
    requires lists[i][k] in c && META + p <= keep <= c[lists[i][k]].size
    requires keep < c[lists[i][k]].size ==> META <= c[lists[i][k]].size - keep
    ensures var h, size := lists[i][k], c[lists[i][k]].size;
            && h in m && m[h].prev in m && (m[h].next != 0 ==> m[h].next in m)
            && Invariant(HandOut(Unlink(m, h), h, size, keep, p),
                         Forget(pads, h, h + size)[h + HDR + p := p % PAD_LIMIT],
                         HandOutChunks(c, h, keep, p), base, lists[i := Remove(lists[i], k)],
                         if keep < size then h + keep else 0)
  {
    var h := lists[i][k];
    UnlinkKeepsBins(m, c, base, lists, i, k, Used(c[h].size, p));
    assert Placed(c, h);
    HandOutKeepsTiled(c, h, keep, p);
    HandOutKeepsBins(Unlink(m, h), c, base, lists[i := Remove(lists[i], k)], h, keep, p);
    HandOutKeepsAllRecorded(m, Unlink(m, h), pads, c, h, keep, p);
  }

  /**
   Exactly the alignments up to 65536 keep the padding of every chunk in the heap within the 16 bits of its field; a
   wider one fails already in the first chunk of a fresh heap.
   */
  lemma AlignmentsThatFit(align: nat)
    requires PowerOfTwo(align)
    ensures (forall a: nat :: HEAP_BOTTOM <= a < HEAP_TOP ==> Padding(a, align) < PAD_LIMIT) <==> align <= PAD_LIMIT
    ensures Padding(HEAP_BOTTOM, align) < PAD_LIMIT <==> align <= PAD_LIMIT
  {
    hide PowerOfTwo;
    if align > PAD_LIMIT {
      WidePadding(align);
    }
  }

  lemma WidePadding(align: nat)
    requires PowerOfTwo(align) && align > PAD_LIMIT
    ensures Padding(HEAP_BOTTOM, align) >= PAD_LIMIT
  {
    hide PowerOfTwo, Padding;
    PowersOfInterest();
    if align <= HEAP_BOTTOM {
      PowersDivide(align, HEAP_BOTTOM);
      var m: nat :| HEAP_BOTTOM == m * align;
      PowersDivide(PAD_LIMIT, align);
      var k: nat :| align == k * PAD_LIMIT;
      PaddingIs(m, align, META);
    } else {
      PowersDivide(HEAP_BOTTOM, align);
      var m: nat :| align == m * HEAP_BOTTOM;
      PaddingIs(0, align, HEAP_BOTTOM + META);
    }
  }

  lemma PaddingIs(q: nat, align: nat, r: nat)
    requires HEAP_BOTTOM + META == q * align + r && 0 < r < align
    ensures Padding(HEAP_BOTTOM, align) == align - r
  {
    RestOf(q, align, r);
  }

  lemma PowersOfInterest()
    ensures PowerOfTwo(PAD_LIMIT) && PowerOfTwo(2 * PAD_LIMIT) && PowerOfTwo(HEAP_BOTTOM)
  {
    hide PowerOfTwo;
    OneIsPower();
    Powers16(1);
    Powers16(16);
    Powers16(0x100);
    Powers16(0x1000);
    Powers16(0x10000);
    Powers16(0x100000);
    Powers16(0x1000000);
  }

  lemma Powers16(n: nat)
    requires PowerOfTwo(n)
    ensures PowerOfTwo(2 * n) && PowerOfTwo(8 * n) && PowerOfTwo(16 * n)
  {
    hide PowerOfTwo;
    PowerDoubles(n);
    PowerDoubles(2 * n);
    PowerDoubles(4 * n);
    PowerDoubles(8 * n);
  }

  /** A fitting free chunk of least size among all that fit. */
  ghost predicate BestFit(c: Chunks, a: nat, len: nat, align: nat)
    requires 0 < align
  {
    Fits(c, a, len, align) && forall b :: Fits(c, b, len, align) ==> c[a].size <= c[b].size
  }

  ghost predicate NoneFits(c: Chunks, s: seq<nat>, k: nat, len: nat, align: nat)
    requires 0 < align && k <= |s|
  {
    forall j :: 0 <= j < k ==> !Fits(c, s[j], len, align)
  }

  /** A chunk that fits is listed in the bin for `len` or a later one. */
  lemma FittingChunkIsListed(m: Memory, c: Chunks, base: nat, lists: seq<seq<nat>>, b: nat, len: nat,
                             align: nat) returns (i: nat, k: nat)
    requires BinsOk(m, c, base, lists) && 0 < align && Fits(c, b, len, align)
    ensures META <= c[b].size && i == BinOf(c[b].size - META)
    ensures BinOf(len) <= i < |lists| && k < |lists[i]| && lists[i][k] == b
  {
    assert Filed(c, lists, b);
    i := BinOf(c[b].size - META);
    BinIndexOrder(c[b].size - META, i, len, BinOf(len));
    k :| 0 <= k < |lists[i]| && lists[i][k] == b;
  }

  lemma NothingFits(m: Memory, c: Chunks, base: nat, lists: seq<seq<nat>>, start: nat, len: nat, align: nat)
    requires BinsOk(m, c, base, lists) && 0 < align && start == BinOf(len)
    requires forall j :: start <= j < BINS ==> NoneFits(c, lists[j], |lists[j]|, len, align)
    ensures forall b :: !Fits(c, b, len, align)
  {
    assert forall j, k :: start <= j < BINS && 0 <= k < |lists[j]| ==> !Fits(c, lists[j][k], len, align);
    forall b
      ensures !Fits(c, b, len, align)
    {
      if Fits(c, b, len, align) {
        var i, k := FittingChunkIsListed(m, c, base, lists, b, len, align);
      }
    }
  }

  /** The bins are sorted and ordered by size, so the first chunk that fits is a smallest one. */
  lemma FirstFitIsBestFit(m: Memory, c: Chunks, base: nat, lists: seq<seq<nat>>, start: nat, bin: nat, k: nat,
                          len: nat, align: nat)
    requires BinsOk(m, c, base, lists) && 0 < align && start == BinOf(len) <= bin < BINS && k < |lists[bin]|
    requires forall j :: start <= j < bin ==> NoneFits(c, lists[j], |lists[j]|, len, align)
    requires NoneFits(c, lists[bin], k, len, align) && Fits(c, lists[bin][k], len, align)
    ensures BestFit(c, lists[bin][k], len, align)
  {
    var a := lists[bin][k];
    assert forall j, k :: start <= j < bin && 0 <= k < |lists[j]| ==> !Fits(c, lists[j][k], len, align);
    assert BinOk(m, c, base, lists, bin);
    assert Belongs(c, a, bin);
    forall b | Fits(c, b, len, align)
      ensures c[a].size <= c[b].size
    {
      var i, j := FittingChunkIsListed(m, c, base, lists, b, len, align);
      if i > bin {
        BinIndexOrder(c[a].size - META, bin, c[b].size - META, i);
      }
    }
  }

  class Heap {
    const base: nat
    var mem: Memory
    var pads: map<nat, nat>
    ghost var chunks: Chunks
    ghost var lists: seq<seq<nat>>

    /** Everything is in order, except that the header of `loose` may not be up to date. */
    ghost predicate ValidBut(loose: nat)
      reads this
    {
      Invariant(mem, pads, chunks, base, lists, loose)
    }

    ghost predicate Valid()
      reads this
    {
      ValidBut(0)
    }

    constructor (base: nat)
      requires 0 < base && base + HDR * BINS <= HEAP_BOTTOM
      ensures Valid() && this.base == base
      ensures chunks == map[HEAP_BOTTOM := Vacant(HEAP_TOP - HEAP_BOTTOM)]
    {
      this.base := base;
      var h := Header(0, 0, 0, 0, false);
      var first := Header(HeadOf(base, MISC_BIN), 0, HEAP_TOP - HEAP_BOTTOM, 0, true);
      var m: Memory := map i | 0 <= i < BINS :: HeadOf(base, i) := h;
      mem := m[HeadOf(base, MISC_BIN) := h.(next := HEAP_BOTTOM)][HEAP_BOTTOM := first];
      pads := map[];
      chunks := map[HEAP_BOTTOM := Vacant(HEAP_TOP - HEAP_BOTTOM)];
      lists := seq(BINS, i => if i == MISC_BIN then [HEAP_BOTTOM] else []);
      new;
      assert BinOf(HEAP_TOP - HEAP_BOTTOM - META) == MISC_BIN by {
        BinIndexOrder(HEAP_TOP - HEAP_BOTTOM - META, MISC_BIN,
                      HEAP_TOP - HEAP_BOTTOM - META, BinOf(HEAP_TOP - HEAP_BOTTOM - META));
      }
      forall i | 0 <= i < BINS
        ensures BinOk(mem, chunks, base, lists, i)
      {
        HeadsApart(base, i, MISC_BIN, HEAP_BOTTOM);
        assert HeadOf(base, i) in m;
      }
    }

    /** NEXT_BLOCK: the address behind the chunk, or 0 at the top of the heap. */
    function NextBlock(h: nat): nat
      requires h in mem
      reads this
    {
      if h + mem[h].size < HEAP_TOP then h + mem[h].size else 0
    }

    /** Take the header at `x` out of the list it is in. */
    method UnlinkHeader(x: nat)
      requires x in mem && mem[x].prev in mem && (mem[x].next != 0 ==> mem[x].next in mem)
      modifies this`mem
      ensures mem == Unlink(old(mem), x)
    {
      var prev, next := mem[x].prev, mem[x].next;
      mem := mem[prev := mem[prev].(next := next)];
      if next != 0 {
        mem := mem[next := mem[next].(prev := prev)];
      }
    }

    /** Where a free chunk is listed. */
    lemma Position(x: nat, loose: nat) returns (i: nat, k: nat)
      requires ValidBut(loose) && x in chunks && chunks[x].Vacant?
      ensures META <= chunks[x].size && i == BinOf(chunks[x].size - META) && i < |lists| && k < |lists[i]|
      ensures lists[i][k] == x
    {
      assert Filed(chunks, lists, x);
      i := BinOf(chunks[x].size - META);
      k :| 0 <= k < |lists[i]| && lists[i][k] == x;
    }

    /** First half of __free: join the chunk at `h` with a free chunk behind it. */
    method Coalesce(h: nat)
      requires ValidBut(h) && h in chunks && chunks[h].Used? && h in mem && mem[h].size == chunks[h].size
      modifies this`mem, this`chunks, this`lists
      ensures ValidBut(h) && h in chunks && chunks[h].Used? && h in mem && mem[h].size == chunks[h].size
      ensures chunks[h := Vacant(chunks[h].size)] == Release(old(chunks), h)
      ensures mem.Keys == old(mem).Keys && forall y :: y in mem ==> mem[y].free == old(mem)[y].free
    {
      assert Followed(chunks, h) && Placed(chunks, h);
      assert HEAP_TOP in chunks ==> Placed(chunks, HEAP_TOP);
      var n := NextBlock(h);
      if n != 0 {
        assert n in chunks && Recorded(mem, pads, chunks, n);
        if mem[n].free {
          Join(h, n);
        }
      }
    }

    method Join(h: nat, n: nat)
      requires ValidBut(h) && h in chunks && chunks[h].Used? && h in mem && mem[h].size == chunks[h].size
      requires n == h + chunks[h].size && n in chunks && chunks[n].Vacant?
      modifies this`mem, this`chunks, this`lists
      ensures ValidBut(h) && h in chunks && chunks[h].Used? && h in mem && mem[h].size == chunks[h].size
      ensures chunks == (old(chunks) - {n})[h := Used(old(chunks)[h].size + old(chunks)[n].size, 0)]
      ensures mem.Keys == old(mem).Keys && forall y :: y in mem ==> mem[y].free == old(mem)[y].free
    {
      ghost var i, k := Position(n, h);
      JoinKeepsInvariant(mem, pads, chunks, base, lists, i, k, h);
      UnlinkHeader(n);
      mem := mem[h := mem[h].(size := mem[h].size + mem[n].size)];
      chunks := (chunks - {n})[h := Used(mem[h].size, 0)];
      lists := lists[i := Remove(lists[i], k)];
    }

    /** Second half of __free: mark the chunk at `h` free and file it in its bin. */
    method File(h: nat)
      requires ValidBut(h) && h in chunks && chunks[h].Used? && h in mem && mem[h].size == chunks[h].size
      modifies this`mem, this`chunks, this`lists
      ensures Valid() && chunks == old(chunks)[h := Vacant(old(chunks)[h].size)]
      ensures mem.Keys == old(mem).Keys && forall y :: y in mem ==> mem[y].free == (y == h || old(mem)[y].free)
    {
      assert Placed(chunks, h);
      var size := mem[h].size;
      var bin := LengthToBinIndex(size - META);
      ghost var s := lists[bin];
      ghost var head := HeadOf(base, bin);
      assert BinOk(mem, chunks, base, lists, bin);
      var p := mem[HeadOf(base, bin)].next;
      ghost var k := 0;
      while p != 0
        invariant k <= |s| && p == At(s, k)
        invariant forall j :: 0 <= j < k ==> s[j] in chunks && chunks[s[j]].size < size
        decreases |s| - k
      {
        assert LinkAt(mem, head, s, k) && Belongs(chunks, s[k], bin) && Recorded(mem, pads, chunks, s[k]);
        if mem[p].size >= size {
          break;
        }
        p := mem[p].next;
        k := k + 1;
      }
      var prev: nat;
      if p != 0 {
        assert LinkAt(mem, head, s, k);
        prev := mem[p].prev;
      } else {
        prev := FindLast(bin);
      }
      assert prev == Before(head, s, k) && p == At(s, k);
      assert Slot(chunks, s, k, size);
      FileAt(h, bin, k, prev, p);
    }

    /** The last header of a bin: its head when the bin is empty. */
    method FindLast(bin: nat) returns (q: nat)
      requires BinsOk(mem, chunks, base, lists) && bin < BINS
      ensures q == Before(HeadOf(base, bin), lists[bin], |lists[bin]|)
    {
      ghost var s, head := lists[bin], HeadOf(base, bin);
      assert BinOk(mem, chunks, base, lists, bin);
      q := HeadOf(base, bin);
      ghost var k := 0;
      while mem[q].next != 0
        invariant k <= |s| && q == Before(head, s, k) && q in mem && mem[q].next == At(s, k)
        decreases |s| - k
      {
        assert LinkAt(mem, head, s, k);
        q := mem[q].next;
        k := k + 1;
      }
    }

    /** Link the chunk at `h` between two neighbours of a bin. */
    method FileAt(h: nat, bin: nat, ghost k: nat, prev: nat, next: nat)
      requires ValidBut(h) && h in chunks && chunks[h].Used? && h in mem && mem[h].size == chunks[h].size
      requires META <= chunks[h].size && bin == BinOf(chunks[h].size - META)
      requires (forall y :: y in lists[bin] ==> y in chunks) && Slot(chunks, lists[bin], k, chunks[h].size)
      requires prev == Before(HeadOf(base, bin), lists[bin], k) && next == At(lists[bin], k)
      modifies this`mem, this`chunks, this`lists
      ensures Valid() && chunks == old(chunks)[h := Vacant(old(chunks)[h].size)]
      ensures mem.Keys == old(mem).Keys && forall y :: y in mem ==> mem[y].free == (y == h || old(mem)[y].free)
    {
      ghost var mem0 := mem;
      FileAtKeepsBins(mem, chunks, base, lists, bin, k, h);
      FileAtKeepsRecorded(mem, pads, chunks, h, prev, next);
      SameSizesTiled(chunks, chunks[h := Vacant(chunks[h].size)]);
      mem := mem[h := mem[h].(free := true, padding := 0)];
      mem := mem[h := mem[h].(prev := prev, next := next)];
      mem := mem[prev := mem[prev].(next := h)];
      if next != 0 {
        mem := mem[next := mem[next].(prev := h)];
      }
      assert mem == LinkIn(MarkFree(mem0, h), h, prev, next);
      lists := lists[bin := Insert(lists[bin], k, h)];
      chunks := chunks[h := Vacant(chunks[h].size)];
    }

    /** __free */
    method ReleaseChunk(h: nat)
      requires ValidBut(h) && h in chunks && chunks[h].Used? && h in mem && mem[h].size == chunks[h].size
      modifies this`mem, this`chunks, this`lists
      ensures Valid() && chunks == Release(old(chunks), h)
      ensures mem.Keys == old(mem).Keys && forall y :: y in mem ==> mem[y].free == (y == h || old(mem)[y].free)
    {
      Coalesce(h);
      File(h);
    }

    /** __malloc: try to allocate in the free chunk at `h`; 0 when it does not fit. */
    method MallocChunk(h: nat, len: nat, align: nat) returns (ptr: nat)
      requires Valid() && h in chunks && chunks[h].Vacant? && PowerOfTwo(align)
      modifies this`mem, this`pads, this`chunks, this`lists
      ensures Valid()
      ensures ptr != 0 <==> Fits(old(chunks), h, len, align)
      ensures ptr != 0 ==> ptr == h + META + Padding(h, align) && chunks == Carve(old(chunks), h, len, align)
      ensures ptr == 0 ==> unchanged(this)
    {
      assert Recorded(mem, pads, chunks, h) && Placed(chunks, h);
      var size := mem[h].size;
      if len + HDR + PAD > size {
        return 0;
      }
      var p := 0;
      if (h + HDR + PAD) % align != 0 {
        p := align - (h + HDR + PAD) % align;
      }
      assert p == Padding(h, align);
      if len + HDR + PAD + p > size {
        return 0;
      }
      var left := size - HDR - PAD - p - len;
      var keep := if left > META then size - left else size;
      HandOutChunk(h, keep, p);
      if keep < size {
        ReleaseChunk(h + keep);
      }
      return h + META + p;
    }

    /**
     The middle of __malloc: unlink the chunk at `h` and rewrite its headers, splitting it when `keep` is less than
     its size.
     */
    method HandOutChunk(h: nat, keep: nat, p: nat)
      requires Valid() && h in chunks && chunks[h].Vacant? && META + p <= keep <= chunks[h].size
      requires keep < chunks[h].size ==> META <= chunks[h].size - keep
      modifies this`mem, this`pads, this`chunks, this`lists
      ensures chunks == HandOutChunks(old(chunks), h, keep, p)
      ensures keep < old(chunks)[h].size ==>
                ValidBut(h + keep) && h + keep in mem && mem[h + keep].size == old(chunks)[h].size - keep
      ensures keep == old(chunks)[h].size ==> Valid()
    {
      assert h in mem && mem[h].size == chunks[h].size by {
        assert Recorded(mem, pads, chunks, h);
      }
      var size := mem[h].size;
      ghost var i, k := Position(h, 0);
      HandOutKeepsInvariant(mem, pads, chunks, base, lists, i, k, keep, p);
      UnlinkHeader(h);
      RewriteHeaders(h, size, keep, p);
      lists := lists[i := Remove(lists[i], k)];
      chunks := HandOutChunks(chunks, h, keep, p);
    }

    method RewriteHeaders(h: nat, size: nat, keep: nat, p: nat)
      requires keep <= size
      modifies this`mem, this`pads
      ensures mem == HandOut(old(mem), h, size, keep, p)
      ensures pads == Forget(old(pads), h, h + size)[h + HDR + p := p % PAD_LIMIT]
    {
      mem := Forget(mem, h + 1, h + size);
      pads := Forget(pads, h, h + size);
      if keep < size {
        mem := mem[h + keep := Header(0, 0, size - keep, 0, true)];
      }
      mem := mem[h := Header(0, 0, keep, p % PAD_LIMIT, false)];
      pads := pads[h + HDR + p := p % PAD_LIMIT];
    }

    /** malloc_align: walk the bins from the one for `len` upwards; 0 when nothing fits. */
    method MallocAlign(len: nat, align: nat) returns (ptr: nat, ghost at: nat)
      requires Valid() && PowerOfTwo(align)
      modifies this`mem, this`pads, this`chunks, this`lists
      ensures Valid()
      ensures ptr == 0 ==> unchanged(this) && forall a :: !Fits(chunks, a, len, align)
      ensures ptr != 0 ==> BestFit(old(chunks), at, len, align) && ptr == at + META + Padding(at, align)
                           && chunks == Carve(old(chunks), at, len, align)
    {
      var start := LengthToBinIndex(len);
      var bin := start;
      while bin < BINS
        invariant start <= bin <= BINS && unchanged(this)
        invariant forall j :: start <= j < bin ==> NoneFits(chunks, lists[j], |lists[j]|, len, align)
      {
        ghost var s, head, k := lists[bin], HeadOf(base, bin), 0;
        assert BinOk(mem, chunks, base, lists, bin);
        var x := mem[HeadOf(base, bin)].next;
        while x != 0
          invariant k <= |s| && x == At(s, k) && unchanged(this)
          invariant NoneFits(chunks, s, k, len, align)
          decreases |s| - k
        {
          assert LinkAt(mem, head, s, k) && Belongs(chunks, s[k], bin);
          ptr := MallocChunk(x, len, align);
          if ptr != 0 {
            at := x;
            FirstFitIsBestFit(old(mem), old(chunks), base, old(lists), start, bin, k, len, align);
            return ptr, x;
          }
          x := mem[x].next;
          k := k + 1;
        }
        bin := bin + 1;
      }
      NothingFits(mem, chunks, base, lists, start, len, align);
      return 0, 0;
    }

    /** The header that `free` computes from a user pointer. */
    function HeaderOf(ptr: nat): int
      requires PAD <= ptr && ptr - PAD in pads
      reads this
    {
      ptr - PAD - pads[ptr - PAD] - HDR
    }

    /** `ptr` is the user pointer of the allocated chunk at `a`. */
    ghost predicate Owns(a: nat, ptr: nat)
      reads this
    {
      a in chunks && chunks[a].Used? && ptr == a + META + chunks[a].padding
    }

    /** `free` finds a header marked free behind `ptr`. */
    ghost predicate Freed(ptr: nat)
      reads this
    {
      PAD <= ptr && ptr - PAD in pads && HeaderOf(ptr) in mem && mem[HeaderOf(ptr)].free
    }

    /** The padding field has 16 bits: `free` finds the header of a live chunk exactly when its padding fits. */
    lemma FreeFindsHeader(a: nat, ptr: nat)
      requires Valid() && Owns(a, ptr)
      ensures PAD <= ptr && ptr - PAD in pads
      ensures HeaderOf(ptr) == a <==> chunks[a].padding < PAD_LIMIT
    {
      assert Placed(chunks, a) && Recorded(mem, pads, chunks, a);
    }

    /** free: release the chunk of `ptr`, or do nothing when its header is marked free already. */
    method Free(ptr: nat, ghost a: nat)
      requires Valid()
      requires Freed(ptr) || (Owns(a, ptr) && chunks[a].padding < PAD_LIMIT)
      modifies this`mem, this`chunks, this`lists
      ensures Valid()
      ensures old(Freed(ptr)) ==> unchanged(this)
      ensures !old(Freed(ptr)) ==> chunks == Release(old(chunks), a)
      ensures Freed(ptr) && forall q :: old(Freed(q)) ==> Freed(q)
    {
      ghost var freed := Freed(ptr);
      if !freed {
        FreeFindsHeader(a, ptr);
        assert Placed(chunks, a) && Recorded(mem, pads, chunks, a);
      }
      var h := ptr - PAD - pads[ptr - PAD] - HDR;
      if mem[h].free {
        return;
      }
      ReleaseChunk(h);
    }

    /**
     The four frees at the end of reclaim_task and free_task, the kernel stack twice: as good as freeing three chunks
     once.
     */
    method FreeTask(stack: nat, signalStack: nat, task: nat, ghost a: nat, ghost b: nat, ghost t: nat)
      requires Valid() && a != b && a != t && b != t
      requires Owns(a, stack) && Owns(b, signalStack) && Owns(t, task)
      requires chunks[a].padding < PAD_LIMIT && chunks[b].padding < PAD_LIMIT && chunks[t].padding < PAD_LIMIT
      modifies this`mem, this`chunks, this`lists
      ensures Valid() && Freed(stack) && Freed(signalStack) && Freed(task)
      ensures a in old(chunks) && b in Release(old(chunks), a) && t in Release(Release(old(chunks), a), b)
      ensures chunks == Release(Release(Release(old(chunks), a), b), t)
    {
      OwnerNotFreed(a, stack);
      Free(stack, a);
      OwnerNotFreed(b, signalStack);
      Free(signalStack, b);
      Free(stack, a);
      OwnerNotFreed(t, task);
      Free(task, t);
    }

    lemma OwnerNotFreed(a: nat, ptr: nat)
      requires Valid() && Owns(a, ptr) && chunks[a].padding < PAD_LIMIT
      ensures !Freed(ptr)
    {
      FreeFindsHeader(a, ptr);
      assert Placed(chunks, a) && Recorded(mem, pads, chunks, a);
    }
  }

  /**
   On a fresh heap a request aligned to 128 KB gets padding 0x1FFEC, of which the headers keep 0xFFEC: `free` would
   take an address 64 KB into the chunk for its header.
   */
  method WideAlignmentLosesHeader(heap: Heap) returns (ptr: nat)
    requires heap.Valid() && heap.chunks == map[HEAP_BOTTOM := Vacant(HEAP_TOP - HEAP_BOTTOM)]
    modifies heap
    ensures heap.Valid() && heap.Owns(HEAP_BOTTOM, ptr) && heap.chunks[HEAP_BOTTOM].padding == 0x1FFEC
    ensures PAD <= ptr && ptr - PAD in heap.pads && heap.HeaderOf(ptr) == HEAP_BOTTOM + 0x10000
  {
    assert PowerOfTwo(0x20000) by {
      PowersOfInterest();
    }
    ghost var at;
    ghost var before := heap.chunks;
    assert Fits(before, HEAP_BOTTOM, 16, 0x20000);
    ptr, at := heap.MallocAlign(16, 0x20000);
    assert at == HEAP_BOTTOM && heap.chunks[at].padding == 0x1FFEC;
    assert Recorded(heap.mem, heap.pads, heap.chunks, at);
  }

  const WHOLE: nat := HEAP_TOP - HEAP_BOTTOM

  /**
   Two allocations on a fresh heap, freed in the order they were made: everything is free again, but in two chunks, and
   the request that the fresh heap would have met now fails.
   */
  method FreedHeapStaysSplit(heap: Heap) returns (ptr: nat)
    requires heap.Valid() && heap.chunks == map[HEAP_BOTTOM := Vacant(WHOLE)]
    modifies heap
    ensures heap.Valid() && (forall a :: a in heap.chunks ==> heap.chunks[a].Vacant?)
    ensures heap.chunks == map[HEAP_BOTTOM := Vacant(META + 16), HEAP_BOTTOM + META + 16 := Vacant(WHOLE - META - 16)]
    ensures old(Fits(heap.chunks, HEAP_BOTTOM, WHOLE - META, 1)) && ptr == 0
  {
    hide Invariant, Release, Carve;
    var first, second := TwoInUse(heap);
    NoPadding(HEAP_BOTTOM);
    NoPadding(HEAP_BOTTOM + 36);
    OneIsPower();
    FreeBoth(heap, first, second);
    ghost var at;
    ptr, at := heap.MallocAlign(WHOLE - META, 1);
  }

  method TwoInUse(heap: Heap) returns (first: nat, second: nat)
    requires heap.Valid() && heap.chunks == map[HEAP_BOTTOM := Vacant(WHOLE)]
    modifies heap
    ensures heap.Valid() && heap.Owns(HEAP_BOTTOM, first) && heap.Owns(HEAP_BOTTOM + 36, second)
    ensures heap.chunks ==
            map[HEAP_BOTTOM := Used(36, 0), HEAP_BOTTOM + 36 := Used(36, 0), HEAP_BOTTOM + 72 := Vacant(WHOLE - 72)]
  {
    hide Invariant;
    OneIsPower();
    NoPadding(HEAP_BOTTOM);
    NoPadding(HEAP_BOTTOM + 36);
    ghost var at;
    assert Fits(heap.chunks, HEAP_BOTTOM, 16, 1);
    first, at := heap.MallocAlign(16, 1);
    assert heap.chunks == map[HEAP_BOTTOM := Used(36, 0), HEAP_BOTTOM + 36 := Vacant(WHOLE - 36)];
    assert Fits(heap.chunks, HEAP_BOTTOM + 36, 16, 1);
    second, at := heap.MallocAlign(16, 1);
  }

  method FreeBoth(heap: Heap, first: nat, second: nat)
    requires heap.Valid() && heap.Owns(HEAP_BOTTOM, first) && heap.Owns(HEAP_BOTTOM + 36, second)
    requires heap.chunks ==
             map[HEAP_BOTTOM := Used(36, 0), HEAP_BOTTOM + 36 := Used(36, 0), HEAP_BOTTOM + 72 := Vacant(WHOLE - 72)]
    modifies heap
    ensures heap.Valid()
    ensures heap.chunks == map[HEAP_BOTTOM := Vacant(36), HEAP_BOTTOM + 36 := Vacant(WHOLE - 36)]
  {
    hide Invariant;
    heap.OwnerNotFreed(HEAP_BOTTOM, first);
    heap.Free(first, HEAP_BOTTOM);
    heap.OwnerNotFreed(HEAP_BOTTOM + 36, second);
    heap.Free(second, HEAP_BOTTOM + 36);
  }

  lemma NoPadding(a: nat)
    ensures Padding(a, 1) == 0
  {
  }
}
