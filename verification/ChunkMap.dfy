/**
 The kernel heap of memory/malloc.c as a map from chunk addresses to chunks.

 Chunks tile the address range [HEAP_BOTTOM, HEAP_TOP).  This module says what allocation and
 release do to that map; `KernelHeap` holds the headers, the bins and the code itself.
 */
module ChunkMap {
  import opened Common

  const HEAP_BOTTOM: nat := 0x8000000
  const HEAP_TOP: nat := 0x1F000000
  const HDR: nat := 16
  const PAD: nat := 4
  const META: nat := HDR + PAD

  /** A chunk as the allocator sees it; `padding` is the alignment gap before the user pointer. */
  datatype Chunk = Vacant(size: nat) | Used(size: nat, padding: nat)

  type Chunks = map<nat, Chunk>

  predicate Placed(c: Chunks, a: nat)
    requires a in c
  {
    HEAP_BOTTOM <= a && META <= c[a].size && a + c[a].size <= HEAP_TOP
  }

  /** Of two chunks the lower one ends before the higher one starts. */
  predicate Apart(c: Chunks, a: nat, b: nat)
    requires a in c && b in c
  {
    (a < b ==> a + c[a].size <= b) && (b < a ==> b + c[b].size <= a)
  }

  /** Where the chunk at `a` ends, another one starts or the heap ends. */
  predicate Followed(c: Chunks, a: nat)
    requires a in c
  {
    a + c[a].size == HEAP_TOP || a + c[a].size in c
  }

  /** The chunks cover the heap exactly, each big enough for its two headers. */
  ghost predicate Tiled(c: Chunks) {
    && HEAP_BOTTOM in c
    && (forall a {:trigger Placed(c, a)} :: a in c ==> Placed(c, a))
    && (forall a {:trigger Followed(c, a)} :: a in c ==> Followed(c, a))
    && (forall a, b {:trigger Apart(c, a, b)} :: a in c && b in c ==> Apart(c, a, b))
  }

  /** The addresses reached from `a` by adding sizes. */
  ghost function Walk(c: Chunks, a: nat): (s: seq<nat>)
    requires Tiled(c) && (a in c || a == HEAP_TOP)
    decreases HEAP_TOP - a
  {
    if a == HEAP_TOP then [] else assert Followed(c, a) && Placed(c, a); [a] + Walk(c, a + c[a].size)
  }

  /** Adding sizes from the heap bottom meets every chunk exactly once, in address order, and ends at the top. */
  lemma {:induction false} WalkMeetsEveryChunk(c: Chunks, a: nat)
    requires Tiled(c) && (a in c || a == HEAP_TOP)
    ensures forall x :: x in Walk(c, a) <==> x in c && a <= x
    ensures forall i, j :: 0 <= i < j < |Walk(c, a)| ==> Walk(c, a)[i] < Walk(c, a)[j]
    decreases HEAP_TOP - a
  {
    if a != HEAP_TOP {
      assert Followed(c, a) && Placed(c, a);
      WalkMeetsEveryChunk(c, a + c[a].size);
      var w := Walk(c, a + c[a].size);
      forall x | x in c && a < x
        ensures x in w
      {
        assert Apart(c, a, x);
      }
      assert Walk(c, a) == [a] + w;
      assert forall i :: 0 <= i < |w| ==> w[i] in w;
    } else {
      assert forall x :: x in c ==> Placed(c, x);
    }
  }

  ghost function TotalSize(c: Chunks, s: seq<nat>): nat
    requires forall x :: x in s ==> x in c
  {
    if s == [] then 0 else c[s[0]].size + TotalSize(c, s[1..])
  }

  /** No byte of the heap is lost or counted twice. */
  lemma {:induction false} WalkConservesBytes(c: Chunks, a: nat)
    requires Tiled(c) && (a in c || a == HEAP_TOP)
    ensures forall x :: x in Walk(c, a) ==> x in c
    ensures TotalSize(c, Walk(c, a)) == HEAP_TOP - a
    decreases HEAP_TOP - a
  {
    WalkMeetsEveryChunk(c, a);
    if a != HEAP_TOP {
      assert Followed(c, a) && Placed(c, a);
      WalkConservesBytes(c, a + c[a].size);
      assert Walk(c, a)[1..] == Walk(c, a + c[a].size);
    }
  }

  /** Release chunk `h`, joining it with the chunk behind it when that one is free. */
  function Release(c: Chunks, h: nat): Chunks
    requires h in c
  {
    var n := h + c[h].size;
    if n in c && c[n].Vacant? then (c - {n})[h := Vacant(c[h].size + c[n].size)]
    else c[h := Vacant(c[h].size)]
  }

  lemma SameSizesTiled(c: Chunks, d: Chunks)
    requires Tiled(c) && d.Keys == c.Keys && forall a :: a in c ==> d[a].size == c[a].size
    ensures Tiled(d)
  {
    forall a | a in d
      ensures Followed(d, a) && Placed(d, a)
    {
      assert Followed(c, a) && Placed(c, a);
    }
    forall a, b | a in d && b in d
      ensures Apart(d, a, b)
    {
      assert Apart(c, a, b);
    }
  }

  lemma MergeKeepsApart(c: Chunks, h: nat, u: Chunk, a: nat, b: nat)
    requires Tiled(c) && h in c && h + c[h].size in c && u.size == c[h].size + c[h + c[h].size].size
    requires a in (c - {h + c[h].size})[h := u] && b in (c - {h + c[h].size})[h := u] && a < b
    ensures a + (c - {h + c[h].size})[h := u][a].size <= b
  {
    var n := h + c[h].size;
    assert Placed(c, n) && Placed(c, h);
    assert b != n;
    assert Apart(c, a, b);
    if a == h {
      assert Apart(c, n, b);
    }
  }

  lemma MergeKeepsPlaces(c: Chunks, h: nat, u: Chunk, a: nat)
    requires Tiled(c) && h in c && h + c[h].size in c && u.size == c[h].size + c[h + c[h].size].size
    requires a in (c - {h + c[h].size})[h := u]
    ensures Followed((c - {h + c[h].size})[h := u], a) && Placed((c - {h + c[h].size})[h := u], a)
  {
    var n := h + c[h].size;
    assert Placed(c, h) && Placed(c, n) && Followed(c, n) && Followed(c, a) && Placed(c, a) && Apart(c, a, h);
  }

  lemma MergeKeepsTiled(c: Chunks, h: nat, u: Chunk)
    requires Tiled(c) && h in c && h + c[h].size in c && u.size == c[h].size + c[h + c[h].size].size
    ensures Tiled((c - {h + c[h].size})[h := u])
  {
    var d := (c - {h + c[h].size})[h := u];
    forall a | a in d
      ensures Followed(d, a) && Placed(d, a)
    {
      MergeKeepsPlaces(c, h, u, a);
    }
    forall a, b | a in d && b in d
      ensures Apart(d, a, b)
    {
      if a < b {
        MergeKeepsApart(c, h, u, a, b);
      } else if b < a {
        MergeKeepsApart(c, h, u, b, a);
      }
    }
    assert HEAP_BOTTOM in d by {
      assert Placed(c, h);
    }
  }

  lemma ReleaseKeepsTiled(c: Chunks, h: nat)
    requires Tiled(c) && h in c
    ensures Tiled(Release(c, h))
  {
    var n := h + c[h].size;
    if n in c && c[n].Vacant? {
      MergeKeepsTiled(c, h, Vacant(c[h].size + c[n].size));
    } else {
      SameSizesTiled(c, c[h := Vacant(c[h].size)]);
    }
  }

  /** Bytes to skip so that the user pointer of a chunk at `a` is a multiple of `align`. */
  function Padding(a: nat, align: nat): (p: nat)
    requires 0 < align
    ensures (a + META + p) % align == 0 && p < align
  {
    var r := (a + META) % align;
    if r == 0 then 0 else PaddingAligns(a + META, align); align - r
  }

  lemma PaddingAligns(u: nat, align: nat)
    requires 0 < align && u % align != 0
    ensures (u + (align - u % align)) % align == 0
  {
    var x := u + (align - u % align);
    var t := u / align + 1 - x / align;
    assert x % align == t * align;
    if t >= 1 {
      MulAtLeast(t, align);
    } else if t <= -1 {
      MulAtLeast(-t, align);
    }
  }

  predicate Fits(c: Chunks, a: nat, len: nat, align: nat)
    requires 0 < align
  {
    a in c && c[a].Vacant? && len + META + Padding(a, align) <= c[a].size
  }

  /** A free chunk fits exactly if behind its headers it has room for `len` bytes at a multiple of `align`. */
  lemma FitsIffRoom(c: Chunks, a: nat, len: nat, align: nat)
    requires 0 < align && a in c && c[a].Vacant?
    ensures Fits(c, a, len, align) <==> exists u: nat :: u % align == 0 && a + META <= u && u + len <= a + c[a].size
  {
    var v := a + META + Padding(a, align);
    if u: nat :| u % align == 0 && a + META <= u && u + len <= a + c[a].size {
      LeastMultiple(a + META, v, u, align);
    }
    if Fits(c, a, len, align) {
      assert v % align == 0;
    }
  }

  /** Two multiples are not less than `align` apart. */
  lemma LeastMultiple(low: nat, v: nat, u: nat, align: nat)
    requires 0 < align && v % align == 0 && u % align == 0 && low <= u && v < low + align
    ensures v <= u
  {
    if u < v {
      var t := v / align - u / align;
      assert v - u == t * align;
      if t >= 1 {
        MulAtLeast(t, align);
      } else {
        MulAtLeast(1 - t, align);
      }
    }
  }

  /** Allocate `len` bytes at `align` in the free chunk `a`; what is left over is split off and released. */
  function Carve(c: Chunks, a: nat, len: nat, align: nat): Chunks
    requires 0 < align && Fits(c, a, len, align)
  {
    var p := Padding(a, align);
    var left := c[a].size - META - p - len;
    if left > META then
      Release(c[a := Used(c[a].size - left, p)][a + c[a].size - left := Used(left, 0)], a + c[a].size - left)
    else
      c[a := Used(c[a].size, p)]
  }

  lemma SplitKeepsApart(c: Chunks, a: nat, left: nat, u: Chunk, v: Chunk, x: nat, z: nat)
    requires Tiled(c) && a in c && META <= left && META + left <= c[a].size
    requires u.size == c[a].size - left && v.size == left
    requires x in c[a := u][a + c[a].size - left := v] && z in c[a := u][a + c[a].size - left := v]
    ensures Apart(c[a := u][a + c[a].size - left := v], x, z)
  {
    assert Placed(c, a);
    if x in c {
      assert Apart(c, x, a) && Placed(c, x);
    }
    if z in c {
      assert Apart(c, z, a) && Placed(c, z);
    }
    if x in c && z in c {
      assert Apart(c, x, z);
    }
  }

  lemma SplitKeepsTiled(c: Chunks, a: nat, left: nat, u: Chunk, v: Chunk)
    requires Tiled(c) && a in c && META <= left && META + left <= c[a].size
    requires u.size == c[a].size - left && v.size == left
    ensures Tiled(c[a := u][a + c[a].size - left := v])
    ensures a + c[a].size - left !in c
  {
    var d := c[a := u][a + c[a].size - left := v];
    var y := a + c[a].size - left;
    assert y !in c by {
      assert Placed(c, a);
      assert y in c ==> Apart(c, a, y);
    }
    forall x | x in d
      ensures Followed(d, x) && Placed(d, x)
    {
      assert Followed(c, a) && Placed(c, a);
      if x in c {
        assert Followed(c, x) && Placed(c, x);
      }
    }
    forall x, z | x in d && z in d
      ensures Apart(d, x, z)
    {
      SplitKeepsApart(c, a, left, u, v, x, z);
    }
  }

  lemma CarveKeepsTiled(c: Chunks, a: nat, len: nat, align: nat)
    requires Tiled(c) && 0 < align && Fits(c, a, len, align)
    ensures Tiled(Carve(c, a, len, align))
  {
    var p := Padding(a, align);
    var left := c[a].size - META - p - len;
    if left > META {
      SplitKeepsTiled(c, a, left, Used(c[a].size - left, p), Used(left, 0));
      ReleaseKeepsTiled(c[a := Used(c[a].size - left, p)][a + c[a].size - left := Used(left, 0)], a + c[a].size - left);
    } else {
      SameSizesTiled(c, c[a := Used(c[a].size, p)]);
    }
  }

  /** The bytes [lo, hi) and the whole chunk at `b` do not overlap. */
  predicate Clear(c: Chunks, b: nat, lo: nat, hi: nat)
    requires b in c
  {
    b + c[b].size <= lo || hi <= b
  }

  /**
   What a caller gets: an aligned region of `len` bytes inside the chunk at `a`, behind its two headers, that
   overlaps no other chunk (so no other region and no other header); every region handed out before is still there.
   */
  lemma CarveGivesRegion(c: Chunks, a: nat, len: nat, align: nat)
    requires Tiled(c) && 0 < align && Fits(c, a, len, align)
    ensures var d, u := Carve(c, a, len, align), a + META + Padding(a, align);
            && u % align == 0
            && a in d && d[a].Used? && u == a + META + d[a].padding && u + len <= a + d[a].size <= HEAP_TOP
            && (forall b {:trigger Clear(d, b, u, u + len)} :: b in d && b != a ==>
                  Clear(d, b, a, a + d[a].size) && Clear(d, b, u, u + len))
            && (forall b :: b in c && c[b].Used? ==> b in d && d[b] == c[b])
            && (forall b :: b in d && d[b].Used? ==> b == a || (b in c && d[b] == c[b]))
  {
    CarveKeepsTiled(c, a, len, align);
    var d, p := Carve(c, a, len, align), Padding(a, align);
    var left := c[a].size - META - p - len;
    if left > META {
      SplitKeepsTiled(c, a, left, Used(c[a].size - left, p), Used(left, 0));
    }
    assert Placed(c, a) && Placed(d, a);
    forall b | b in d && b != a
      ensures Clear(d, b, a, a + d[a].size) && Clear(d, b, a + META + p, a + META + p + len)
    {
      assert Apart(d, a, b);
    }
  }

  /** Where the chunk at `a` ended before the allocation, a free chunk that starts at `r` ends, or ends behind it. */
  predicate RestCovers(c: Chunks, d: Chunks, a: nat, r: nat)
    requires a in c
  {
    && r in d && d[r].Vacant?
    && var end := a + c[a].size;
       r + d[r].size == if end in c && c[end].Vacant? then end + c[end].size else end
  }

  /**
   An allocation keeps what it needs and at most the size of two headers more.  The rest is split off exactly if it
   exceeds that size; it is a free chunk, joined with a free chunk behind it.  All other chunks are as they were.
   */
  lemma CarveSplitsIff(c: Chunks, a: nat, len: nat, align: nat)
    requires Tiled(c) && 0 < align && Fits(c, a, len, align)
    ensures var d, end := Carve(c, a, len, align), a + c[a].size;
            var need := META + Padding(a, align) + len;
            && a in d && need <= d[a].size <= need + META
            && (d[a].size < c[a].size <==> c[a].size - need > META)
            && (a + d[a].size < end ==> d[a].size == need && RestCovers(c, d, a, a + need))
            && (forall b :: b in d ==> b in c || b == a + d[a].size)
            && (forall b :: b in c && b != a && b !in d ==> b == end && c[b].Vacant?)
            && (forall b :: b in c && b != a && b in d ==> d[b] == c[b])
  {
    assert Placed(c, a);
    var p := Padding(a, align);
    var left := c[a].size - META - p - len;
    if left > META {
      SplitKeepsTiled(c, a, left, Used(c[a].size - left, p), Used(left, 0));
      var end := a + c[a].size;
      assert end in c ==> Placed(c, end);
    }
  }

  /** A release frees this chunk, with the bytes of a free one behind it, and touches no other. */
  lemma ReleaseFreesOne(c: Chunks, h: nat)
    requires Tiled(c) && h in c
    ensures var d, n := Release(c, h), h + c[h].size;
            && h in d && d[h].Vacant?
            && (h + d[h].size == if n in c && c[n].Vacant? then n + c[n].size else n)
            && d.Keys == (if n in c && c[n].Vacant? then c.Keys - {n} else c.Keys)
            && (forall b :: b in d && b != h ==> d[b] == c[b])
  {
    assert Placed(c, h);
  }

  // ---------------------------------------------------------------- neighbours

  /** If the chunk at `a` is free, the one behind it is not. */
  predicate Lone(c: Chunks, a: nat)
    requires a in c
  {
    c[a].Vacant? && a + c[a].size in c ==> c[a + c[a].size].Used?
  }

  /** No two free chunks are neighbours. */
  ghost predicate Coalesced(c: Chunks) {
    forall a {:trigger Lone(c, a)} :: a in c ==> Lone(c, a)
  }

  /** The chunk that ends at `h` is free. */
  ghost predicate FreeBefore(c: Chunks, h: nat) {
    exists a {:trigger Lone(c, a)} :: a in c && c[a].Vacant? && a + c[a].size == h
  }

  /** A release looks at the chunk behind only: it leaves no free neighbours exactly if the chunk in front is in use. */
  lemma ReleaseCoalescesIff(c: Chunks, h: nat)
    requires Tiled(c) && h in c && c[h].Used? && Coalesced(c)
    ensures Coalesced(Release(c, h)) <==> !FreeBefore(c, h)
  {
    var d, n := Release(c, h), h + c[h].size;
    assert Placed(c, h);
    if FreeBefore(c, h) {
      var a :| a in c && c[a].Vacant? && a + c[a].size == h;
      assert Placed(c, a);
      assert a in d && d[a] == c[a] && d[h].Vacant?;
      assert !Lone(d, a);
    } else {
      forall a | a in d
        ensures Lone(d, a)
      {
        assert Lone(c, a) && (n in c ==> Lone(c, n) && Placed(c, n));
      }
    }
  }

  /** An allocation leaves no free neighbours where there were none. */
  lemma CarveKeepsCoalesced(c: Chunks, a: nat, len: nat, align: nat)
    requires Tiled(c) && 0 < align && Fits(c, a, len, align) && Coalesced(c)
    ensures Coalesced(Carve(c, a, len, align))
  {
    var p := Padding(a, align);
    var left := c[a].size - META - p - len;
    if left > META {
      var y := a + c[a].size - left;
      var d := c[a := Used(c[a].size - left, p)][y := Used(left, 0)];
      SplitKeepsTiled(c, a, left, Used(c[a].size - left, p), Used(left, 0));
      forall x | x in d
        ensures Lone(d, x) && (x + d[x].size == y ==> x == a)
      {
        assert Placed(d, x) && Placed(d, a) && Placed(d, y) && Apart(d, x, a);
        assert x in c ==> Lone(c, x);
      }
      ReleaseCoalescesIff(d, y);
    } else {
      var d := c[a := Used(c[a].size, p)];
      forall x | x in d
        ensures Lone(d, x)
      {
        assert Lone(c, x);
      }
    }
  }
}
