/**
 The page bitmaps of memory/include/paging.h and the page allocators of memory/paging.c.

 A page is named by its number, the address divided by 4096; a set bit means the page is occupied.
 */
module PageBitmap {

  const PAGE_SIZE: nat := 4096

  function Bit(b: bv8, k: nat): bool
    requires k < 8
  {
    (b >> k) & 1 == 1
  }

  function Mask(k: nat): bv8
    requires k < 8
  {
    1 << k
  }

  /** Or-ing a mask sets one bit; and-ing its complement clears one bit; the others stay. */
  lemma MaskBits(b: bv8, i: nat, j: nat)
    requires i < 8 && j < 8
    ensures Bit(b | Mask(i), j) == (i == j || Bit(b, j))
    ensures Bit(b & !Mask(i), j) == (i != j && Bit(b, j))
  {
    MaskTable(i);
    ShiftTable(b, j);
    ShiftTable(b | Mask(i), j);
    ShiftTable(b & !Mask(i), j);
    MaskTable(j);
  }

  lemma MaskTable(k: nat)
    requires k < 8
    ensures Mask(k) == if k == 0 then 1 else if k == 1 then 2 else if k == 2 then 4 else if k == 3 then 8
                       else if k == 4 then 16 else if k == 5 then 32 else if k == 6 then 64 else 128
  {
  }

  lemma ShiftTable(b: bv8, k: nat)
    requires k < 8
    ensures Bit(b, k) <==> b & Mask(k) != 0
  {
  }

  /** For each page whether its bit is set. */
  function BitsOf(bytes: seq<bv8>): (s: seq<bool>)
    ensures |s| == 8 * |bytes|
  {
    seq(8 * |bytes|, p requires 0 <= p < 8 * |bytes| => Bit(bytes[p / 8], p % 8))
  }

  lemma SameNumber(p: nat, q: nat)
    ensures p / 8 == q / 8 && p % 8 == q % 8 <==> p == q
  {
  }

  lemma OneBit(bytes: seq<bv8>, p: nat, b: bv8, v: bool)
    requires p < 8 * |bytes|
    requires forall k :: 0 <= k < 8 ==> Bit(b, k) == if k == p % 8 then v else Bit(bytes[p / 8], k)
    ensures BitsOf(bytes[p / 8 := b]) == BitsOf(bytes)[p := v]
  {
    hide Bit;
    var r, t := BitsOf(bytes[p / 8 := b]), BitsOf(bytes)[p := v];
    forall q | 0 <= q < |r|
      ensures r[q] == t[q]
    {
      SameNumber(p, q);
    }
  }

  lemma OneBitOn(bytes: seq<bv8>, p: nat)
    requires p < 8 * |bytes|
    ensures BitsOf(bytes[p / 8 := bytes[p / 8] | Mask(p % 8)]) == BitsOf(bytes)[p := true]
  {
    hide Bit, Mask, BitsOf;
    var b := bytes[p / 8] | Mask(p % 8);
    forall k | 0 <= k < 8
      ensures Bit(b, k) == if k == p % 8 then true else Bit(bytes[p / 8], k)
    {
      MaskBits(bytes[p / 8], p % 8, k);
    }
    OneBit(bytes, p, b, true);
  }

  lemma OneBitOff(bytes: seq<bv8>, p: nat)
    requires p < 8 * |bytes|
    ensures BitsOf(bytes[p / 8 := bytes[p / 8] & !Mask(p % 8)]) == BitsOf(bytes)[p := false]
  {
    hide Bit, Mask, BitsOf;
    var b := bytes[p / 8] & !Mask(p % 8);
    forall k | 0 <= k < 8
      ensures Bit(b, k) == if k == p % 8 then false else Bit(bytes[p / 8], k)
    {
      MaskBits(bytes[p / 8], p % 8, k);
    }
    OneBit(bytes, p, b, false);
  }

  class Bitmap {
    const bytes: array<bv8>

    /** For each page whether it is occupied. */
    ghost function Bits(): (s: seq<bool>)
      reads bytes
      ensures |s| == 8 * bytes.Length
    {
      BitsOf(bytes[..])
    }

    constructor (n: nat)
      ensures bytes.Length == n && fresh(bytes) && forall p :: 0 <= p < 8 * n ==> !Bits()[p]
    {
      bytes := new bv8[n](_ => 0);
      new;
      forall p | 0 <= p < 8 * n
        ensures !Bits()[p]
      {
        assert bytes[p / 8] == 0;
        ShiftTable(0, p % 8);
      }
    }

    /** IS_PAGE_FREE negated */
    predicate Occupied(p: nat)
      requires p < 8 * bytes.Length
      reads bytes
      ensures Occupied(p) == Bits()[p]
    {
      Bit(bytes[p / 8], p % 8)
    }

    /** MARK_PAGE_AS_OCCUPIED: exactly one page changes. */
    method Occupy(p: nat)
      requires p < 8 * bytes.Length
      modifies bytes
      ensures Bits() == old(Bits())[p := true]
    {
      OneBitOn(bytes[..], p);
      ghost var after := bytes[..][p / 8 := bytes[p / 8] | Mask(p % 8)];
      bytes[p / 8] := bytes[p / 8] | Mask(p % 8);
      assert bytes[..] == after;
    }

    /** MAKR_PAGE_AS_FREE: exactly one page changes. */
    method Release(p: nat)
      requires p < 8 * bytes.Length
      modifies bytes
      ensures Bits() == old(Bits())[p := false]
    {
      OneBitOff(bytes[..], p);
      ghost var after := bytes[..][p / 8 := bytes[p / 8] & !Mask(p % 8)];
      bytes[p / 8] := bytes[p / 8] & !Mask(p % 8);
      assert bytes[..] == after;
    }
  }

  // ---------------------------------------------------------------- ordinary pages

  predicate Below(p: nat, boundary: nat) {
    p * PAGE_SIZE < boundary
  }

  predicate FreeIn(bits: seq<bool>, start: nat, boundary: nat, p: nat) {
    start <= p < |bits| && Below(p, boundary) && !bits[p]
  }

  /** A run of `n` free pages at `p` that ends strictly below the boundary. */
  ghost predicate FreeRun(bits: seq<bool>, start: nat, boundary: nat, n: nat, p: nat) {
    start <= p && Below(p + n, boundary) && p + n <= |bits| && forall i :: p <= i < p + n ==> !bits[i]
  }

  /** `bits` with `n` pages from `p` on set to `v`. */
  function Filled(bits: seq<bool>, p: nat, n: nat, v: bool): (r: seq<bool>)
    requires p + n <= |bits|
    ensures |r| == |bits| && forall i :: 0 <= i < |bits| ==> r[i] == if p <= i < p + n then v else bits[i]
  {
    seq(|bits|, i requires 0 <= i < |bits| => if p <= i < p + n then v else bits[i])
  }

  /** get_page, get_pages and free_pages over the pages from `start` up to the byte address `boundary`. */
  class PageFrames {
    const start: nat
    const boundary: nat
    const bitmap: Bitmap
    /** fast_page_addr, as a page number */
    var cursor: nat

    ghost predicate Valid() {
      0 < start && boundary <= PAGE_SIZE * 8 * bitmap.bytes.Length
    }

    constructor (start: nat, boundary: nat, bitmap: Bitmap)
      requires 0 < start && boundary <= PAGE_SIZE * 8 * bitmap.bytes.Length
      ensures Valid() && this.start == start && this.boundary == boundary && this.bitmap == bitmap
    {
      this.start, this.boundary, this.bitmap, cursor := start, boundary, bitmap, 0;
    }

    /** The inner loop of get_pages: how many pages from `p` on are free, up to `n`. */
    method CountFree(p: nat, n: nat) returns (idx: nat)
      requires Valid() && Below(p + n, boundary)
      ensures idx <= n && p + n <= |bitmap.Bits()| && (forall i :: p <= i < p + idx ==> !bitmap.Bits()[i])
      ensures (idx < n ==> bitmap.Bits()[p + idx])
    {
      idx := 0;
      while idx < n
        invariant idx <= n && forall i :: p <= i < p + idx ==> !bitmap.Bits()[i]
      {
        if bitmap.Occupied(p + idx) {
          return;
        }
        idx := idx + 1;
      }
    }

    /** get_pages: the lowest run of `n` free pages, found with skip-ahead, is marked; 0 when there is none. */
    method GetPages(n: nat) returns (page: nat)
      requires Valid()
      modifies bitmap.bytes
      ensures page == 0 ==> forall p: nat :: !FreeRun(old(bitmap.Bits()), start, boundary, n, p)
      ensures page != 0 ==> FreeRun(old(bitmap.Bits()), start, boundary, n, page)
                            && forall p: nat :: p < page ==> !FreeRun(old(bitmap.Bits()), start, boundary, n, p)
      ensures bitmap.Bits() == if page == 0 then old(bitmap.Bits()) else Filled(old(bitmap.Bits()), page, n, true)
    {
      ghost var bits := bitmap.Bits();
      var p, step, found := start, 1, false;
      while p * PAGE_SIZE < boundary
        invariant start <= p && bitmap.Bits() == bits && !found
        invariant forall q: nat :: q < p ==> !FreeRun(bits, start, boundary, n, q)
        decreases boundary - p * PAGE_SIZE
      {
        if (p + n) * PAGE_SIZE >= boundary {
          break;
        }
        var idx := CountFree(p, n);
        if idx == n {
          found := true;
          break;
        }
        SkipAhead(bits, start, boundary, n, p, idx);
        step := idx + 1;
        p := p + step;
      }
      if found {
        OccupyAll(p, n);
        return p;
      }
      forall q: nat
        ensures !FreeRun(bits, start, boundary, n, q)
      {
        assert q >= p ==> !Below(q + n, boundary);
      }
      return 0;
    }

    /** No run starts at or before an occupied page that it would have to contain. */
    static lemma SkipAhead(bits: seq<bool>, start: nat, boundary: nat, n: nat, p: nat, idx: nat)
      requires idx < n && p + n <= |bits| && bits[p + idx]
      ensures forall q: nat :: p <= q < p + idx + 1 ==> !FreeRun(bits, start, boundary, n, q)
    {
    }

    method OccupyAll(p: nat, n: nat)
      requires Valid() && p + n <= |bitmap.Bits()|
      modifies bitmap.bytes
      ensures bitmap.Bits() == Filled(old(bitmap.Bits()), p, n, true)
    {
      for idx := 0 to n
        invariant bitmap.Bits() == Filled(old(bitmap.Bits()), p, idx, true)
      {
        bitmap.Occupy(p + idx);
      }
    }

    /** get_page_fast: the first free page from the cursor on. */
    method GetPageFast() returns (page: nat)
      requires Valid()
      modifies this`cursor, bitmap.bytes
      ensures var from := if start <= old(cursor) && Below(old(cursor), boundary) then old(cursor) else start;
              && (page != 0 ==> from <= page && FreeIn(old(bitmap.Bits()), start, boundary, page))
              && forall p: nat :: from <= p && (p < page || page == 0) ==>
                   !FreeIn(old(bitmap.Bits()), start, boundary, p)
      ensures page != 0 ==> cursor == page + 1
      ensures bitmap.Bits() == if page == 0 then old(bitmap.Bits()) else old(bitmap.Bits())[page := true]
    {
      ghost var bits := bitmap.Bits();
      if cursor < start || cursor * PAGE_SIZE >= boundary {
        cursor := start;
      }
      ghost var from := cursor;
      while cursor * PAGE_SIZE < boundary
        invariant start <= from <= cursor && bitmap.Bits() == bits
        invariant forall p: nat :: from <= p < cursor ==> !FreeIn(bits, start, boundary, p)
        decreases boundary - cursor * PAGE_SIZE
      {
        if !bitmap.Occupied(cursor) {
          page := cursor;
          bitmap.Occupy(cursor);
          cursor := cursor + 1;
          return;
        }
        cursor := cursor + 1;
      }
      page := 0;
    }

    /** get_page: cursor first, then the scan; it fails exactly when no page in range is free. */
    method GetPage() returns (page: nat)
      requires Valid()
      modifies this`cursor, bitmap.bytes
      ensures page == 0 <==> forall p: nat :: !FreeIn(old(bitmap.Bits()), start, boundary, p)
      ensures page != 0 ==> FreeIn(old(bitmap.Bits()), start, boundary, page)
      ensures bitmap.Bits() == if page == 0 then old(bitmap.Bits()) else old(bitmap.Bits())[page := true]
    {
      hide FreeIn, FreeRun, BitsOf;
      ghost var bits, from := bitmap.Bits(), cursor;
      page := GetPageFast();
      if page == 0 {
        page := GetPages(1);
        if page == 0 {
          NoneLeft(bits, start, boundary, from);
        } else {
          OneRun(bits, start, boundary, page);
        }
      }
    }

    /** What the scan for one page does not see, the cursor would have seen. */
    static lemma NoneLeft(bits: seq<bool>, start: nat, boundary: nat, cursor: nat)
      requires forall p: nat :: (if start <= cursor && Below(cursor, boundary) then cursor else start) <= p ==>
                 !FreeIn(bits, start, boundary, p)
      requires forall p: nat :: !FreeRun(bits, start, boundary, 1, p)
      ensures forall p: nat :: !FreeIn(bits, start, boundary, p)
    {
      forall p: nat
        ensures !FreeIn(bits, start, boundary, p)
      {
        assert FreeIn(bits, start, boundary, p) ==> Below(p + 1, boundary);
        assert !FreeRun(bits, start, boundary, 1, p);
      }
    }

    static lemma OneRun(bits: seq<bool>, start: nat, boundary: nat, p: nat)
      requires FreeRun(bits, start, boundary, 1, p)
      ensures FreeIn(bits, start, boundary, p) && Filled(bits, p, 1, true) == bits[p := true]
    {
    }

    /** free_pages */
    method FreePages(page: nat, n: nat)
      requires Valid() && page + n <= |bitmap.Bits()|
      modifies bitmap.bytes
      ensures bitmap.Bits() == Filled(old(bitmap.Bits()), page, n, false)
    {
      for idx := 0 to n
        invariant bitmap.Bits() == Filled(old(bitmap.Bits()), page, idx, false)
      {
        bitmap.Release(page + idx);
      }
    }
  }

  // ---------------------------------------------------------------- base pages

  const PAGE_SPACE_BOTTOM: nat := 0x4000000
  const PAGE_SPACE_TOP: nat := 0x8000000
  const BASE_PAGES: nat := (PAGE_SPACE_TOP - PAGE_SPACE_BOTTOM) / PAGE_SIZE

  /** Addresses of base pages. */
  predicate IsBasePage(a: nat) {
    PAGE_SPACE_BOTTOM <= a < PAGE_SPACE_TOP && a % PAGE_SIZE == 0
  }

  function IndexOf(a: nat): (k: nat)
    requires PAGE_SPACE_BOTTOM <= a < PAGE_SPACE_TOP
    ensures k < BASE_PAGES
  {
    (a - PAGE_SPACE_BOTTOM) / PAGE_SIZE
  }

  function AddressOf(k: nat): (a: nat)
    requires k < BASE_PAGES
    ensures IsBasePage(a) && IndexOf(a) == k
  {
    PAGE_SPACE_BOTTOM + k * PAGE_SIZE
  }

  lemma OneIndex(a: nat, k: nat)
    requires k < BASE_PAGES
    ensures IsBasePage(a) ==> (IndexOf(a) == k <==> a == AddressOf(k))
  {
  }

  lemma RoundDown(a: nat)
    requires PAGE_SPACE_BOTTOM <= a < PAGE_SPACE_TOP
    ensures AddressOf(IndexOf(a)) == a - a % PAGE_SIZE
  {
  }

  /** get_base_page and free_base_page: the pages that hold page directories and page tables. */
  class BasePages {
    const bitmap: Bitmap
    /** fast_base_page_addr, as an index */
    var cursor: nat

    ghost predicate Valid() {
      8 * bitmap.bytes.Length == BASE_PAGES
    }

    /** The base pages in use. */
    ghost function Taken(): (s: set<nat>)
      requires Valid()
      reads bitmap.bytes
      ensures forall a :: a in s <==> IsBasePage(a) && bitmap.Bits()[IndexOf(a)]
    {
      set a: nat | PAGE_SPACE_BOTTOM <= a < PAGE_SPACE_TOP && IsBasePage(a) && bitmap.Bits()[IndexOf(a)]
    }

    constructor ()
      ensures Valid() && Taken() == {} && fresh(bitmap) && fresh(bitmap.bytes)
    {
      bitmap := new Bitmap(BASE_PAGES / 8);
      cursor := 0;
    }

    method TakeFrom(from: nat) returns (k: nat)
      requires Valid() && from <= BASE_PAGES
      modifies bitmap.bytes
      ensures k <= BASE_PAGES && (forall i :: from <= i < k ==> old(bitmap.Bits())[i])
      ensures k < BASE_PAGES ==> from <= k && !old(bitmap.Bits())[k]
      ensures bitmap.Bits() == if k < BASE_PAGES then old(bitmap.Bits())[k := true] else old(bitmap.Bits())
    {
      k := from;
      ghost var bits := bitmap.Bits();
      while k < BASE_PAGES
        invariant from <= k <= BASE_PAGES && bitmap.Bits() == bits
        invariant forall i :: from <= i < k ==> bits[i]
      {
        if !bitmap.Occupied(k) {
          bitmap.Occupy(k);
          return;
        }
        k := k + 1;
      }
    }

    /** get_base_page: from the cursor on, then from the bottom; 0 exactly when all base pages are taken. */
    method GetBasePage() returns (page: nat)
      requires Valid()
      modifies this`cursor, bitmap.bytes
      ensures page == 0 <==> forall a :: IsBasePage(a) ==> a in old(Taken())
      ensures page == 0 ==> Taken() == old(Taken())
      ensures page != 0 ==> IsBasePage(page) && page !in old(Taken()) && Taken() == old(Taken()) + {page}
    {
      if cursor >= BASE_PAGES {
        cursor := 0;
      }
      var k := TakeFrom(cursor);
      cursor := k;
      if k == BASE_PAGES {
        k := TakeFrom(0);
      }
      if k == BASE_PAGES {
        return 0;
      }
      assert !old(bitmap.Bits())[IndexOf(AddressOf(k))];
      TakenSet(k);
      return AddressOf(k);
    }

    twostate lemma TakenSet(k: nat)
      requires Valid() && k < BASE_PAGES && bitmap.Bits() == old(bitmap.Bits())[k := true]
      ensures Taken() == old(Taken()) + {AddressOf(k)}
    {
      hide AddressOf, IndexOf, BitsOf, Taken;
      forall a: nat
        ensures a in Taken() <==> a in old(Taken()) || a == AddressOf(k)
      {
        OneIndex(a, k);
      }
    }

    /** free_base_page: an address outside the inventory is ignored. */
    method FreeBasePage(page: nat)
      requires Valid()
      modifies bitmap.bytes
      ensures Taken() == old(Taken()) - {page - page % PAGE_SIZE}
    {
      if page < PAGE_SPACE_BOTTOM || page >= PAGE_SPACE_TOP {
        return;
      }
      bitmap.Release(IndexOf(page));
      TakenCleared(IndexOf(page));
      RoundDown(page);
    }

    twostate lemma TakenCleared(k: nat)
      requires Valid() && k < BASE_PAGES && bitmap.Bits() == old(bitmap.Bits())[k := false]
      ensures Taken() == old(Taken()) - {AddressOf(k)}
    {
      hide AddressOf, IndexOf, BitsOf, Taken;
      forall a: nat
        ensures a in Taken() <==> a in old(Taken()) && a != AddressOf(k)
      {
        OneIndex(a, k);
      }
    }
  }
}
