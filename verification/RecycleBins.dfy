/**
 The thirteen recycle bins of memory/malloc.c: doubly linked lists threaded through chunk headers.

 A memory maps an address to the header stored there.  The bin heads are headers too, at
 `base + 16 * i`.  Headers of chunks that were merged away stay in the memory.
 */
module RecycleBins {
  import opened Common
  import opened ChunkMap

  const BINS: nat := 13
  const MISC_BIN: nat := BINS - 1

  datatype Header = Header(prev: nat, next: nat, size: nat, padding: nat, free: bool)

  type Memory = map<nat, Header>

  // ---------------------------------------------------------------- bin index

  const BinLen: seq<nat> := [0x10, 0x20, 0x40, 0x80, 0x100, 0x200, 0x400, 0x800, 0x1000, 0x2000, 0x4000, 0x8000]

  /** Bin `i` is for lengths above the bound of bin `i - 1` up to its own; the last bin takes the rest. */
  ghost predicate IsBinIndex(len: nat, i: nat) {
    && i < BINS
    && (i < MISC_BIN ==> len <= BinLen[i])
    && (i > 0 ==> len > BinLen[i - 1])
  }

  function BinFrom(len: nat, i: nat): (r: nat)
    requires i <= MISC_BIN && (i > 0 ==> len > BinLen[i - 1])
    ensures IsBinIndex(len, r)
    decreases MISC_BIN - i
  {
    if i == MISC_BIN || len <= BinLen[i] then i else BinFrom(len, i + 1)
  }

  function BinOf(len: nat): (r: nat)
    ensures IsBinIndex(len, r)
  {
    BinFrom(len, 0)
  }

  /** Bins are ordered: a longer request never goes to an earlier bin, and the index is unique. */
  lemma BinIndexOrder(len: nat, i: nat, len': nat, i': nat)
    requires IsBinIndex(len, i) && IsBinIndex(len', i')
    ensures i < i' ==> len < len'
    ensures len == len' ==> i == i'
  {
  }

  method LengthToBinIndex(len: nat) returns (idx: nat)
    ensures idx == BinOf(len)
  {
    idx := 0;
    while idx < BINS - 1
      invariant idx <= BINS - 1
      invariant idx > 0 ==> len > BinLen[idx - 1]
    {
      if len <= BinLen[idx] {
        break;
      }
      idx := idx + 1;
    }
    BinIndexOrder(len, idx, len, BinOf(len));
  }

  // ---------------------------------------------------------------- one list

  function Before(head: nat, s: seq<nat>, k: nat): nat
    requires k <= |s|
  {
    if k == 0 then head else s[k - 1]
  }

  function At(s: seq<nat>, k: nat): nat {
    if k < |s| then s[k] else 0
  }

  predicate LinkAt(mem: Memory, head: nat, s: seq<nat>, k: nat)
    requires k < |s|
  {
    s[k] in mem && mem[s[k]].prev == Before(head, s, k) && mem[s[k]].next == At(s, k + 1)
  }

  /** The list that starts at `head` holds exactly `s`, linked both ways. */
  ghost predicate Linked(mem: Memory, head: nat, s: seq<nat>) {
    && head in mem && mem[head].next == At(s, 0)
    && (forall k {:trigger LinkAt(mem, head, s, k)} :: 0 <= k < |s| ==> LinkAt(mem, head, s, k))
  }

  /** No header occurs twice, and null is not one of them. */
  ghost predicate Proper(head: nat, s: seq<nat>) {
    head != 0 && 0 !in s && head !in s && Distinct(s)
  }

  function Remove(s: seq<nat>, k: nat): seq<nat>
    requires k < |s|
  {
    s[..k] + s[k + 1..]
  }

  function Insert(s: seq<nat>, k: nat, x: nat): seq<nat>
    requires k <= |s|
  {
    s[..k] + [x] + s[k..]
  }

  /** Take the header at `x` out of its list. */
  function Unlink(mem: Memory, x: nat): Memory
    requires x in mem && mem[x].prev in mem && (mem[x].next != 0 ==> mem[x].next in mem)
  {
    var m := mem[mem[x].prev := mem[mem[x].prev].(next := mem[x].next)];
    if mem[x].next != 0 then m[mem[x].next := m[mem[x].next].(prev := mem[x].prev)] else m
  }

  /** Put the header at `x` between `p` and `q` (`q` is 0 at the end of the list). */
  function LinkIn(mem: Memory, x: nat, p: nat, q: nat): Memory
    requires x in mem && p in mem && (q != 0 ==> q in mem)
  {
    var m := mem[x := mem[x].(prev := p, next := q)];
    var m' := m[p := m[p].(next := x)];
    if q != 0 then m'[q := m'[q].(prev := x)] else m'
  }

  lemma UnlinkKeepsLinked(mem: Memory, head: nat, s: seq<nat>, k: nat)
    requires Linked(mem, head, s) && Proper(head, s) && k < |s|
    ensures LinkAt(mem, head, s, k)
    ensures mem[s[k]].prev in mem && (mem[s[k]].next != 0 ==> mem[s[k]].next in mem)
    ensures Linked(Unlink(mem, s[k]), head, Remove(s, k)) && Proper(head, Remove(s, k))
  {
    assert LinkAt(mem, head, s, k);
    if k > 0 {
      assert LinkAt(mem, head, s, k - 1);
    }
    if k + 1 < |s| {
      assert LinkAt(mem, head, s, k + 1);
    }
    var m, r := Unlink(mem, s[k]), Remove(s, k);
    forall j | 0 <= j < |r|
      ensures LinkAt(m, head, r, j)
    {
      assert LinkAt(mem, head, s, if j < k then j else j + 1);
    }
  }

  lemma LinkInKeepsLinked(mem: Memory, head: nat, s: seq<nat>, k: nat, x: nat)
    requires Linked(mem, head, s) && Proper(head, s) && k <= |s|
    requires x in mem && x != 0 && x != head && x !in s
    ensures Before(head, s, k) in mem && (At(s, k) != 0 ==> At(s, k) in mem)
    ensures Linked(LinkIn(mem, x, Before(head, s, k), At(s, k)), head, Insert(s, k, x)) && Proper(head, Insert(s, k, x))
  {
    if k > 0 {
      assert LinkAt(mem, head, s, k - 1);
    }
    if k < |s| {
      assert LinkAt(mem, head, s, k);
    }
    var m, r := LinkIn(mem, x, Before(head, s, k), At(s, k)), Insert(s, k, x);
    forall j | 0 <= j < |r|
      ensures LinkAt(m, head, r, j)
    {
      if j != k {
        assert LinkAt(mem, head, s, if j < k then j else j - 1);
      }
    }
  }

  predicate SameLinks(m: Memory, m': Memory, x: nat) {
    x in m ==> x in m' && m'[x].prev == m[x].prev && m'[x].next == m[x].next
  }

  lemma FrameLinked(m: Memory, m': Memory, head: nat, s: seq<nat>)
    requires Linked(m, head, s) && SameLinks(m, m', head)
    requires forall x :: x in s ==> SameLinks(m, m', x)
    ensures Linked(m', head, s)
  {
    forall j | 0 <= j < |s|
      ensures LinkAt(m', head, s, j)
    {
      assert LinkAt(m, head, s, j);
      assert s[j] in s;
    }
  }

  // ---------------------------------------------------------------- all lists

  function HeadOf(base: nat, i: nat): nat {
    base + HDR * i
  }

  /** The free chunk `x` belongs to bin `i`. */
  predicate Belongs(c: Chunks, x: nat, i: nat) {
    x in c && c[x].Vacant? && META <= c[x].size && BinOf(c[x].size - META) == i
  }

  ghost predicate Ascending(c: Chunks, s: seq<nat>)
    requires forall x :: x in s ==> x in c
  {
    forall j, k :: 0 <= j < k < |s| ==> c[s[j]].size <= c[s[k]].size
  }

  /** Bin `i` lists free chunks of its own size range, smallest first, each once. */
  ghost predicate BinOk(mem: Memory, c: Chunks, base: nat, lists: seq<seq<nat>>, i: nat)
    requires i < |lists|
  {
    && Linked(mem, HeadOf(base, i), lists[i])
    && Proper(HeadOf(base, i), lists[i])
    && (forall x :: x in lists[i] ==> Belongs(c, x, i))
    && Ascending(c, lists[i])
  }

  predicate Filed(c: Chunks, lists: seq<seq<nat>>, x: nat)
    requires x in c
  {
    c[x].Vacant? ==> META <= c[x].size && BinOf(c[x].size - META) < |lists| && x in lists[BinOf(c[x].size - META)]
  }

  /** The bins hold exactly the free chunks. */
  ghost predicate BinsOk(mem: Memory, c: Chunks, base: nat, lists: seq<seq<nat>>) {
    && 0 < base && base + HDR * BINS <= HEAP_BOTTOM
    && |lists| == BINS
    && (forall i {:trigger BinOk(mem, c, base, lists, i)} :: 0 <= i < BINS ==> BinOk(mem, c, base, lists, i))
    && (forall x {:trigger Filed(c, lists, x)} :: x in c ==> Filed(c, lists, x))
    && (forall x :: x in c ==> HEAP_BOTTOM <= x)
  }

  lemma FrameBin(m: Memory, m': Memory, c: Chunks, c': Chunks, base: nat, lists: seq<seq<nat>>, i: nat)
    requires i < |lists| && BinOk(m, c, base, lists, i) && SameLinks(m, m', HeadOf(base, i))
    requires forall x :: x in c && c[x].Vacant? ==> SameLinks(m, m', x) && x in c' && c'[x] == c[x]
    ensures BinOk(m', c', base, lists, i)
  {
    hide BinOf, HeadOf, Linked, Proper;
    assert forall k :: 0 <= k < |lists[i]| ==> Belongs(c, lists[i][k], i);
    FrameLinked(m, m', HeadOf(base, i), lists[i]);
  }

  /** Nothing that concerns the bins changed between the two states. */
  lemma FrameBins(m: Memory, m': Memory, c: Chunks, c': Chunks, base: nat, lists: seq<seq<nat>>)
    requires BinsOk(m, c, base, lists)
    requires forall i :: 0 <= i < BINS ==> SameLinks(m, m', HeadOf(base, i))
    requires forall x :: x in c && c[x].Vacant? ==> SameLinks(m, m', x) && x in c' && c'[x] == c[x]
    requires forall x :: x in c' ==> HEAP_BOTTOM <= x && (c'[x].Vacant? ==> x in c && c'[x] == c[x])
    ensures BinsOk(m', c', base, lists)
  {
    hide BinOf, HeadOf, BinOk;
    forall i | 0 <= i < BINS
      ensures BinOk(m', c', base, lists, i)
    {
      assert BinOk(m, c, base, lists, i);
      FrameBin(m, m', c, c', base, lists, i);
    }
    forall x | x in c'
      ensures Filed(c', lists, x)
    {
      assert c'[x].Vacant? ==> Filed(c, lists, x);
    }
  }

  lemma HeadsApart(base: nat, i: nat, j: nat, x: nat)
    requires 0 < base && base + HDR * BINS <= HEAP_BOTTOM && i < BINS && j < BINS && HEAP_BOTTOM <= x
    ensures i != j ==> HeadOf(base, i) != HeadOf(base, j)
    ensures HeadOf(base, i) < x && 0 < HeadOf(base, i)
  {
  }

  /** Neighbours of position `k` in bin `i` are not in any other bin. */
  lemma OtherBinUntouched(mem: Memory, c: Chunks, base: nat, lists: seq<seq<nat>>, i: nat, k: nat, j: nat)
    requires BinsOk(mem, c, base, lists) && i < BINS && k <= |lists[i]| && j < BINS && j != i
    ensures Before(HeadOf(base, i), lists[i], k) !in lists[j] && Before(HeadOf(base, i), lists[i], k) != HeadOf(base, j)
    ensures At(lists[i], k) !in lists[j] && At(lists[i], k) != HeadOf(base, j)
  {
    hide BinOf, Linked, Ascending;
    assert BinOk(mem, c, base, lists, i) && BinOk(mem, c, base, lists, j);
    assert k > 0 ==> Belongs(c, lists[i][k - 1], i);
    assert k < |lists[i]| ==> Belongs(c, lists[i][k], i);
    HeadsApart(base, i, j, HEAP_BOTTOM);
    assert HeadOf(base, i) in lists[j] ==> Belongs(c, HeadOf(base, i), j);
  }

  /** Unlinking a free chunk from its bin leaves the bins in order, with that chunk no longer free. */
  lemma UnlinkKeepsBins(mem: Memory, c: Chunks, base: nat, lists: seq<seq<nat>>, i: nat, k: nat, u: Chunk)
    requires BinsOk(mem, c, base, lists) && i < BINS && k < |lists[i]| && u.Used?
    ensures lists[i][k] in mem && mem[lists[i][k]].prev in mem
    ensures (mem[lists[i][k]].next != 0 ==> mem[lists[i][k]].next in mem)
    ensures BinsOk(Unlink(mem, lists[i][k]), c[lists[i][k] := u], base, lists[i := Remove(lists[i], k)])
  {
    UnlinkKeepsOwnBin(mem, c, base, lists, i, k, u);
    var x := lists[i][k];
    var m, d, l := Unlink(mem, x), c[x := u], lists[i := Remove(lists[i], k)];
    forall j | 0 <= j < BINS
      ensures BinOk(m, d, base, l, j)
    {
      if j != i {
        UnlinkKeepsOtherBin(mem, c, base, lists, i, k, u, j);
      }
    }
    forall y | y in d
      ensures Filed(d, l, y)
    {
      assert y in c && Filed(c, lists, y);
    }
  }

  lemma UnlinkKeepsOwnBin(mem: Memory, c: Chunks, base: nat, lists: seq<seq<nat>>, i: nat, k: nat, u: Chunk)
    requires BinsOk(mem, c, base, lists) && i < BINS && k < |lists[i]| && u.Used?
    ensures lists[i][k] in c && lists[i][k] in mem
    ensures mem[lists[i][k]].prev in mem && (mem[lists[i][k]].next != 0 ==> mem[lists[i][k]].next in mem)
    ensures forall y :: y in lists[i] && y != lists[i][k] ==> y in Remove(lists[i], k)
    ensures BinOk(Unlink(mem, lists[i][k]), c[lists[i][k] := u], base, lists[i := Remove(lists[i], k)], i)
  {
    hide BinOf, HeadOf, Linked, Unlink;
    assert BinOk(mem, c, base, lists, i);
    assert Belongs(c, lists[i][k], i);
    UnlinkKeepsLinked(mem, HeadOf(base, i), lists[i], k);
    RemoveKeepsOrder(c, lists[i], k, u);
  }

  lemma UnlinkKeepsOtherBin(mem: Memory, c: Chunks, base: nat, lists: seq<seq<nat>>, i: nat, k: nat, u: Chunk, j: nat)
    requires BinsOk(mem, c, base, lists) && i < BINS && k < |lists[i]| && u.Used? && j < BINS && j != i
    requires lists[i][k] in mem && mem[lists[i][k]].prev in mem
    requires (mem[lists[i][k]].next != 0 ==> mem[lists[i][k]].next in mem)
    ensures BinOk(Unlink(mem, lists[i][k]), c[lists[i][k] := u], base, lists[i := Remove(lists[i], k)], j)
  {
    assert BinOk(mem, c, base, lists, i) && BinOk(mem, c, base, lists, j);
    assert LinkAt(mem, HeadOf(base, i), lists[i], k);
    OtherBinUntouched(mem, c, base, lists, i, k, j);
    OtherBinUntouched(mem, c, base, lists, i, k + 1, j);
    FrameOneBin(mem, Unlink(mem, lists[i][k]), c, c[lists[i][k] := u], base, lists,
                lists[i := Remove(lists[i], k)], j, lists[i][k]);
  }

  lemma RemoveKeepsOrder(c: Chunks, s: seq<nat>, k: nat, u: Chunk)
    requires (forall x :: x in s ==> x in c) && Ascending(c, s) && k < |s|
    requires forall i, j :: 0 <= i < j < |s| ==> s[i] != s[j]
    ensures forall x :: x in Remove(s, k) ==> x in s && x != s[k]
    ensures forall x :: x in s && x != s[k] ==> x in Remove(s, k)
    ensures Ascending(c[s[k] := u], Remove(s, k))
  {
  }

  lemma FrameOneBin(m: Memory, m': Memory, c: Chunks, d: Chunks, base: nat, lists: seq<seq<nat>>, l: seq<seq<nat>>,
                    j: nat, x: nat)
    requires |lists| == |l| == BINS && j < BINS && l[j] == lists[j]
    requires BinOk(m, c, base, lists, j)
    requires x !in lists[j] && forall y :: y in c && y != x ==> y in d && d[y] == c[y]
    requires SameLinks(m, m', HeadOf(base, j)) && forall y :: y in lists[j] ==> SameLinks(m, m', y)
    ensures BinOk(m', d, base, l, j)
  {
    hide BinOf, HeadOf, Linked, Proper;
    FrameLinked(m, m', HeadOf(base, j), lists[j]);
    assert forall k :: 0 <= k < |lists[j]| ==> Belongs(c, lists[j][k], j);
  }

  /** Position `k` keeps bin `s` ascending when a chunk of `size` bytes goes there. */
  ghost predicate Slot(c: Chunks, s: seq<nat>, k: nat, size: nat)
    requires forall x :: x in s ==> x in c
  {
    && k <= |s|
    && (forall j :: 0 <= j < k ==> c[s[j]].size <= size)
    && (forall j :: k <= j < |s| ==> size <= c[s[j]].size)
  }

  lemma InsertAt(s: seq<nat>, k: nat, x: nat, j: nat)
    requires k <= |s| && j <= |s|
    ensures Insert(s, k, x)[j] == if j < k then s[j] else if j == k then x else s[j - 1]
  {
  }

  lemma InsertMembers(s: seq<nat>, k: nat, x: nat)
    requires k <= |s|
    ensures forall y :: y in Insert(s, k, x) <==> y in s || y == x
  {
    assert s == s[..k] + s[k..];
  }

  lemma InsertKeepsOrder(c: Chunks, s: seq<nat>, k: nat, x: nat, f: Chunk)
    requires (forall y :: y in s ==> y in c) && Ascending(c, s) && x !in s && Slot(c, s, k, f.size)
    ensures forall y :: y in Insert(s, k, x) <==> y in s || y == x
    ensures Ascending(c[x := f], Insert(s, k, x))
  {
    InsertMembers(s, k, x);
    var r, d := Insert(s, k, x), c[x := f];
    forall i, j | 0 <= i < j < |r|
      ensures d[r[i]].size <= d[r[j]].size
    {
      InsertAt(s, k, x, i);
      InsertAt(s, k, x, j);
    }
  }

  /** Linking a chunk into the right slot of its bin leaves the bins in order, with that chunk free. */
  lemma InsertKeepsBins(mem: Memory, c: Chunks, base: nat, lists: seq<seq<nat>>, i: nat, k: nat, x: nat)
    requires BinsOk(mem, c, base, lists)
    requires x in mem && x in c && c[x].Used? && META <= c[x].size && i == BinOf(c[x].size - META)
    requires (forall y :: y in lists[i] ==> y in c) && Slot(c, lists[i], k, c[x].size)
    ensures Before(HeadOf(base, i), lists[i], k) in mem && (At(lists[i], k) != 0 ==> At(lists[i], k) in mem)
    ensures BinsOk(LinkIn(mem, x, Before(HeadOf(base, i), lists[i], k), At(lists[i], k)), c[x := Vacant(c[x].size)],
                   base, lists[i := Insert(lists[i], k, x)])
  {
    hide BinOf, Linked, Proper, LinkIn, Ascending;
    InsertKeepsOwnBin(mem, c, base, lists, i, k, x);
    var m, d, l := LinkIn(mem, x, Before(HeadOf(base, i), lists[i], k), At(lists[i], k)),
        c[x := Vacant(c[x].size)], lists[i := Insert(lists[i], k, x)];
    forall j | 0 <= j < BINS
      ensures BinOk(m, d, base, l, j)
    {
      if j != i {
        InsertKeepsOtherBin(mem, c, base, lists, i, k, x, j);
      }
    }
    forall y | y in d
      ensures Filed(d, l, y)
    {
      assert y != x ==> Filed(c, lists, y);
    }
  }

  lemma InsertKeepsOwnBin(mem: Memory, c: Chunks, base: nat, lists: seq<seq<nat>>, i: nat, k: nat, x: nat)
    requires BinsOk(mem, c, base, lists)
    requires x in mem && x in c && c[x].Used? && META <= c[x].size && i == BinOf(c[x].size - META)
    requires (forall y :: y in lists[i] ==> y in c) && Slot(c, lists[i], k, c[x].size)
    ensures Before(HeadOf(base, i), lists[i], k) in mem && (At(lists[i], k) != 0 ==> At(lists[i], k) in mem)
    ensures forall y :: y in Insert(lists[i], k, x) <==> y in lists[i] || y == x
    ensures BinOk(LinkIn(mem, x, Before(HeadOf(base, i), lists[i], k), At(lists[i], k)), c[x := Vacant(c[x].size)],
                  base, lists[i := Insert(lists[i], k, x)], i)
  {
    hide BinOf, Linked, LinkIn;
    assert BinOk(mem, c, base, lists, i);
    assert x in lists[i] ==> Belongs(c, x, i);
    HeadsApart(base, i, i, x);
    LinkInKeepsLinked(mem, HeadOf(base, i), lists[i], k, x);
    InsertKeepsOrder(c, lists[i], k, x, Vacant(c[x].size));
  }

  lemma InsertKeepsOtherBin(mem: Memory, c: Chunks, base: nat, lists: seq<seq<nat>>, i: nat, k: nat, x: nat, j: nat)
    requires BinsOk(mem, c, base, lists) && i < BINS && j < BINS && j != i && k <= |lists[i]|
    requires x in mem && x in c && c[x].Used?
    requires Before(HeadOf(base, i), lists[i], k) in mem && (At(lists[i], k) != 0 ==> At(lists[i], k) in mem)
    ensures BinOk(LinkIn(mem, x, Before(HeadOf(base, i), lists[i], k), At(lists[i], k)), c[x := Vacant(c[x].size)],
                  base, lists[i := Insert(lists[i], k, x)], j)
  {
    assert BinOk(mem, c, base, lists, j);
    OtherBinUntouched(mem, c, base, lists, i, k, j);
    assert x in lists[j] ==> Belongs(c, x, j);
    HeadsApart(base, j, j, x);
    FrameOneBin(mem, LinkIn(mem, x, Before(HeadOf(base, i), lists[i], k), At(lists[i], k)),
                c, c[x := Vacant(c[x].size)],
                base, lists, lists[i := Insert(lists[i], k, x)], j, x);
  }
}
