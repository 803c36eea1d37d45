/**
 Files of filesystem/memfs_blocking.c and filesystem/memfs.c: a list of 4084-byte blocks that stands for one flat
 byte string.  The allocator is a supply of blocks, of arbitrary content, that may run out at any point.

 The list refines the string as long as all blocks but the last are full, the last is not empty, and the header's
 size is the number of bytes.  The code keeps that exactly under the conditions stated with `WriteFile` and
 `TruncateKeepsIff`: a hole after a partly filled block, and a failed extension, break it.
 */
module MemFile {
  import opened Common

  const AVAIL: nat := 4096 - 12

  type Byte = b: int | 0 <= b < 256
  type Content = c: seq<Byte> | |c| == AVAIL witness seq(AVAIL, _ => 0)

  datatype RawBlock = RawBlock(content: Content, used: nat)
  type Block = b: RawBlock | b.used <= AVAIL witness RawBlock(seq(AVAIL, _ => 0), 0)

  function Data(b: Block): seq<Byte> {
    b.content[..b.used]
  }

  /** The bytes of the file. */
  function Flat(blocks: seq<Block>): seq<Byte> {
    if blocks == [] then [] else Data(blocks[0]) + Flat(blocks[1..])
  }

  /** All blocks but the last are full. */
  predicate Loose(blocks: seq<Block>) {
    forall i :: 0 <= i < |blocks| - 1 ==> blocks[i].used == AVAIL
  }

  predicate Packed(blocks: seq<Block>) {
    Loose(blocks) && (blocks != [] ==> blocks[|blocks| - 1].used > 0)
  }

  predicate Consistent(blocks: seq<Block>, size: nat) {
    Packed(blocks) && |Flat(blocks)| == size
  }

  /** `d` written into the string at `o`. */
  function Splice(s: seq<Byte>, o: nat, d: seq<Byte>): (r: seq<Byte>)
    requires o <= |s|
    ensures |r| == if o + |d| < |s| then |s| else o + |d|
  {
    s[..o] + d + if o + |d| < |s| then s[o + |d|..] else []
  }

  // ---------------------------------------------------------------- flat strings

  lemma {:induction false} FlatConcat(a: seq<Block>, b: seq<Block>)
    ensures Flat(a + b) == Flat(a) + Flat(b)
  {
    if a == [] {
      assert a + b == b;
    } else {
      assert (a + b)[1..] == a[1..] + b;
      FlatConcat(a[1..], b);
    }
  }

  lemma {:induction false} FlatFull(blocks: seq<Block>)
    requires forall i :: 0 <= i < |blocks| ==> blocks[i].used == AVAIL
    ensures |Flat(blocks)| == |blocks| * AVAIL
  {
    if blocks != [] {
      FlatFull(blocks[1..]);
    }
  }

  /** The string around block `cur`; the bytes before it fill whole blocks. */
  lemma FlatAt(blocks: seq<Block>, cur: nat)
    requires cur < |blocks| && Loose(blocks)
    ensures Flat(blocks) == Flat(blocks[..cur]) + Data(blocks[cur]) + Flat(blocks[cur + 1..])
    ensures |Flat(blocks[..cur])| == cur * AVAIL
  {
    assert blocks == blocks[..cur] + ([blocks[cur]] + blocks[cur + 1..]);
    FlatConcat(blocks[..cur], [blocks[cur]] + blocks[cur + 1..]);
    FlatConcat([blocks[cur]], blocks[cur + 1..]);
    assert Flat([blocks[cur]]) == Data(blocks[cur]);
    FlatFull(blocks[..cur]);
  }

  /** A file's size is the whole blocks and what the last block holds. */
  lemma FlatLength(blocks: seq<Block>)
    requires Loose(blocks)
    ensures blocks == [] ==> |Flat(blocks)| == 0
    ensures blocks != [] ==> |Flat(blocks)| == (|blocks| - 1) * AVAIL + blocks[|blocks| - 1].used
    ensures |Flat(blocks)| <= |blocks| * AVAIL
  {
    if blocks != [] {
      FlatAt(blocks, |blocks| - 1);
    }
  }

  // ---------------------------------------------------------------- writing into a block

  function PutInto(b: Block, i: nat, w: seq<Byte>): Block
    requires i + |w| <= AVAIL
  {
    RawBlock(b.content[..i] + w + b.content[i + |w|..], Max(b.used, i + |w|))
  }

  lemma SpliceMiddle(a: seq<Byte>, b: seq<Byte>, c: seq<Byte>, i: nat, w: seq<Byte>)
    requires i <= |b| && (i + |w| <= |b| || c == [])
    ensures Splice(a + b + c, |a| + i, w) == a + Splice(b, i, w) + c
  {
  }

  /** Writing into a block, not beyond its bytes, splices into the string. */
  lemma PutSplices(blocks: seq<Block>, cur: nat, i: nat, w: seq<Byte>)
    requires Loose(blocks) && cur < |blocks| && i <= blocks[cur].used && i + |w| <= AVAIL
    ensures var after := blocks[cur := PutInto(blocks[cur], i, w)];
            Loose(after) && cur * AVAIL + i <= |Flat(blocks)| && Flat(after) == Splice(Flat(blocks), cur * AVAIL + i, w)
  {
    hide Flat, Splice;
    var b := PutInto(blocks[cur], i, w);
    var after := blocks[cur := b];
    assert Loose(after);
    FlatAt(blocks, cur);
    FlatAt(after, cur);
    assert after[..cur] == blocks[..cur] && after[cur + 1..] == blocks[cur + 1..];
    PutData(blocks[cur], i, w);
    EmptyFlat();
    assert cur < |blocks| - 1 || blocks[cur + 1..] == [];
    SpliceMiddle(Flat(blocks[..cur]), Data(blocks[cur]), Flat(blocks[cur + 1..]), i, w);
  }

  lemma PutData(b: Block, i: nat, w: seq<Byte>)
    requires i <= b.used && i + |w| <= AVAIL
    ensures Data(PutInto(b, i, w)) == Splice(Data(b), i, w)
  {
    var d := PutInto(b, i, w);
    if i + |w| < b.used {
      assert d.content[i + |w|..b.used] == b.content[i + |w|..b.used];
      assert Data(d) == b.content[..i] + w + b.content[i + |w|..b.used];
    } else {
      assert Data(d) == b.content[..i] + w;
    }
  }

  lemma SpliceTwice(s: seq<Byte>, o: nat, d: seq<Byte>, w: seq<Byte>)
    requires o <= |s|
    ensures Splice(Splice(s, o, d), o + |d|, w) == Splice(s, o, d + w)
  {
  }

  lemma SpliceNothing(s: seq<Byte>, o: nat, data: seq<Byte>)
    requires o <= |s|
    ensures Splice(s, o, data[..0]) == s
  {
  }

  lemma SpliceNext(s: seq<Byte>, o: nat, data: seq<Byte>, n: nat, chunk: nat)
    requires o <= |s| && n + chunk <= |data|
    ensures Splice(Splice(s, o, data[..n]), o + n, data[n..n + chunk]) == Splice(s, o, data[..n + chunk])
  {
    SpliceTwice(s, o, data[..n], data[n..n + chunk]);
    assert data[..n] + data[n..n + chunk] == data[..n + chunk];
  }

  /** An empty block behind full ones adds no byte. */
  lemma AppendEmpty(blocks: seq<Block>, b: Block)
    requires Loose(blocks) && b.used == 0 && (blocks != [] ==> blocks[|blocks| - 1].used == AVAIL)
    ensures Loose(blocks + [b]) && Flat(blocks + [b]) == Flat(blocks)
  {
    FlatConcat(blocks, [b]);
  }

  // ---------------------------------------------------------------- extending

  /** The extension loop of a write or truncate: blocks for `left` more bytes, while the supply lasts. */
  function Extended(blocks: seq<Block>, left: nat, supply: seq<Content>): (r: (seq<Block>, nat, seq<Content>))
    ensures r.1 == if left <= |supply| * AVAIL then 0 else left - |supply| * AVAIL
    ensures |r.0| + |r.2| == |blocks| + |supply|
    decreases |supply|
  {
    if left == 0 || supply == [] then (blocks, left, supply)
    else Extended(blocks + [RawBlock(supply[0], Min(AVAIL, left))], left - Min(AVAIL, left), supply[1..])
  }

  /** An extension adds as many bytes as it could get, behind the old ones. */
  lemma {:induction false} ExtensionAdds(blocks: seq<Block>, left: nat, supply: seq<Content>)
    ensures var r := Extended(blocks, left, supply);
            && |Flat(r.0)| == |Flat(blocks)| + left - r.1
            && Flat(blocks) <= Flat(r.0)
            && (left > 0 && supply != [] ==> |r.0| > |blocks| && r.0[|r.0| - 1].used > 0)
            && blocks <= r.0
    decreases |supply|
  {
    if left > 0 && supply != [] {
      var b := RawBlock(supply[0], Min(AVAIL, left));
      FlatConcat(blocks, [b]);
      assert Flat([b]) == Data(b);
      ExtensionAdds(blocks + [b], left - b.used, supply[1..]);
    }
  }

  /** It leaves the list packed exactly if the last block was full, or nothing was appended. */
  lemma {:induction false} ExtensionPacksIff(blocks: seq<Block>, left: nat, supply: seq<Content>)
    requires Packed(blocks)
    ensures Packed(Extended(blocks, left, supply).0) <==>
              left == 0 || supply == [] || blocks == [] || blocks[|blocks| - 1].used == AVAIL
    decreases |supply|
  {
    if left > 0 && supply != [] {
      var b := RawBlock(supply[0], Min(AVAIL, left));
      if blocks == [] || blocks[|blocks| - 1].used == AVAIL {
        ExtensionPacksIff(blocks + [b], left - b.used, supply[1..]);
      } else {
        ExtensionAdds(blocks, left, supply);
        var r := Extended(blocks, left, supply).0;
        assert r[|blocks| - 1] == blocks[|blocks| - 1];
      }
    }
  }

  /** One byte, then a hole up to byte 5000: the partly filled first block stays in front of the new ones. */
  lemma HoleBreaksPacking(x: Content, y: Content, z: Content)
    ensures var file := [RawBlock(x, 1)];
            Consistent(file, 1) && Extended(file, 4999, [y, z]).1 == 0 && !Packed(Extended(file, 4999, [y, z]).0)
  {
    ExtensionPacksIff([RawBlock(x, 1)], 4999, [y, z]);
  }

  // ---------------------------------------------------------------- truncating

  /** mem_block_raw_truncate: the new blocks, and whether it succeeded. */
  function Truncated(blocks: seq<Block>, offset: nat, supply: seq<Content>): (seq<Block>, bool) {
    if offset == 0 then ([], true)
    else
      var k := LastIndex(offset);
      if k < |blocks| then (Shortened(blocks, k, offset - k * AVAIL), true)
      else
        var r := Extended(blocks, offset - |blocks| * AVAIL, supply);
        (r.0, r.1 == 0)
  }

  /** The block that byte `offset - 1` falls into. */
  function LastIndex(offset: nat): (k: nat)
    requires offset > 0
    ensures k * AVAIL < offset <= (k + 1) * AVAIL
  {
    (offset - 1) / AVAIL
  }

  function Shortened(blocks: seq<Block>, k: nat, used: nat): seq<Block>
    requires k < |blocks| && used <= AVAIL
  {
    blocks[..k] + [RawBlock(blocks[k].content, used)]
  }

  /** Cutting at `k` blocks and `used` bytes. */
  lemma ShortenedFlat(blocks: seq<Block>, k: nat, used: nat)
    requires Packed(blocks) && k < |blocks| && 0 < used <= AVAIL
    ensures var r := Shortened(blocks, k, used);
            && Packed(r) && |Flat(r)| == k * AVAIL + used
            && (k * AVAIL + used <= |Flat(blocks)| ==> Flat(r) == Flat(blocks)[..k * AVAIL + used])
            && (k * AVAIL + used > |Flat(blocks)| ==> Flat(blocks) <= Flat(r))
  {
    var b := RawBlock(blocks[k].content, used);
    var r := blocks[..k] + [b];
    FlatAt(blocks, k);
    FlatConcat(blocks[..k], [b]);
    assert Flat([b]) == Data(b);
    FlatLength(blocks);
    var head, mid, tail := Flat(blocks[..k]), Data(blocks[k]), Flat(blocks[k + 1..]);
    assert Flat(r) == head + blocks[k].content[..used];
    if used <= blocks[k].used {
      assert blocks[k].content[..used] == mid[..used];
    } else {
      assert k == |blocks| - 1 && tail == [];
      assert mid <= blocks[k].content[..used];
    }
  }

  /**
   A truncate to at most the size keeps the file consistent and is the prefix of that length.  A truncate beyond the
   size keeps it consistent exactly if it stays inside the last block, or the last block was full and it succeeds, or
   not one block could be had; a truncate that fails after it got some leaves them in the file.
   */
  lemma TruncateKeepsIff(blocks: seq<Block>, size: nat, offset: nat, supply: seq<Content>)
    requires Consistent(blocks, size)
    ensures var r := Truncated(blocks, offset, supply);
            && (r.1 <==> offset <= (|blocks| + |supply|) * AVAIL)
            && (Consistent(r.0, if r.1 then offset else size) <==>
                  offset <= |blocks| * AVAIL || supply == []
                  || (size == |blocks| * AVAIL && offset <= (|blocks| + |supply|) * AVAIL))
            && (offset <= size ==> r.1 && Flat(r.0) == Flat(blocks)[..offset])
            && (offset > size ==> Flat(blocks) <= Flat(r.0))
  {
    hide Flat, Loose, Extended, Shortened, LastIndex;
    FlatLength(blocks);
    if offset > 0 {
      var k := LastIndex(offset);
      if k < |blocks| {
        ShortenedFlat(blocks, k, offset - k * AVAIL);
      } else {
        GrowKeepsIff(blocks, offset, supply);
      }
    } else {
      EmptyFlat();
    }
  }

  lemma EmptyFlat()
    ensures Packed([]) && Flat([]) == []
  {
  }

  lemma GrowKeepsIff(blocks: seq<Block>, offset: nat, supply: seq<Content>)
    requires Packed(blocks) && offset > |blocks| * AVAIL
    ensures var r, size := Extended(blocks, offset - |blocks| * AVAIL, supply), |Flat(blocks)|;
            && (Consistent(r.0, if r.1 == 0 then offset else size) <==>
                  (r.1 == 0 && size == |blocks| * AVAIL) || supply == [])
            && Flat(blocks) <= Flat(r.0)
  {
    hide Flat, Loose;
    FlatLength(blocks);
    ExtensionAdds(blocks, offset - |blocks| * AVAIL, supply);
    ExtensionPacksIff(blocks, offset - |blocks| * AVAIL, supply);
  }

  /** One byte, truncated up to byte 5000: the header says 5000, the blocks hold 917. */
  lemma GrowingLosesBytes(x: Content, y: Content)
    ensures var file := [RawBlock(x, 1)];
            Truncated(file, 5000, [y]).1 && |Flat(Truncated(file, 5000, [y]).0)| == 917
  {
    var file := [RawBlock(x, 1)];
    ExtensionAdds(file, 916, [y]);
    FlatLength(file);
  }

  // ---------------------------------------------------------------- the code

  /**
   The state of a write of `data` at `o` into the string `s`: `n` bytes are written, the next goes to position `i` of
   block `cur`.
   */
  ghost predicate Going(blocks: seq<Block>, s: seq<Byte>, o: nat, data: seq<Byte>, n: nat, cur: nat, i: nat) {
    && n <= |data| && o <= |s| && cur <= |blocks| && cur * AVAIL + i == o + n
    && (if cur < |blocks| then i <= blocks[cur].used else i == 0)
    && Loose(blocks) && (Packed(blocks) || (cur == |blocks| - 1 && i == 0 && n < |data|))
    && Flat(blocks) == Splice(s, o, data[..n])
  }

  lemma Starts(blocks: seq<Block>, cur: nat, i: nat, data: seq<Byte>)
    requires Packed(blocks) && if cur < |blocks| then i <= blocks[cur].used else blocks == [] && cur == i == 0
    ensures Going(blocks, Flat(blocks), cur * AVAIL + i, data, 0, cur, i)
  {
    hide Flat, Splice;
    if cur < |blocks| {
      FlatAt(blocks, cur);
    }
    SpliceNothing(Flat(blocks), cur * AVAIL + i, data);
  }

  /** A chunk into the current block: either the data ends there, or the block is now full. */
  lemma PutGoes(blocks: seq<Block>, s: seq<Byte>, o: nat, data: seq<Byte>, n: nat, cur: nat, i: nat, chunk: nat)
    requires Going(blocks, s, o, data, n, cur, i) && n < |data| && cur < |blocks| && chunk == Min(AVAIL - i, |data| - n)
    ensures var after := blocks[cur := PutInto(blocks[cur], i, data[n..n + chunk])];
            if n + chunk == |data| then Going(after, s, o, data, n + chunk, cur, i + chunk)
            else Going(after, s, o, data, n + chunk, cur + 1, 0)
  {
    hide Flat, Splice;
    PutSplices(blocks, cur, i, data[n..n + chunk]);
    SpliceNext(s, o, data, n, chunk);
  }

  /** A fresh block behind full ones. */
  lemma AppendGoes(blocks: seq<Block>, s: seq<Byte>, o: nat, data: seq<Byte>, n: nat, b: Block)
    requires Going(blocks, s, o, data, n, |blocks|, 0) && n < |data| && b.used == 0
    ensures Going(blocks + [b], s, o, data, n, |blocks|, 0)
  {
    hide Flat, Splice;
    FlatLength(blocks);
    AppendEmpty(blocks, b);
  }

  lemma Ends(blocks: seq<Block>, s: seq<Byte>, o: nat, data: seq<Byte>, n: nat, cur: nat, i: nat)
    requires Going(blocks, s, o, data, n, cur, i) && (n == |data| || cur == |blocks|)
    ensures Packed(blocks) && o <= |s| && o + n <= |blocks| * AVAIL && Flat(blocks) == Splice(s, o, data[..n])
    ensures n < |data| ==> o + n == |blocks| * AVAIL
  {
    hide Flat, Splice;
    FlatLength(blocks);
  }

  /**
   Where a write of `offset` can keep the file consistent: inside it, or behind full blocks with room for the hole.
   */
  predicate Reachable(blocks: seq<Block>, size: nat, offset: nat, supply: seq<Content>) {
    offset <= size || (size == |blocks| * AVAIL && offset <= (|blocks| + |supply|) * AVAIL)
  }

  /** How many of `want` bytes fit behind `offset`. */
  function Accepted(want: nat, offset: nat, room: nat): (n: nat)
    ensures n <= want && (n > 0 ==> offset + n <= room) && (n < want ==> offset + n >= room)
  {
    if offset + want <= room then want else if offset <= room then room - offset else 0
  }

  /** What a write of `n` bytes of `data` has made of the string `s`. */
  predicate Wrote(s: seq<Byte>, r: seq<Byte>, offset: nat, data: seq<Byte>, n: nat) {
    && n <= |data|
    && |r| == Max(|s|, offset + n)
    && (forall i :: 0 <= i < |s| && !(offset <= i < offset + n) ==> r[i] == s[i])
    && (forall i :: 0 <= i < n ==> r[offset + i] == data[i])
  }

  lemma SpliceWrote(s: seq<Byte>, t: seq<Byte>, o: nat, data: seq<Byte>, n: nat)
    requires o <= |t| && s <= t && n <= |data| && |t| == Max(|s|, o)
    ensures Wrote(s, Splice(t, o, data[..n]), o, data, n)
  {
  }

  /** At most `n` bytes from `offset` on. */
  function Slice(s: seq<Byte>, offset: nat, n: nat): seq<Byte> {
    if offset >= |s| then [] else s[offset..Min(offset + n, |s|)]
  }

  /** What was written is read back, and every other old byte is read as before. */
  lemma ReadsBack(s: seq<Byte>, r: seq<Byte>, offset: nat, data: seq<Byte>, n: nat, at: nat, m: nat)
    requires Wrote(s, r, offset, data, n)
    ensures Slice(r, offset, n) == data[..n]
    ensures at + m <= |s| && (at + m <= offset || offset + n <= at) ==> Slice(r, at, m) == Slice(s, at, m)
  {
  }

  /** A slice of a block and what follows: what is left of the block, then a slice of the rest. */
  lemma SliceStep(b: seq<Byte>, rest: seq<Byte>, off: nat, left: nat)
    ensures var ignored := Min(|b|, off);
            var count := Min(|b| - ignored, left);
            Slice(b + rest, off, left) == b[ignored..ignored + count] + Slice(rest, off - ignored, left - count)
  {
    hide Slice;
    if off >= |b| {
      SliceBehind(b, rest, off, left);
      assert b[|b|..|b|] == [];
    } else if off + left <= |b| {
      SliceInside(b, rest, off, left);
      NothingLeft(rest, 0, 0);
    } else {
      SliceAcross(b, rest, off, left);
    }
  }

  lemma SliceBehind(b: seq<Byte>, rest: seq<Byte>, off: nat, left: nat)
    requires off >= |b|
    ensures Slice(b + rest, off, left) == Slice(rest, off - |b|, left)
  {
    var s, t := Slice(b + rest, off, left), Slice(rest, off - |b|, left);
    assert |s| == |t| && forall k :: 0 <= k < |s| ==> s[k] == t[k];
  }

  lemma SliceInside(b: seq<Byte>, rest: seq<Byte>, off: nat, left: nat)
    requires off < |b| && off + left <= |b|
    ensures Slice(b + rest, off, left) == b[off..off + left]
  {
    var s, t := Slice(b + rest, off, left), b[off..off + left];
    assert |s| == |t| && forall k :: 0 <= k < |s| ==> s[k] == t[k];
  }

  lemma SliceAcross(b: seq<Byte>, rest: seq<Byte>, off: nat, left: nat)
    requires off < |b| < off + left
    ensures Slice(b + rest, off, left) == b[off..|b|] + Slice(rest, 0, off + left - |b|)
  {
    var s, t := Slice(b + rest, off, left), b[off..|b|] + Slice(rest, 0, off + left - |b|);
    assert |s| == |t| && forall k :: 0 <= k < |s| ==> s[k] == t[k];
  }

  lemma ReadStep(blocks: seq<Block>, i: nat, off: nat, left: nat)
    requires i < |blocks|
    ensures var ignored := Min(blocks[i].used, off);
            var count := Min(blocks[i].used - ignored, left);
            Slice(Flat(blocks[i..]), off, left) ==
            blocks[i].content[ignored..ignored + count] + Slice(Flat(blocks[i + 1..]), off - ignored, left - count)
  {
    hide Slice;
    var b := blocks[i];
    assert blocks[i..][1..] == blocks[i + 1..];
    SliceStep(Data(b), Flat(blocks[i + 1..]), off, left);
    var ignored := Min(b.used, off);
    var count := Min(b.used - ignored, left);
    assert Data(b)[ignored..ignored + count] == b.content[ignored..ignored + count];
  }

  lemma NothingLeft(s: seq<Byte>, off: nat, left: nat)
    ensures s == [] || left == 0 ==> Slice(s, off, left) == []
  {
  }

  class BlockFile {
    /** the header's nr_used */
    var size: nat
    var blocks: seq<Block>
    /** the blocks that malloc_align will still hand out */
    var supply: seq<Content>

    constructor ()
      ensures size == 0 && blocks == [] && supply == []
    {
      size, blocks, supply := 0, [], [];
    }

    /** The byte positions that the blocks at hand and the supply have room for. */
    function Room(): nat
      reads this
    {
      (|blocks| + |supply|) * AVAIL
    }

    /** Copies `w` behind the bytes of the last block. */
    method PutLast(w: seq<Byte>)
      requires Loose(blocks) && blocks != [] && w != [] && blocks[|blocks| - 1].used + |w| <= AVAIL
      modifies this`blocks
      ensures Packed(blocks) && |blocks| == |old(blocks)|
      ensures Flat(blocks) == Splice(old(Flat(blocks)), |old(Flat(blocks))|, w)
    {
      var cur := |blocks| - 1;
      FlatLength(blocks);
      PutSplices(blocks, cur, blocks[cur].used, w);
      blocks := blocks[cur := PutInto(blocks[cur], blocks[cur].used, w)];
    }

    /** list_append of a fresh, empty block. */
    method AppendBlock()
      requires supply != [] && Loose(blocks) && (blocks != [] ==> blocks[|blocks| - 1].used == AVAIL)
      modifies this`blocks, this`supply
      ensures blocks == old(blocks) + [RawBlock(old(supply)[0], 0)] && supply == old(supply)[1..]
      ensures Room() == old(Room())
      ensures Loose(blocks) && Flat(blocks) == old(Flat(blocks))
    {
      AppendEmpty(blocks, RawBlock(supply[0], 0));
      blocks, supply := blocks + [RawBlock(supply[0], 0)], supply[1..];
    }

    /** mem_block_raw_write_sequential: appends as many bytes as there is room for. */
    method WriteSequential(data: seq<Byte>) returns (n: nat)
      requires Consistent(blocks, size)
      modifies this`blocks, this`supply
      ensures n == Accepted(|data|, size, old(Room())) && Consistent(blocks, size + n)
      ensures Flat(blocks) == Splice(old(Flat(blocks)), size, data[..n])
    {
      hide Flat, Loose, Splice;
      ghost var s := Flat(blocks);
      n := 0;
      FlatLength(blocks);
      SpliceNothing(s, size, data);
      while n < |data|
        invariant n <= |data| && Packed(blocks) && Flat(blocks) == Splice(s, size, data[..n]) && Room() == old(Room())
        decreases |data| - n
      {
        if blocks == [] || blocks[|blocks| - 1].used == AVAIL {
          if supply == [] {
            break;
          }
          AppendBlock();
        }
        var chunk := Min(AVAIL - blocks[|blocks| - 1].used, |data| - n);
        PutLast(data[n..n + chunk]);
        SpliceNext(s, size, data, n, chunk);
        n := n + chunk;
      }
      FlatLength(blocks);
    }

    /** The block and position of byte `offset`; `left` is how far it lies behind the last byte. */
    method SkipUsed(offset: nat) returns (cur: nat, iptr: nat, left: nat)
      requires Loose(blocks)
      ensures cur < |blocks| ==> left == 0 && iptr <= blocks[cur].used && cur * AVAIL + iptr == offset
      ensures cur >= |blocks| ==>
                cur == |blocks| && left == offset - |Flat(blocks)| && (left == 0 ==> blocks == [] && iptr == 0)
    {
      cur, iptr, left := 0, 0, offset;
      while cur < |blocks|
        invariant cur <= |blocks| && left == offset - |Flat(blocks[..cur])| && (if cur > 0 then left > 0 else iptr == 0)
      {
        FlatAt(blocks, cur);
        FlatConcat(blocks[..cur], [blocks[cur]]);
        assert blocks[..cur] + [blocks[cur]] == blocks[..cur + 1] && Flat([blocks[cur]]) == Data(blocks[cur]);
        iptr := 0;
        if left > 0 {
          iptr := Min(left, blocks[cur].used);
          left := left - iptr;
        }
        if left == 0 {
          return;
        }
        cur := cur + 1;
      }
      assert blocks[..cur] == blocks;
    }

    /** The extension loop of a write or truncate. */
    method Extend(want: nat) returns (left: nat)
      modifies this`blocks, this`supply
      ensures (blocks, left, supply) == Extended(old(blocks), want, old(supply))
    {
      left := want;
      while left > 0 && supply != []
        invariant Extended(blocks, left, supply) == Extended(old(blocks), want, old(supply))
        decreases |supply|
      {
        var ignored := Min(AVAIL, left);
        blocks, supply := blocks + [RawBlock(supply[0], ignored)], supply[1..];
        left := left - ignored;
      }
    }

    /** The writing loop of mem_block_raw_write_random, from position `i` of block `from`. */
    method WriteFrom(from: nat, i: nat, data: seq<Byte>) returns (n: nat)
      requires from <= |blocks| && if from < |blocks| then i <= blocks[from].used else blocks == [] && i == 0
      modifies this`blocks, this`supply
      ensures n <= |data| && |blocks| >= |old(blocks)| && forall k :: 0 <= k < from ==> blocks[k] == old(blocks)[k]
      ensures old(Packed(blocks)) ==>
                var o := from * AVAIL + i;
                && Packed(blocks) && n == Accepted(|data|, o, old(Room()))
                && o <= |old(Flat(blocks))| && Flat(blocks) == Splice(old(Flat(blocks)), o, data[..n])
    {
      hide Flat, Loose, Splice, Going;
      ghost var s, packed, o := Flat(blocks), Packed(blocks), from * AVAIL + i;
      var cur: nat, iptr: nat := from, i;
      n := 0;
      if packed {
        Starts(blocks, cur, iptr, data);
      }
      while n < |data|
        invariant n <= |data| && from <= cur <= |blocks| && |blocks| >= |old(blocks)| && Room() == old(Room())
        invariant if cur < |blocks| then iptr <= blocks[cur].used else iptr == 0
        invariant forall k :: 0 <= k < from ==> blocks[k] == old(blocks)[k]
        invariant packed ==> Going(blocks, s, o, data, n, cur, iptr)
        decreases |data| - n, if cur == |blocks| then 1 else if iptr == AVAIL then 2 else 0
      {
        if cur < |blocks| {
          var chunk := Min(AVAIL - iptr, |data| - n);
          if packed {
            PutGoes(blocks, s, o, data, n, cur, iptr, chunk);
          }
          blocks := blocks[cur := PutInto(blocks[cur], iptr, data[n..n + chunk])];
          n := n + chunk;
          if n == |data| {
            iptr := iptr + chunk;
            break;
          }
          cur, iptr := cur + 1, 0;
        } else {
          if supply == [] {
            break;
          }
          if packed {
            AppendGoes(blocks, s, o, data, n, RawBlock(supply[0], 0));
          }
          blocks, supply := blocks + [RawBlock(supply[0], 0)], supply[1..];
        }
      }
      if packed {
        Ends(blocks, s, o, data, n, cur, iptr);
      }
    }

    /** mem_block_raw_write_random: exact conditions for the file to stay consistent, and what is then written. */
    method WriteRandom(offset: nat, data: seq<Byte>) returns (n: nat)
      requires Consistent(blocks, size)
      modifies this`blocks, this`supply
      ensures Consistent(blocks, Max(size, offset + n)) <==> old(Reachable(blocks, size, offset, supply))
      ensures old(Reachable(blocks, size, offset, supply)) ==>
                n == Accepted(|data|, offset, old(Room())) && Wrote(old(Flat(blocks)), Flat(blocks), offset, data, n)
    {
      hide Flat, Loose, Splice, Extended, Wrote;
      FlatLength(blocks);
      var cur, iptr, left := SkipUsed(offset);
      if left > 0 {
        n := WriteBeyond(offset, left, data);
      } else {
        n := WriteFrom(cur, iptr, data);
        SpliceWrote(old(Flat(blocks)), old(Flat(blocks)), offset, data, n);
      }
    }

    /** A write behind the last byte. */
    method WriteBeyond(offset: nat, gap: nat, data: seq<Byte>) returns (n: nat)
      requires Consistent(blocks, size) && gap > 0 && offset == size + gap
      modifies this`blocks, this`supply
      ensures Consistent(blocks, offset + n) <==> old(Reachable(blocks, size, offset, supply))
      ensures old(Reachable(blocks, size, offset, supply)) ==>
                n == Accepted(|data|, offset, old(Room())) && Wrote(old(Flat(blocks)), Flat(blocks), offset, data, n)
    {
      hide Flat, Splice, Extended, Wrote;
      FlatLength(blocks);
      ExtensionAdds(blocks, gap, supply);
      ExtensionPacksIff(blocks, gap, supply);
      var left := Extend(gap);
      if left > 0 {
        return 0;
      }
      ghost var extended := blocks;
      var cur := |blocks| - 1;
      if Packed(blocks) {
        FlatLength(blocks);
      }
      n := WriteFrom(cur, blocks[cur].used, data);
      if Packed(extended) {
        SpliceWrote(old(Flat(blocks)), Flat(extended), offset, data, n);
      } else {
        assert blocks[|old(blocks)| - 1].used < AVAIL;
      }
    }

    /**
     tmpfs_write_file: consistent again exactly if `Reachable`, and then as many bytes as fit are written where they
     belong.
     */
    method WriteFile(offset: nat, data: seq<Byte>) returns (n: nat)
      requires Consistent(blocks, size)
      modifies this
      ensures Consistent(blocks, size) <==> old(Reachable(blocks, size, offset, supply))
      ensures old(Reachable(blocks, size, offset, supply)) ==>
                n == Accepted(|data|, offset, old(Room())) && Wrote(old(Flat(blocks)), Flat(blocks), offset, data, n)
    {
      hide Flat, Loose, Splice, Wrote;
      if size == offset {
        n := WriteSequential(data);
        SpliceWrote(old(Flat(blocks)), old(Flat(blocks)), offset, data, n);
      } else {
        n := WriteRandom(offset, data);
      }
      size := Max(offset + n, size);
    }

    /** mem_block_raw_read: the slice, of any block list. */
    method Read(offset: nat, n: nat) returns (out: seq<Byte>)
      ensures out == Slice(Flat(blocks), offset, n)
    {
      hide Flat, Slice;
      var off: nat, left: nat, i: nat := offset, n, 0;
      out := [];
      assert blocks[0..] == blocks;
      while i < |blocks|
        invariant i <= |blocks| && out + Slice(Flat(blocks[i..]), off, left) == Slice(Flat(blocks), offset, n)
      {
        if left == 0 {
          break;
        }
        var blockLeft := blocks[i].used;
        var ignored := 0;
        if off > 0 {
          ignored := Min(blockLeft, off);
          blockLeft := blockLeft - ignored;
        }
        ReadStep(blocks, i, off, left);
        if blockLeft > 0 {
          var count := Min(blockLeft, left);
          out := out + blocks[i].content[ignored..ignored + count];
          left := left - count;
        }
        off := off - ignored;
        i := i + 1;
      }
      NothingLeft(Flat(blocks[i..]), off, left);
      assert i == |blocks| ==> blocks[i..] == [];
      EmptyFlat();
    }

    /** mem_block_raw_truncate */
    method Truncate(offset: nat) returns (ok: bool)
      modifies this`blocks, this`supply
      ensures (blocks, ok) == Truncated(old(blocks), offset, old(supply))
    {
      var cur, iptr, left: nat := 0, 0, offset;
      while cur < |blocks|
        invariant cur <= |blocks| && left == offset - cur * AVAIL && (cur > 0 ==> left > 0)
      {
        iptr := 0;
        if left > 0 {
          iptr := Min(left, AVAIL);
          left := left - iptr;
        }
        if left == 0 {
          CutAt(cur, iptr);
          return true;
        }
        cur := cur + 1;
      }
      if left > 0 {
        left := Extend(left);
      }
      return left == 0;
    }

    /** Block `cur` ends at `used`, the blocks behind it are freed; so is block `cur` itself if that leaves it empty. */
    method CutAt(cur: nat, used: nat)
      requires cur < |blocks| && used <= AVAIL
      modifies this`blocks
      ensures blocks == if used > 0 then Shortened(old(blocks), cur, used) else old(blocks)[..cur]
    {
      blocks := blocks[cur := RawBlock(blocks[cur].content, used)];
      var k := if used > 0 then cur + 1 else cur;
      while k < |blocks|
        invariant k <= |blocks| && blocks[..k] ==
                  if used > 0 then Shortened(old(blocks), cur, used) else old(blocks)[..cur]
        decreases |blocks|
      {
        blocks := blocks[..k] + blocks[k + 1..];
      }
      assert blocks[..k] == blocks;
    }

    /** tmpfs_file_truncate */
    method TruncateFile(offset: nat) returns (ok: bool)
      requires Consistent(blocks, size)
      modifies this
      ensures ok <==> offset <= old(Room())
      ensures Consistent(blocks, size) <==>
                || offset <= |old(blocks)| * AVAIL || old(supply) == []
                || (old(size) == |old(blocks)| * AVAIL && offset <= old(Room()))
      ensures offset <= old(size) ==> size == offset && Flat(blocks) == old(Flat(blocks))[..offset]
      ensures offset > old(size) ==> old(Flat(blocks)) <= Flat(blocks)
    {
      hide Flat, Packed, Truncated;
      TruncateKeepsIff(blocks, size, offset, supply);
      ok := Truncate(offset);
      if ok {
        size := offset;
      }
    }
  }
}
