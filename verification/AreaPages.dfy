/**
 Memory areas of a task, and what mapping or evicting one does to the address spaces, to the page frames and to the
 page tables, up to an address.  The loops of `TaskPaging` are proved against these predicates.
 */
module AreaPages {
  import opened Common
  import opened PageBitmap
  import opened AddressSpace

  datatype VmArea = VmArea(
    virt: nat, length: nat, kernel: bool, exact: bool, phys: nat,
    write: bool, writeThrough: bool, cacheDisable: bool)

  predicate Covers(vma: VmArea, addr: nat) {
    vma.virt <= addr < vma.virt + vma.length
  }

  /** search_userspace_vma_by_addr: the first area that covers the address. */
  function Search(vmas: seq<VmArea>, addr: nat): (r: Option<VmArea>)
    ensures r.Some? ==> r.value in vmas && Covers(r.value, addr)
    ensures r.None? ==> forall v :: v in vmas ==> !Covers(v, addr)
  {
    if vmas == [] then None else if Covers(vmas[0], addr) then Some(vmas[0]) else Search(vmas[1..], addr)
  }

  lemma {:induction false} SearchFirst(vmas: seq<VmArea>, addr: nat, i: nat)
    requires i < |vmas| && Covers(vmas[i], addr) && forall j :: 0 <= j < i ==> !Covers(vmas[j], addr)
    ensures Search(vmas, addr) == Some(vmas[i])
  {
    if i > 0 {
      SearchFirst(vmas[1..], addr, i - 1);
    }
  }

  lemma Found(vmas: seq<VmArea>, vma: VmArea, addr: nat)
    requires vma in vmas && Covers(vma, addr)
    ensures Search(vmas, addr).Some?
  {
  }

  /** The areas the loops walk over: page aligned and below 4 GB. */
  predicate Aligned(vma: VmArea) {
    vma.virt % PAGE_SIZE == 0 && vma.virt + vma.length <= DWORD
  }

  function Top(vma: VmArea): nat {
    vma.virt + vma.length
  }

  /** Virtual page `v` belongs to the area. */
  predicate InArea(vma: VmArea, v: nat) {
    Covers(vma, v * PAGE_SIZE)
  }

  /** It does and lies below `upto`. */
  predicate Done(vma: VmArea, upto: nat, v: nat) {
    InArea(vma, v) && v * PAGE_SIZE < upto
  }

  lemma OneMore(vma: VmArea, addr: nat, v: nat)
    requires addr % PAGE_SIZE == 0 && Covers(vma, addr)
    ensures Done(vma, addr + PAGE_SIZE, v) <==> Done(vma, addr, v) || v == addr / PAGE_SIZE
    ensures !Done(vma, addr, addr / PAGE_SIZE) && addr / PAGE_SIZE * PAGE_SIZE == addr
  {
  }

  predicate MapsTo(mem: Words, dir: nat, v: nat, f: nat) {
    Walk(mem, dir, v).Some? && Walk(mem, dir, v).value.frame == f
  }

  /** No page translated by word `i` of the directory is mapped. */
  ghost predicate EmptySlot(mem: Words, dir: nat, i: nat) {
    forall v: nat {:trigger Walk(mem, dir, v)} :: v / WORDS == i ==> Walk(mem, dir, v) == None
  }

  // ---------------------------------------------------------------- evicting: translations and frames

  /** The pages of the area below `upto` are unmapped; every other translation of every space is as it was. */
  ghost predicate Evicted(was: Words, mem: Words, dirs: set<nat>, dir: nat, vma: VmArea, upto: nat) {
    forall e, v: nat {:trigger Walk(mem, e, v)} :: e in dirs ==>
      Walk(mem, e, v) == if e == dir && Done(vma, upto, v) then None else Walk(was, e, v)
  }

  /** The first area that covers the address got its frames from the page allocator. */
  predicate Owns(vmas: seq<VmArea>, addr: nat) {
    var vma := Search(vmas, addr);
    vma.Some? && !vma.value.exact
  }

  /** A page of the area below `upto` held frame `f` and has to give it back. */
  ghost predicate Released(was: Words, dir: nat, vmas: seq<VmArea>, vma: VmArea, upto: nat, f: nat) {
    exists v: nat {:trigger MapsTo(was, dir, v, f)} ::
      Done(vma, upto, v) && MapsTo(was, dir, v, f) && Owns(vmas, v * PAGE_SIZE)
  }

  /** Exactly those frames have become free. */
  ghost predicate FramesBack(wasBits: seq<bool>, bits: seq<bool>, was: Words, dir: nat, vmas: seq<VmArea>,
                             vma: VmArea, upto: nat)
  {
    && |bits| == |wasBits|
    && forall f :: 0 <= f < |bits| ==> bits[f] == (wasBits[f] && !Released(was, dir, vmas, vma, upto, f))
  }

  lemma EvictStep(was: Words, m0: Words, m1: Words, dirs: set<nat>, dir: nat, vma: VmArea, addr: nat)
    requires addr % PAGE_SIZE == 0 && dir in dirs && Covers(vma, addr) && Evicted(was, m0, dirs, dir, vma, addr)
    requires if Walk(m0, dir, addr / PAGE_SIZE).Some?
             then OnlyPage(m0, m1, dirs, dir, addr / PAGE_SIZE, None) else m1 == m0
    ensures Evicted(was, m1, dirs, dir, vma, addr + PAGE_SIZE)
    ensures Walk(m0, dir, addr / PAGE_SIZE) == Walk(was, dir, addr / PAGE_SIZE)
  {
    hide Walk, Done;
    OneMore(vma, addr, addr / PAGE_SIZE);
    forall e, v: nat | e in dirs
      ensures Walk(m1, e, v) == if e == dir && Done(vma, addr + PAGE_SIZE, v) then None else Walk(was, e, v)
    {
      OneMore(vma, addr, v);
      assert Walk(m0, e, v) == Walk(m0, e, v);
    }
  }

  lemma FramesStep(wasBits: seq<bool>, b0: seq<bool>, b1: seq<bool>, was: Words, dir: nat, vmas: seq<VmArea>,
                   vma: VmArea, addr: nat)
    requires addr % PAGE_SIZE == 0 && Covers(vma, addr) && FramesBack(wasBits, b0, was, dir, vmas, vma, addr)
    requires var w := Walk(was, dir, addr / PAGE_SIZE);
             if w.Some? && Owns(vmas, addr) then w.value.frame < |b0| && b1 == Filled(b0, w.value.frame, 1, false)
             else b1 == b0
    ensures FramesBack(wasBits, b1, was, dir, vmas, vma, addr + PAGE_SIZE)
  {
    hide Walk, Owns, Done;
    var p := addr / PAGE_SIZE;
    OneMore(vma, addr, p);
    forall v: nat
      ensures Done(vma, addr + PAGE_SIZE, v) <==> Done(vma, addr, v) || v == p
    {
      OneMore(vma, addr, v);
    }
    forall f: nat | f < |b1|
      ensures Released(was, dir, vmas, vma, addr + PAGE_SIZE, f) <==>
                Released(was, dir, vmas, vma, addr, f) || (MapsTo(was, dir, p, f) && Owns(vmas, addr))
    {
    }
  }

  // ---------------------------------------------------------------- evicting: tables

  /** `v` is the last page of the area that its directory word translates. */
  predicate LastIn(vma: VmArea, v: nat) {
    InArea(vma, v) && !(InArea(vma, v + 1) && (v + 1) / WORDS == v / WORDS)
  }

  ghost predicate OnlyAreaIn(was: Words, dir: nat, vma: VmArea, k: nat) {
    forall u: nat {:trigger Walk(was, dir, u)} :: u / WORDS == k && Walk(was, dir, u).Some? ==> InArea(vma, u)
  }

  /** The table of word `k` was used by the area alone, and the area's last page in it was mapped. */
  ghost predicate Swept(was: Words, dir: nat, vma: VmArea, upto: nat, k: nat) {
    exists v: nat {:trigger LastIn(vma, v)} ::
      LastIn(vma, v) && Done(vma, upto, v) && v / WORDS == k && Walk(was, dir, v).Some? && OnlyAreaIn(was, dir, vma, k)
  }

  /** Exactly the swept tables are unlinked. */
  ghost predicate TablesBack(was: Words, mem: Words, dirs: set<nat>, dir: nat, vma: VmArea, upto: nat) {
    forall e: nat, k: nat {:trigger Table(mem, dirs, e, k)} ::
      Table(mem, dirs, e, k) == if e == dir && Swept(was, dir, vma, upto, k) then None else Table(was, dirs, e, k)
  }

  /** The base pages of the swept tables. */
  ghost function SweptPages(was: Words, dirs: set<nat>, dir: nat, vma: VmArea, upto: nat): (s: set<nat>)
    ensures forall a :: a in s <==> exists k: nat {:trigger Table(was, dirs, dir, k)} ::
                k < WORDS && Table(was, dirs, dir, k) == Some(a) && Swept(was, dir, vma, upto, k)
  {
    set k: nat | k < WORDS && Table(was, dirs, dir, k).Some? && Swept(was, dir, vma, upto, k) ::
      Table(was, dirs, dir, k).value
  }

  lemma TablesStep(was: Words, m0: Words, m1: Words, dirs: set<nat>, dir: nat, vma: VmArea, addr: nat, reclaim: bool)
    requires addr % PAGE_SIZE == 0 && dir in dirs && Covers(vma, addr)
    requires Evicted(was, m1, dirs, dir, vma, addr + PAGE_SIZE) && TablesBack(was, m0, dirs, dir, vma, addr)
    requires reclaim == LastIn(vma, addr / PAGE_SIZE)
    requires var i := addr / PAGE_SIZE / WORDS;
             if Walk(was, dir, addr / PAGE_SIZE).Some? && reclaim && EmptySlot(m1, dir, i)
             then OnlyTable(m0, m1, dirs, dir, i, None) else SameTables(m0, m1, dirs)
    ensures TablesBack(was, m1, dirs, dir, vma, addr + PAGE_SIZE)
  {
    hide Walk, Table, Done;
    var p := addr / PAGE_SIZE;
    var i := p / WORDS;
    if reclaim {
      OneMore(vma, addr, p);
      SlotEmptied(was, m1, dirs, dir, vma, p);
    }
    forall v: nat
      ensures Done(vma, addr + PAGE_SIZE, v) <==> Done(vma, addr, v) || v == p
    {
      OneMore(vma, addr, v);
    }
    forall k: nat
      ensures Swept(was, dir, vma, addr + PAGE_SIZE, k) <==>
                Swept(was, dir, vma, addr, k)
                || (k == i && reclaim && Walk(was, dir, p).Some? && OnlyAreaIn(was, dir, vma, k))
    {
    }
    forall e: nat, k: nat
      ensures Table(m1, dirs, e, k) ==
                if e == dir && Swept(was, dir, vma, addr + PAGE_SIZE, k) then None else Table(was, dirs, e, k)
    {
      assert Table(m0, dirs, e, k) ==
             if e == dir && Swept(was, dir, vma, addr, k) then None else Table(was, dirs, e, k);
      assert Table(m1, dirs, e, k) == Table(m1, dirs, e, k);
    }
  }

  lemma Between(p: nat, u: nat)
    requires u / WORDS == p / WORDS
    ensures u > p ==> (p + 1) / WORDS == p / WORDS
  {
  }

  /** The area's last page in a slot is not below any other. */
  lemma LastIsLast(vma: VmArea, p: nat, u: nat)
    requires LastIn(vma, p) && u / WORDS == p / WORDS && InArea(vma, u)
    ensures u <= p
  {
    Between(p, u);
  }

  /** Once the area's last page in a slot is evicted, the slot is empty exactly if only the area used it. */
  lemma SlotEmptied(was: Words, mem: Words, dirs: set<nat>, dir: nat, vma: VmArea, p: nat)
    requires dir in dirs && LastIn(vma, p) && Evicted(was, mem, dirs, dir, vma, p * PAGE_SIZE + PAGE_SIZE)
    ensures EmptySlot(mem, dir, p / WORDS) <==> OnlyAreaIn(was, dir, vma, p / WORDS)
  {
    hide Walk, LastIn;
    forall u: nat | u / WORDS == p / WORDS
      ensures Walk(mem, dir, u) == if InArea(vma, u) then None else Walk(was, dir, u)
    {
      if InArea(vma, u) {
        LastIsLast(vma, p, u);
      }
      assert Walk(mem, dir, u) == Walk(mem, dir, u);
    }
    assert EmptySlot(mem, dir, p / WORDS) ==> OnlyAreaIn(was, dir, vma, p / WORDS) by {
      if EmptySlot(mem, dir, p / WORDS) {
        forall u: nat | u / WORDS == p / WORDS && Walk(was, dir, u).Some?
          ensures InArea(vma, u)
        {
          assert Walk(mem, dir, u) == None;
        }
      }
    }
  }

  /** The base pages in use after the eviction: what was in use, less the swept tables. */
  lemma SweptPagesBack(was: Words, taken0: set<nat>, mem: Words, taken: set<nat>, dirs: set<nat>, dir: nat,
                       vma: VmArea, upto: nat)
    requires Spaces(was, taken0, dirs) && Spaces(mem, taken, dirs) && TablesBack(was, mem, dirs, dir, vma, upto)
    ensures taken == taken0 - SweptPages(was, dirs, dir, vma, upto) && SweptPages(was, dirs, dir, vma, upto) <= taken0
  {
    hide Swept, SweptPages;
    var gone := SweptPages(was, dirs, dir, vma, upto);
    forall a
      ensures (a in taken <==> a in taken0 && a !in gone) && (a in gone ==> a in taken0)
    {
      SweptPageBack(was, taken0, mem, taken, dirs, dir, vma, upto, a);
    }
  }

  lemma SweptPageBack(was: Words, taken0: set<nat>, mem: Words, taken: set<nat>, dirs: set<nat>, dir: nat,
                      vma: VmArea, upto: nat, a: nat)
    requires Spaces(was, taken0, dirs) && Spaces(mem, taken, dirs) && TablesBack(was, mem, dirs, dir, vma, upto)
    ensures a in taken <==> a in taken0 && a !in SweptPages(was, dirs, dir, vma, upto)
    ensures a in SweptPages(was, dirs, dir, vma, upto) ==> a in taken0
  {
    hide Swept, SweptPages;
    TablesInUse(was, taken0, dirs, a);
    TablesInUse(mem, taken, dirs, a);
    if a in SweptPages(was, dirs, dir, vma, upto) {
      var k: nat :| k < WORDS && Table(was, dirs, dir, k) == Some(a) && Swept(was, dir, vma, upto, k);
      assert forall e: nat, j: nat :: Table(was, dirs, e, j) == Some(a) ==> e == dir && j == k;
    } else if a in taken0 && a !in dirs {
      var e: nat, k: nat :| Table(was, dirs, e, k) == Some(a);
      assert Table(mem, dirs, e, k) == Some(a);
    }
  }

  /** A base page is taken exactly if it is a directory or a table of one, and a table is no directory. */
  lemma TablesInUse(mem: Words, taken: set<nat>, dirs: set<nat>, a: nat)
    requires Spaces(mem, taken, dirs)
    ensures a in taken <==> a in dirs || InUse(mem, dirs, a)
    ensures !(a in dirs && InUse(mem, dirs, a))
    ensures forall d: nat, i: nat :: Table(mem, dirs, d, i) == Some(a) ==> i < WORDS
  {
    forall d: nat, i: nat | Table(mem, dirs, d, i) == Some(a)
      ensures a in taken && a !in dirs
    {
      assert TableSound(mem, taken, dirs, d, i);
    }
  }

  /** Two pages at the bottom of user space. */
  const LAZY_AREA: VmArea := VmArea(0x40000000, 0x2000, false, false, 0, true, false, false)

  /** If only the first of the two is mapped, evicting the area empties its page table and leaves it linked. */
  lemma TableCanStay(was: Words, end: Words, dirs: set<nat>, dir: nat)
    requires dir in dirs && forall k: nat :: Table(was, dirs, dir, k).Some? <==> k == 256
    requires forall v: nat :: Walk(was, dir, v).Some? <==> v == 0x40000
    requires Evicted(was, end, dirs, dir, LAZY_AREA, 0x40002000)
    requires TablesBack(was, end, dirs, dir, LAZY_AREA, 0x40002000)
    ensures EmptySlot(end, dir, 256) && Table(end, dirs, dir, 256) == Table(was, dirs, dir, 256)
    ensures SweptPages(was, dirs, dir, LAZY_AREA, 0x40002000) == {}
    ensures TablesOf(end, dirs, dir) == {Table(was, dirs, dir, 256).value}
  {
    hide Walk, Table, SweptPages, TablesOf;
    assert forall v: nat :: LastIn(LAZY_AREA, v) ==> v == 0x40001;
    assert !Walk(was, dir, 0x40001).Some?;
    forall v: nat
      ensures Walk(end, dir, v) == None
    {
      assert Walk(was, dir, v).Some? <==> v == 0x40000;
      assert Done(LAZY_AREA, 0x40002000, 0x40000);
    }
  }

  // ---------------------------------------------------------------- beginning and end of the eviction

  lemma NothingEvicted(mem: Words, dirs: set<nat>, dir: nat, vmas: seq<VmArea>, vma: VmArea, bits: seq<bool>)
    ensures Evicted(mem, mem, dirs, dir, vma, vma.virt) && FramesBack(bits, bits, mem, dir, vmas, vma, vma.virt)
    ensures TablesBack(mem, mem, dirs, dir, vma, vma.virt)
  {
    hide Walk, Table;
  }

  /** Beyond the area's end nothing is left to do. */
  lemma AllEvicted(was: Words, mem: Words, dirs: set<nat>, dir: nat, vmas: seq<VmArea>, vma: VmArea,
                   wasBits: seq<bool>, bits: seq<bool>, addr: nat)
    requires addr >= Top(vma) && Evicted(was, mem, dirs, dir, vma, addr)
    requires FramesBack(wasBits, bits, was, dir, vmas, vma, addr) && TablesBack(was, mem, dirs, dir, vma, addr)
    ensures Evicted(was, mem, dirs, dir, vma, Top(vma)) && FramesBack(wasBits, bits, was, dir, vmas, vma, Top(vma))
    ensures TablesBack(was, mem, dirs, dir, vma, Top(vma))
  {
    hide Walk, Table, Owns;
    assert forall v: nat :: Done(vma, addr, v) <==> Done(vma, Top(vma), v);
    assert forall f: nat :: Released(was, dir, vmas, vma, addr, f) <==> Released(was, dir, vmas, vma, Top(vma), f);
    assert forall k: nat :: Swept(was, dir, vma, addr, k) <==> Swept(was, dir, vma, Top(vma), k);
  }

  /** The loop asks for a reclaim exactly at the area's last page in each directory word. */
  lemma WhenLast(vma: VmArea, addr: nat, current: nat, next: nat)
    requires Aligned(vma) && Covers(vma, addr) && addr % PAGE_SIZE == 0
    requires current == addr / PAGE_SIZE / WORDS % WORDS
    requires next == (addr + PAGE_SIZE) % DWORD / PAGE_SIZE / WORDS % WORDS
    ensures addr + PAGE_SIZE >= Top(vma) || current != next <==> LastIn(vma, addr / PAGE_SIZE)
  {
    var p := addr / PAGE_SIZE;
    assert p * PAGE_SIZE == addr && (p + 1) * PAGE_SIZE == addr + PAGE_SIZE;
  }

  // ---------------------------------------------------------------- mapping

  /** The frame an exact area wants for page `v`. */
  function ExactFrame(vma: VmArea, v: nat): nat
    requires InArea(vma, v)
  {
    (vma.phys + v * PAGE_SIZE - vma.virt) % DWORD / PAGE_SIZE
  }

  function AreaFlags(vma: VmArea): nat {
    Flags(vma.write, true, vma.writeThrough, vma.cacheDisable)
  }

  /** Page `v` is mapped with the permissions of its area and, if the area is exact, where it wants it. */
  predicate MappedFor(vma: VmArea, v: nat, w: Option<Mapping>) {
    w.Some? && w.value.flags == AreaFlags(vma) && (vma.exact && InArea(vma, v) ==> w.value.frame == ExactFrame(vma, v))
  }

  /** The pages of the area below `upto` are mapped for it; nothing else has changed. */
  ghost predicate Mapped(was: Words, mem: Words, dirs: set<nat>, dir: nat, vma: VmArea, upto: nat) {
    forall e, v: nat {:trigger Walk(mem, e, v)} :: e in dirs ==>
      if e == dir && Done(vma, upto, v) then MappedFor(vma, v, Walk(mem, e, v)) else Walk(mem, e, v) == Walk(was, e, v)
  }

  /** Page by page: the bits the hardware sees are the area's permissions, and an exact area is where it wants to be. */
  ghost predicate AsAsked(mem: Words, dir: nat, vma: VmArea, upto: nat) {
    forall v: nat {:trigger Walk(mem, dir, v)} :: Done(vma, upto, v) ==>
      && Walk(mem, dir, v).Some?
      && var f := Walk(mem, dir, v).value.flags;
         && f % 2 == 1 && (f / 2 % 2 == 1 <==> vma.write) && f / 4 % 2 == 1
         && (f / 8 % 2 == 1 <==> vma.writeThrough) && (f / 16 % 2 == 1 <==> vma.cacheDisable)
         && (vma.exact ==>
               Walk(mem, dir, v).value.frame == (vma.phys + v * PAGE_SIZE - vma.virt) % DWORD / PAGE_SIZE)
  }

  lemma MappedAsAsked(was: Words, mem: Words, dirs: set<nat>, dir: nat, vma: VmArea, upto: nat)
    requires dir in dirs && Mapped(was, mem, dirs, dir, vma, upto)
    ensures AsAsked(mem, dir, vma, upto)
  {
    hide Walk, Flags;
    FlagBits(vma.write, true, vma.writeThrough, vma.cacheDisable);
  }

  ghost predicate Holds(mem: Words, dir: nat, vma: VmArea, upto: nat, f: nat) {
    exists v: nat {:trigger MapsTo(mem, dir, v, f)} :: Done(vma, upto, v) && MapsTo(mem, dir, v, f)
  }

  /** Two pages below `upto` do not share a frame. */
  ghost predicate Unshared(mem: Words, dir: nat, vma: VmArea, upto: nat) {
    forall v: nat, w: nat, f: nat {:trigger MapsTo(mem, dir, v, f), MapsTo(mem, dir, w, f)} ::
      Done(vma, upto, v) && Done(vma, upto, w) && MapsTo(mem, dir, v, f) && MapsTo(mem, dir, w, f) ==> v == w
  }

  /** The pages below `upto` hold frames of their own that were free, and no other frame has been taken. */
  ghost predicate Granted(wasBits: seq<bool>, bits: seq<bool>, mem: Words, dir: nat, vma: VmArea, upto: nat) {
    && |bits| == |wasBits|
    && (forall f :: 0 <= f < |bits| ==> bits[f] == (wasBits[f] || (!vma.exact && Holds(mem, dir, vma, upto, f))))
    && (!vma.exact ==> forall f :: 0 <= f < |bits| && Holds(mem, dir, vma, upto, f) ==> !wasBits[f])
    && (!vma.exact ==> Unshared(mem, dir, vma, upto))
  }

  /** The area has a page below `upto` that word `k` translates. */
  ghost predicate Reaches(vma: VmArea, upto: nat, k: nat) {
    exists v: nat {:trigger Done(vma, upto, v)} :: Done(vma, upto, v) && v / WORDS == k
  }

  /** Exactly the missing tables of the pages below `upto` have been linked. */
  ghost predicate TablesMade(was: Words, mem: Words, dirs: set<nat>, dir: nat, vma: VmArea, upto: nat) {
    forall e: nat, k: nat {:trigger Table(mem, dirs, e, k)} ::
      if e == dir && Reaches(vma, upto, k) && Table(was, dirs, e, k).None?
      then Table(mem, dirs, e, k).Some? else Table(mem, dirs, e, k) == Table(was, dirs, e, k)
  }

  /** The base pages of the tables of `dir` that are new. */
  ghost function NewPages(was: Words, mem: Words, dirs: set<nat>, dir: nat): (s: set<nat>)
    ensures forall a :: a in s <==> exists k: nat {:trigger Table(mem, dirs, dir, k)} ::
                k < WORDS && Table(mem, dirs, dir, k) == Some(a) && Table(was, dirs, dir, k).None?
  {
    set k: nat | k < WORDS && Table(mem, dirs, dir, k).Some? && Table(was, dirs, dir, k).None? ::
      Table(mem, dirs, dir, k).value
  }

  lemma NothingMapped(mem: Words, dirs: set<nat>, dir: nat, vma: VmArea, bits: seq<bool>)
    ensures Mapped(mem, mem, dirs, dir, vma, vma.virt) && Granted(bits, bits, mem, dir, vma, vma.virt)
    ensures TablesMade(mem, mem, dirs, dir, vma, vma.virt) && AsAsked(mem, dir, vma, vma.virt)
  {
    hide Walk, Table;
  }

  lemma MapStep(was: Words, m0: Words, m1: Words, dirs: set<nat>, dir: nat, vma: VmArea, addr: nat, f: nat)
    requires addr % PAGE_SIZE == 0 && dir in dirs && Covers(vma, addr) && Mapped(was, m0, dirs, dir, vma, addr)
    requires OnlyPage(m0, m1, dirs, dir, addr / PAGE_SIZE, Some(Mapping(f, AreaFlags(vma))))
    requires vma.exact ==> f == (vma.phys + addr - vma.virt) % DWORD / PAGE_SIZE
    ensures Mapped(was, m1, dirs, dir, vma, addr + PAGE_SIZE) && AsAsked(m1, dir, vma, addr + PAGE_SIZE)
  {
    hide Walk, Done, AsAsked;
    forall e, v: nat | e in dirs
      ensures if e == dir && Done(vma, addr + PAGE_SIZE, v) then MappedFor(vma, v, Walk(m1, e, v))
              else Walk(m1, e, v) == Walk(was, e, v)
    {
      OneMore(vma, addr, v);
      assert Walk(m0, e, v) == Walk(m0, e, v);
    }
    MappedAsAsked(was, m1, dirs, dir, vma, addr + PAGE_SIZE);
  }

  lemma GrantStep(wasBits: seq<bool>, b0: seq<bool>, b1: seq<bool>, m0: Words, m1: Words, dirs: set<nat>, dir: nat,
                  vma: VmArea, addr: nat, f: nat)
    requires addr % PAGE_SIZE == 0 && dir in dirs && Covers(vma, addr) && Granted(wasBits, b0, m0, dir, vma, addr)
    requires OnlyPage(m0, m1, dirs, dir, addr / PAGE_SIZE, Some(Mapping(f, AreaFlags(vma))))
    requires if vma.exact then b1 == b0 else f < |b0| && !b0[f] && b1 == b0[f := true]
    ensures Granted(wasBits, b1, m1, dir, vma, addr + PAGE_SIZE)
  {
    hide Walk, Done;
    if !vma.exact {
      var p := addr / PAGE_SIZE;
      forall v: nat, g: nat
        ensures MapsTo(m1, dir, v, g) <==> if v == p then g == f else MapsTo(m0, dir, v, g)
        ensures Done(vma, addr + PAGE_SIZE, v) <==> Done(vma, addr, v) || v == p
        ensures !Done(vma, addr, p)
      {
        OneMore(vma, addr, v);
        assert Walk(m1, dir, v) == Walk(m1, dir, v);
      }
      hide MapsTo;
      forall g: nat | g < |b1|
        ensures Holds(m1, dir, vma, addr + PAGE_SIZE, g) <==> Holds(m0, dir, vma, addr, g) || g == f
      {
        assert MapsTo(m1, dir, p, f);
        assert forall v: nat :: v != p ==> (MapsTo(m1, dir, v, g) <==> MapsTo(m0, dir, v, g));
      }
      forall v: nat, w: nat, g: nat | Done(vma, addr + PAGE_SIZE, v) && Done(vma, addr + PAGE_SIZE, w)
                                      && MapsTo(m1, dir, v, g) && MapsTo(m1, dir, w, g)
        ensures v == w
      {
        assert v != p && MapsTo(m0, dir, v, f) ==> Holds(m0, dir, vma, addr, f);
        assert w != p && MapsTo(m0, dir, w, f) ==> Holds(m0, dir, vma, addr, f);
      }
    }
  }

  lemma TablesMadeStep(was: Words, m0: Words, m1: Words, dirs: set<nat>, dir: nat, vma: VmArea, addr: nat)
    requires addr % PAGE_SIZE == 0 && dir in dirs && Covers(vma, addr) && TablesMade(was, m0, dirs, dir, vma, addr)
    requires var i := addr / PAGE_SIZE / WORDS; Table(m1, dirs, dir, i).Some?
    requires var i := addr / PAGE_SIZE / WORDS;
             if Table(m0, dirs, dir, i).Some? then SameTables(m0, m1, dirs)
             else OnlyTable(m0, m1, dirs, dir, i, Table(m1, dirs, dir, i))
    ensures TablesMade(was, m1, dirs, dir, vma, addr + PAGE_SIZE)
  {
    hide Table, Done;
    var p := addr / PAGE_SIZE;
    forall k: nat
      ensures Reaches(vma, addr + PAGE_SIZE, k) <==> Reaches(vma, addr, k) || k == p / WORDS
    {
      ReachStep(vma, addr, k);
    }
    hide Reaches;
    forall e: nat, k: nat
      ensures if e == dir && Reaches(vma, addr + PAGE_SIZE, k) && Table(was, dirs, e, k).None?
              then Table(m1, dirs, e, k).Some? else Table(m1, dirs, e, k) == Table(was, dirs, e, k)
    {
      assert Table(m0, dirs, e, k) == Table(m0, dirs, e, k);
    }
  }

  lemma ReachStep(vma: VmArea, addr: nat, k: nat)
    requires addr % PAGE_SIZE == 0 && Covers(vma, addr)
    ensures Reaches(vma, addr + PAGE_SIZE, k) <==> Reaches(vma, addr, k) || k == addr / PAGE_SIZE / WORDS
  {
    hide Done;
    var p := addr / PAGE_SIZE;
    OneMore(vma, addr, p);
    if Reaches(vma, addr + PAGE_SIZE, k) {
      var v: nat :| Done(vma, addr + PAGE_SIZE, v) && v / WORDS == k;
      OneMore(vma, addr, v);
    }
    if Reaches(vma, addr, k) {
      var v: nat :| Done(vma, addr, v) && v / WORDS == k;
      OneMore(vma, addr, v);
    }
  }

  /** The base pages in use after the mapping: what was in use, and the new tables, which were free. */
  lemma NewPagesTaken(was: Words, taken0: set<nat>, mem: Words, taken: set<nat>, dirs: set<nat>, dir: nat)
    requires Spaces(was, taken0, dirs) && Spaces(mem, taken, dirs) && dir in dirs
    requires forall e: nat, k: nat {:trigger Table(mem, dirs, e, k)} ::
               Table(was, dirs, e, k).Some? || e != dir ==> Table(mem, dirs, e, k) == Table(was, dirs, e, k)
    ensures taken == taken0 + NewPages(was, mem, dirs, dir) && taken0 !! NewPages(was, mem, dirs, dir)
  {
    hide NewPages;
    forall a
      ensures a in taken <==> a in taken0 || a in NewPages(was, mem, dirs, dir)
      ensures !(a in taken0 && a in NewPages(was, mem, dirs, dir))
    {
      NewPageTaken(was, taken0, mem, taken, dirs, dir, a);
    }
  }

  lemma NewPageTaken(was: Words, taken0: set<nat>, mem: Words, taken: set<nat>, dirs: set<nat>, dir: nat, a: nat)
    requires Spaces(was, taken0, dirs) && Spaces(mem, taken, dirs) && dir in dirs
    requires forall e: nat, k: nat {:trigger Table(mem, dirs, e, k)} ::
               Table(was, dirs, e, k).Some? || e != dir ==> Table(mem, dirs, e, k) == Table(was, dirs, e, k)
    ensures a in taken <==> a in taken0 || a in NewPages(was, mem, dirs, dir)
    ensures !(a in taken0 && a in NewPages(was, mem, dirs, dir))
  {
    hide NewPages;
    TablesInUse(was, taken0, dirs, a);
    TablesInUse(mem, taken, dirs, a);
    if InUse(was, dirs, a) {
      var e: nat, k: nat :| Table(was, dirs, e, k) == Some(a);
      assert Table(mem, dirs, e, k) == Some(a);
      assert forall d: nat, j: nat :: Table(mem, dirs, d, j) == Some(a) ==> d == e && j == k;
    } else if InUse(mem, dirs, a) {
      var e: nat, k: nat :| Table(mem, dirs, e, k) == Some(a);
      assert Table(was, dirs, e, k) != Some(a);
    }
  }

  // ---------------------------------------------------------------- there and back

  /**
   Evicting an area that was mapped, wholly or up to an address, into unmapped pages restores the translations of every
   space and the set of free frames.
   */
  lemma MapThenEvict(was: Words, mem: Words, end: Words, dirs: set<nat>, dir: nat, vmas: seq<VmArea>, vma: VmArea,
                     wasBits: seq<bool>, bits: seq<bool>, endBits: seq<bool>, upto: nat)
    requires dir in dirs && upto <= Top(vma)
    requires forall v: nat :: InArea(vma, v) ==> Walk(was, dir, v) == None && Search(vmas, v * PAGE_SIZE) == Some(vma)
    requires Mapped(was, mem, dirs, dir, vma, upto) && Granted(wasBits, bits, mem, dir, vma, upto)
    requires Evicted(mem, end, dirs, dir, vma, Top(vma))
    requires FramesBack(bits, endBits, mem, dir, vmas, vma, Top(vma))
    ensures SameWalks(was, end, dirs) && endBits == wasBits
  {
    hide Walk, Search;
    forall e, v: nat | e in dirs
      ensures Walk(end, e, v) == Walk(was, e, v)
    {
      assert Walk(mem, e, v) == Walk(mem, e, v);
    }
    forall v: nat | InArea(vma, v)
      ensures Walk(mem, dir, v).Some? <==> Done(vma, upto, v)
      ensures Owns(vmas, v * PAGE_SIZE) <==> !vma.exact
    {
      assert Walk(mem, dir, v) == Walk(mem, dir, v);
      assert Walk(was, dir, v) == None;
    }
    forall f: nat | f < |endBits|
      ensures endBits[f] == wasBits[f]
    {
      assert Released(mem, dir, vmas, vma, Top(vma), f) <==> !vma.exact && Holds(mem, dir, vma, upto, f);
    }
  }

  /**
   Evicting an area that was mapped wholly leaves exactly the tables from before, except those that were linked but
   empty where the area lies.
   */
  lemma MapThenEvictTables(was: Words, mem: Words, end: Words, dirs: set<nat>, dir: nat, vma: VmArea)
    requires dir in dirs && Aligned(vma) && forall v: nat :: InArea(vma, v) ==> Walk(was, dir, v) == None
    requires Mapped(was, mem, dirs, dir, vma, Top(vma)) && TablesMade(was, mem, dirs, dir, vma, Top(vma))
    requires TablesBack(mem, end, dirs, dir, vma, Top(vma))
    ensures forall e: nat, k: nat {:trigger Table(end, dirs, e, k)} ::
              Table(end, dirs, e, k) ==
              if e == dir && Reaches(vma, Top(vma), k) && EmptySlot(was, dir, k) then None else Table(was, dirs, e, k)
  {
    hide Table, Walk, Swept, Reaches, EmptySlot;
    forall e: nat, k: nat
      ensures Table(end, dirs, e, k) ==
              if e == dir && Reaches(vma, Top(vma), k) && EmptySlot(was, dir, k) then None else Table(was, dirs, e, k)
    {
      SweptIff(was, mem, dirs, dir, vma, k);
      assert Table(mem, dirs, e, k) == Table(mem, dirs, e, k);
    }
  }

  /** Of a wholly mapped area exactly those tables are swept in which nothing else was mapped. */
  lemma SweptIff(was: Words, mem: Words, dirs: set<nat>, dir: nat, vma: VmArea, k: nat)
    requires dir in dirs && Aligned(vma) && forall v: nat :: InArea(vma, v) ==> Walk(was, dir, v) == None
    requires Mapped(was, mem, dirs, dir, vma, Top(vma))
    ensures Swept(mem, dir, vma, Top(vma), k) <==> Reaches(vma, Top(vma), k) && EmptySlot(was, dir, k)
    ensures Table(was, dirs, dir, k).None? ==> EmptySlot(was, dir, k)
  {
    assert OnlyAreaIn(mem, dir, vma, k) <==> EmptySlot(was, dir, k) by {
      OnlyAreaIffEmpty(was, mem, dirs, dir, vma, k);
    }
    hide Walk;
    if Reaches(vma, Top(vma), k) {
      var v: nat :| Done(vma, Top(vma), v) && v / WORDS == k;
      var last := LastPage(vma, v);
      assert Walk(mem, dir, last).Some?;
      assert LastIn(vma, last) && Done(vma, Top(vma), last);
    }
  }

  lemma OnlyAreaIffEmpty(was: Words, mem: Words, dirs: set<nat>, dir: nat, vma: VmArea, k: nat)
    requires dir in dirs && forall v: nat :: InArea(vma, v) ==> Walk(was, dir, v) == None
    requires Mapped(was, mem, dirs, dir, vma, Top(vma))
    ensures OnlyAreaIn(mem, dir, vma, k) <==> EmptySlot(was, dir, k)
  {
    hide Walk;
    forall v: nat
      ensures !InArea(vma, v) ==> Walk(mem, dir, v) == Walk(was, dir, v)
    {
      assert Walk(mem, dir, v) == Walk(mem, dir, v);
    }
  }

  /** The area's last page in the slot of `v`. */
  lemma LastPage(vma: VmArea, v: nat) returns (last: nat)
    requires InArea(vma, v)
    ensures LastIn(vma, last) && last / WORDS == v / WORDS
    decreases Top(vma) - v * PAGE_SIZE
  {
    if LastIn(vma, v) {
      last := v;
    } else {
      last := LastPage(vma, v + 1);
    }
  }

  /** If no page table under the area was linked but empty, the base pages in use are those from before. */
  lemma MapThenEvictPages(was: Words, taken0: set<nat>, mem: Words, end: Words, taken: set<nat>, dirs: set<nat>,
                          dir: nat, vma: VmArea)
    requires dir in dirs && Aligned(vma) && forall v: nat :: InArea(vma, v) ==> Walk(was, dir, v) == None
    requires Mapped(was, mem, dirs, dir, vma, Top(vma)) && TablesMade(was, mem, dirs, dir, vma, Top(vma))
    requires TablesBack(mem, end, dirs, dir, vma, Top(vma))
    requires Spaces(was, taken0, dirs) && Spaces(end, taken, dirs)
    ensures taken <= taken0
    ensures (forall k: nat :: Table(was, dirs, dir, k).Some? && Reaches(vma, Top(vma), k) ==> !EmptySlot(was, dir, k))
            <==> taken == taken0
  {
    hide Walk, Reaches, EmptySlot, Mapped, TablesMade, TablesBack;
    MapThenEvictTables(was, mem, end, dirs, dir, vma);
    forall a
      ensures a in taken ==> a in taken0
      ensures a in taken0 && a !in taken ==> exists k: nat ::
                Table(was, dirs, dir, k).Some? && Reaches(vma, Top(vma), k) && EmptySlot(was, dir, k)
    {
      TablesInUse(was, taken0, dirs, a);
      TablesInUse(end, taken, dirs, a);
      if InUse(end, dirs, a) {
        var e: nat, k: nat :| Table(end, dirs, e, k) == Some(a);
        assert Table(was, dirs, e, k) == Some(a);
      } else if InUse(was, dirs, a) {
        var e: nat, k: nat :| Table(was, dirs, e, k) == Some(a);
        assert Table(end, dirs, e, k) != Some(a);
      }
    }
    forall k: nat | Table(was, dirs, dir, k).Some? && Reaches(vma, Top(vma), k) && EmptySlot(was, dir, k)
      ensures taken != taken0
    {
      var a := Table(was, dirs, dir, k).value;
      TablesInUse(was, taken0, dirs, a);
      TablesInUse(end, taken, dirs, a);
      assert Table(end, dirs, dir, k) == None;
    }
  }
}
