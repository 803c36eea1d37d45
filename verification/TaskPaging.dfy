/**
 The code of kernel/task_paging.c: mapping and evicting user pages, reclaiming page tables, and the two
 loops over a whole memory area.  Every contract speaks of the walk in all address spaces, of the page frames
 and of the base pages that hold directories and tables.
 */
module TaskPaging {
  import opened Common
  import opened PageBitmap
  import opened AddressSpace
  import opened AreaPages
  import opened ExitPaging

  const USERSPACE_BOTTOM: nat := 0x40000000
  const ALL_FRAMES: nat := 0x100000

  datatype Status = Ok | InvalidArg | OutOfMemory | NotPresent | Busy | Partial | NotFound

  ghost predicate WordsOk(mem: Words) {
    forall a, k :: a in mem && 0 <= k < |mem[a]| ==> mem[a][k] < DWORD
  }

  lemma WalkBelow(mem: Words, dir: nat, v: nat)
    requires WordsOk(mem)
    ensures Walk(mem, dir, v).Some? ==> Walk(mem, dir, v).value.frame < ALL_FRAMES
  {
  }

  /** A linked table without present entries is one whose slot is empty. */
  lemma EmptyIffAbsent(mem: Words, taken: set<nat>, dirs: set<nat>, dir: nat, i: nat)
    requires Spaces(mem, taken, dirs) && Linked(mem, dirs, dir, i)
    ensures TableOk(mem, TableAt(mem, dir, i))
    ensures EmptySlot(mem, dir, i) <==> forall k :: 0 <= k < WORDS ==> !Present(mem[TableAt(mem, dir, i)][k])
  {
    assert TableSound(mem, taken, dirs, dir, i);
    var table := TableAt(mem, dir, i);
    forall k: nat | k < WORDS
      ensures Walk(mem, dir, PageOf(i, k)) == Decode(mem[table][k]) && PageOf(i, k) / WORDS == i
    {
      PageParts(PageOf(i, k), i, k);
    }
    if EmptySlot(mem, dir, i) {
      forall k: nat | k < WORDS
        ensures !Present(mem[table][k])
      {
        assert Walk(mem, dir, PageOf(i, k)) == None;
      }
    }
  }

  class Mmu {
    const base: BasePages
    const frames: PageFrames
    var mem: Words
    /** The page directories of the tasks. */
    ghost var dirs: set<nat>
    /** The base pages that were in use before the first task: the kernel's own directory and tables. */
    ghost const kernel: set<nat>
    /** Page tables of tasks that are gone, which nobody gave back. */
    ghost var lost: set<nat>

    /** Every base page in use is the kernel's, lost, a task's directory or a table that one leads to. */
    ghost predicate Valid()
      reads this, base.bitmap.bytes
    {
      && base.Valid() && frames.Valid() && 8 * frames.bitmap.bytes.Length == ALL_FRAMES
      && base.bitmap.bytes != frames.bitmap.bytes
      && kernel !! lost && kernel + lost <= base.Taken()
      && Spaces(mem, Own(), dirs) && WordsOk(mem)
    }

    /** The base pages of the tasks. */
    ghost function Own(): set<nat>
      requires base.Valid()
      reads this, base.bitmap.bytes
    {
      base.Taken() - (kernel + lost)
    }

    constructor (base: BasePages, frames: PageFrames)
      requires base.Valid() && frames.Valid() && 8 * frames.bitmap.bytes.Length == ALL_FRAMES
      requires base.bitmap.bytes != frames.bitmap.bytes
      ensures Valid() && dirs == lost == {} && kernel == base.Taken() && this.base == base && this.frames == frames
    {
      this.base, this.frames, mem, dirs, lost, kernel := base, frames, map[], {}, {}, base.Taken();
    }

    /** All base pages are taken. */
    ghost predicate BaseFull()
      requires base.Valid()
      reads base.bitmap.bytes
    {
      forall a :: IsBasePage(a) ==> a in base.Taken()
    }

    /** A new task's page directory: a cleared base page, an address space in which nothing is mapped. */
    method NewDirectory() returns (dir: nat)
      requires Valid()
      modifies this, base, base.bitmap.bytes
      ensures Valid() && (dir == 0 <==> old(BaseFull())) && lost == old(lost)
      ensures dir == 0 ==> mem == old(mem) && dirs == old(dirs) && base.Taken() == old(base.Taken())
      ensures dir != 0 ==> dir !in old(base.Taken()) && base.Taken() == old(base.Taken()) + {dir}
      ensures dir != 0 ==> dirs == old(dirs) + {dir} && SameWalks(old(mem), mem, old(dirs))
      ensures dir != 0 ==> forall v: nat :: Walk(mem, dir, v) == None
      ensures dir != 0 ==> forall e: nat, k: nat :: Table(mem, dirs, e, k) == old(Table(mem, dirs, e, k))
    {
      dir := base.GetBasePage();
      if dir != 0 {
        NewSpace(mem, old(Own()), dirs, dir);
        assert Own() == old(Own()) + {dir};
        mem := mem[dir := CLEARED];
        dirs := dirs + {dir};
      }
    }

    /** userspace_map_page */
    method MapPage(dir: nat, virt: nat, phys: nat, write: bool, writeThrough: bool, cacheDisable: bool)
      returns (status: Status)
      requires Valid() && dir in dirs && virt < DWORD && phys < DWORD
      modifies this`mem, base, base.bitmap.bytes
      ensures Valid() && (status == Ok || status == InvalidArg || status == OutOfMemory)
      ensures status == InvalidArg <==> virt < USERSPACE_BOTTOM
      ensures status == OutOfMemory <==>
                virt >= USERSPACE_BOTTOM
                && old(Table(mem, dirs, dir, virt / PAGE_SIZE / WORDS)).None? && old(BaseFull())
      ensures status != Ok ==> mem == old(mem) && base.Taken() == old(base.Taken())
      ensures status == Ok ==>
                OnlyPage(old(mem), mem, dirs, dir, virt / PAGE_SIZE,
                         Some(Mapping(phys / PAGE_SIZE, Flags(write, true, writeThrough, cacheDisable))))
      ensures status == Ok ==> OneTableMore(old(mem), old(base.Taken()), dir, virt / PAGE_SIZE / WORDS)
    {
      hide Walk, Table, Spaces, WordsOk, OnlyTable, SameTables, Decode;
      var i, j := virt / PAGE_SIZE / WORDS, virt / PAGE_SIZE % WORDS;
      if virt < USERSPACE_BOTTOM {
        return InvalidArg;
      }
      var ok := GetTable(dir, i);
      if !ok {
        return OutOfMemory;
      }
      ghost var m := mem;
      var w := Entry(write, true, writeThrough, cacheDisable, phys);
      EntryBelow(write, writeThrough, cacheDisable, phys, w);
      PageParts(virt / PAGE_SIZE, i, j);
      WriteEntry(dir, i, j, w);
      ThenOnlyPage(old(mem), m, mem, dirs, dir, virt / PAGE_SIZE, Decode(w));
      ThenSameTables(old(mem), m, mem, dirs, dir, i);
      status := Ok;
    }

    static lemma EntryBelow(write: bool, writeThrough: bool, cacheDisable: bool, phys: nat, w: nat)
      requires phys < DWORD && w == Entry(write, true, writeThrough, cacheDisable, phys)
      ensures w < DWORD
    {
    }

    static lemma ThenOnlyPage(was: Words, m: Words, mem: Words, dirs: set<nat>, dir: nat, page: nat, f: Option<Mapping>)
      requires SameWalks(was, m, dirs) && OnlyPage(m, mem, dirs, dir, page, f)
      ensures OnlyPage(was, mem, dirs, dir, page, f)
    {
      hide Walk;
      assert forall e, v: nat :: e in dirs ==> Walk(m, e, v) == Walk(was, e, v);
    }

    static lemma ThenSameTables(was: Words, m: Words, mem: Words, dirs: set<nat>, dir: nat, i: nat)
      requires SameTables(m, mem, dirs)
      ensures Table(mem, dirs, dir, i) == Table(m, dirs, dir, i)
      ensures SameTables(was, m, dirs) ==> SameTables(was, mem, dirs)
      ensures forall t :: OnlyTable(was, m, dirs, dir, i, t) ==> OnlyTable(was, mem, dirs, dir, i, t)
    {
      hide Table;
      assert forall e: nat, k: nat :: Table(mem, dirs, e, k) == Table(m, dirs, e, k);
    }

    /** The part of userspace_map_page that finds the page table, or makes one. */
    method GetTable(dir: nat, i: nat) returns (ok: bool)
      requires Valid() && dir in dirs && i < WORDS
      modifies this`mem, base, base.bitmap.bytes
      ensures Valid() && (!ok <==> old(Table(mem, dirs, dir, i)).None? && old(BaseFull()))
      ensures !ok ==> mem == old(mem) && base.Taken() == old(base.Taken())
      ensures ok ==> OneTableMore(old(mem), old(base.Taken()), dir, i) && SameWalks(old(mem), mem, dirs)
      ensures ok ==> Linked(mem, dirs, dir, i)
    {
      hide Walk, Spaces, WordsOk;
      AllOk(mem, Own(), dirs);
      if !Present(mem[dir][i]) {
        var table := base.GetBasePage();
        if table == 0 {
          return false;
        }
        assert Own() - {table} == old(Own());
        AddTable(dir, i, table);
      }
      ok := true;
    }

    /**
     Word `i` leads to a table: the one it led to before, or else a base page that was free; no other word has
     changed.
     */
    ghost predicate OneTableMore(was: Words, taken: set<nat>, dir: nat, i: nat)
      requires base.Valid()
      reads this, base.bitmap.bytes
    {
      var t := Table(mem, dirs, dir, i);
      && t.Some?
      && if Table(was, dirs, dir, i).Some? then SameTables(was, mem, dirs) && base.Taken() == taken
         else OnlyTable(was, mem, dirs, dir, i, t) && t.value !in taken && base.Taken() == taken + {t.value}
    }

    /** A write to a page table changes one translation of one space, and links no table. */
    method WriteEntry(dir: nat, i: nat, j: nat, w: nat)
      requires Valid() && Linked(mem, dirs, dir, i) && j < WORDS && w < DWORD
      modifies this`mem
      ensures Valid() && SameTables(old(mem), mem, dirs)
      ensures OnlyPage(old(mem), mem, dirs, dir, PageOf(i, j), Decode(w))
    {
      PutInTable(mem, Own(), dirs, dir, i, j, w);
      mem := Put(mem, TableAt(mem, dir, i), j, w);
    }

    /** A fresh base page becomes the cleared page table of directory word `i`. */
    method AddTable(dir: nat, i: nat, table: nat)
      requires base.Valid() && table in Own() && dir in dirs && i < WORDS && IsBasePage(table)
      requires Spaces(mem, Own() - {table}, dirs) && WordsOk(mem) && !Present(mem[dir][i])
      modifies this`mem
      ensures Spaces(mem, Own(), dirs) && WordsOk(mem) && SameWalks(old(mem), mem, dirs)
      ensures OnlyTable(old(mem), mem, dirs, dir, i, Some(table)) && Table(mem, dirs, dir, i) == Some(table)
    {
      hide Spaces, Decode;
      var w := Entry(true, true, false, false, table);
      EntryOfTable(table, w);
      AllOk(mem, Own() - {table}, dirs);
      LinkTable(mem, Own() - {table}, dirs, dir, i, table, w);
      assert Own() - {table} + {table} == Own();
      mem := mem[table := CLEARED];
      mem := Put(mem, dir, i, w);
    }

    static lemma EntryOfTable(table: nat, w: nat)
      requires IsBasePage(table) && w == Entry(true, true, false, false, table)
      ensures Present(w) && Open(w) && Frame(w) * PAGE_SIZE == table && w < DWORD
    {
    }

    static lemma TableOwned(mem: Words, taken: set<nat>, dirs: set<nat>, dir: nat, i: nat)
      requires Spaces(mem, taken, dirs) && Linked(mem, dirs, dir, i)
      ensures TableAt(mem, dir, i) in taken
    {
      assert TableSound(mem, taken, dirs, dir, i);
    }

    static lemma AllOk(mem: Words, taken: set<nat>, dirs: set<nat>)
      requires Spaces(mem, taken, dirs)
      ensures dirs <= taken && forall d :: d in dirs ==> TableOk(mem, d)
    {
    }

    /** reclaim_page_table: the table goes exactly when none of its entries is present; no translation changes. */
    method ReclaimPageTable(dir: nat, virt: nat) returns (status: Status)
      requires Valid() && dir in dirs && virt < DWORD
      modifies this`mem, base.bitmap.bytes
      ensures Valid() && SameWalks(old(mem), mem, dirs) && (status == Ok || status == NotPresent || status == Busy)
      ensures var i := virt / PAGE_SIZE / WORDS;
              && (status == NotPresent <==> Table(old(mem), dirs, dir, i).None?)
              && (status == Ok <==> Table(old(mem), dirs, dir, i).Some? && EmptySlot(old(mem), dir, i))
              && OneTableLess(old(mem), old(base.Taken()), dir, i, status == Ok)
    {
      var i := virt / PAGE_SIZE / WORDS;
      if !Present(mem[dir][i]) {
        return NotPresent;
      }
      assert Linked(mem, dirs, dir, i);
      EmptyIffAbsent(mem, Own(), dirs, dir, i);
      var table := TableAt(mem, dir, i);
      var busy := AnyPresent(table);
      if busy {
        return Busy;
      }
      DropTable(dir, i, table);
      status := Ok;
    }

    /**
     If `gone`, word `i` leads nowhere and the base page of its table is free; no other word or base page has changed.
     */
    ghost predicate OneTableLess(was: Words, taken: set<nat>, dir: nat, i: nat, gone: bool)
      requires base.Valid()
      reads this, base.bitmap.bytes
    {
      var t := Table(was, dirs, dir, i);
      if gone then t.Some? && OnlyTable(was, mem, dirs, dir, i, None) && base.Taken() == taken - {t.value}
      else SameTables(was, mem, dirs) && base.Taken() == taken
    }

    method AnyPresent(table: nat) returns (busy: bool)
      requires TableOk(mem, table)
      ensures busy <==> exists k :: 0 <= k < WORDS && Present(mem[table][k])
    {
      var idx := 0;
      while idx < WORDS
        invariant idx <= WORDS && forall k :: 0 <= k < idx ==> !Present(mem[table][k])
      {
        if Present(mem[table][idx]) {
          return true;
        }
        idx := idx + 1;
      }
      busy := false;
    }

    method DropTable(dir: nat, i: nat, table: nat)
      requires Valid() && Linked(mem, dirs, dir, i) && table == TableAt(mem, dir, i) && TableOk(mem, table)
      requires forall k :: 0 <= k < WORDS ==> !Present(mem[table][k])
      modifies this`mem, base.bitmap.bytes
      ensures Valid() && SameWalks(old(mem), mem, dirs)
      ensures OneTableLess(old(mem), old(base.Taken()), dir, i, true)
    {
      hide Spaces;
      AllOk(mem, Own(), dirs);
      TableOwned(mem, Own(), dirs, dir, i);
      UnlinkTable(mem, Own(), dirs, dir, i);
      assert table % PAGE_SIZE == 0;
      base.FreeBasePage(table);
      assert Own() == old(Own()) - {table};
      mem := Put(mem, dir, i, 0);
    }

    /** userspace_evict_page */
    method EvictPage(dir: nat, vmas: seq<VmArea>, virt: nat, reclaim: bool) returns (status: Status)
      requires Valid() && dir in dirs && virt < DWORD
      modifies this`mem, base.bitmap.bytes, frames.bitmap.bytes
      ensures Valid() && (status == Ok || status == NotPresent)
      ensures status == Ok <==> Search(vmas, virt).Some? && Walk(old(mem), dir, virt / PAGE_SIZE).Some?
      ensures status != Ok ==> mem == old(mem)
      ensures status == Ok ==> OnlyPage(old(mem), mem, dirs, dir, virt / PAGE_SIZE, None)
      ensures var w := Walk(old(mem), dir, virt / PAGE_SIZE);
              frames.bitmap.Bits() == if status == Ok && Owns(vmas, virt)
                                      then Filled(old(frames.bitmap.Bits()), w.value.frame, 1, false)
                                      else old(frames.bitmap.Bits())
      ensures var i := virt / PAGE_SIZE / WORDS;
              OneTableLess(old(mem), old(base.Taken()), dir, i, status == Ok && reclaim && EmptySlot(mem, dir, i))
    {
      var i, j := virt / PAGE_SIZE / WORDS, virt / PAGE_SIZE % WORDS;
      var vma := Search(vmas, virt);
      if vma.None? {
        return NotPresent;
      }
      if !Present(mem[dir][i]) {
        return NotPresent;
      }
      assert Linked(mem, dirs, dir, i) && TableSound(mem, Own(), dirs, dir, i);
      var table := TableAt(mem, dir, i);
      if !Present(mem[table][j]) {
        return NotPresent;
      }
      var page := Frame(mem[table][j]);
      if !vma.value.exact {
        frames.FreePages(page, 1);
      }
      ClearPage(dir, virt, reclaim);
      status := Ok;
    }

    /** The end of userspace_evict_page, when the page is present. */
    method ClearPage(dir: nat, virt: nat, reclaim: bool)
      requires Valid() && dir in dirs && virt < DWORD && Linked(mem, dirs, dir, virt / PAGE_SIZE / WORDS)
      modifies this`mem, base.bitmap.bytes
      ensures Valid() && OnlyPage(old(mem), mem, dirs, dir, virt / PAGE_SIZE, None)
      ensures var i := virt / PAGE_SIZE / WORDS;
              OneTableLess(old(mem), old(base.Taken()), dir, i, reclaim && EmptySlot(mem, dir, i))
    {
      hide Spaces, WordsOk, Walk;
      var i, j := virt / PAGE_SIZE / WORDS, virt / PAGE_SIZE % WORDS;
      PageParts(virt / PAGE_SIZE, i, j);
      WriteEntry(dir, i, j, 0);
      ghost var m := mem;
      if reclaim {
        assert Table(m, dirs, dir, i).Some?;
        var _ := ReclaimPageTable(dir, virt);
        SameSlots(m, mem, dirs, dir, i);
      }
    }

    static lemma SameSlots(was: Words, mem: Words, dirs: set<nat>, dir: nat, i: nat)
      requires SameWalks(was, mem, dirs) && dir in dirs
      ensures EmptySlot(was, dir, i) <==> EmptySlot(mem, dir, i)
    {
      hide Walk;
      assert forall v: nat :: Walk(mem, dir, v) == Walk(was, dir, v);
    }

    /**
     userspace_evict_vma: unmaps the area, gives back its frames, and gives back the base pages of the tables it alone
     used, if the area's last page in them was mapped.
     */
    method EvictVma(dir: nat, vmas: seq<VmArea>, vma: VmArea) returns (status: Status)
      requires Valid() && dir in dirs && Aligned(vma)
      modifies this`mem, base.bitmap.bytes, frames.bitmap.bytes
      ensures Valid()
      ensures status == if vma !in vmas then NotFound else if vma.kernel then InvalidArg else Ok
      ensures status != Ok ==> mem == old(mem) && base.Taken() == old(base.Taken())
      ensures status != Ok ==> frames.bitmap.Bits() == old(frames.bitmap.Bits())
      ensures status == Ok ==> AreaEvicted(old(mem), old(base.Taken()), old(frames.bitmap.Bits()), dir, vmas, vma)
    {
      if vma !in vmas {
        return NotFound;
      }
      if vma.kernel {
        return InvalidArg;
      }
      EvictPages(dir, vmas, vma);
      status := Ok;
    }

    /** Exactly the pages of the area are unmapped, their own frames free, and the swept tables unlinked and free. */
    ghost predicate AreaEvicted(was: Words, taken: set<nat>, bits: seq<bool>, dir: nat, vmas: seq<VmArea>, vma: VmArea)
      requires base.Valid()
      reads this, base.bitmap.bytes, frames.bitmap.bytes
    {
      && Evicted(was, mem, dirs, dir, vma, Top(vma))
      && FramesBack(bits, frames.bitmap.Bits(), was, dir, vmas, vma, Top(vma))
      && TablesBack(was, mem, dirs, dir, vma, Top(vma))
      && base.Taken() == taken - SweptPages(was, dirs, dir, vma, Top(vma))
    }

    method EvictPages(dir: nat, vmas: seq<VmArea>, vma: VmArea)
      requires Valid() && dir in dirs && Aligned(vma) && vma in vmas
      modifies this`mem, base.bitmap.bytes, frames.bitmap.bytes
      ensures Valid() && AreaEvicted(old(mem), old(base.Taken()), old(frames.bitmap.Bits()), dir, vmas, vma)
    {
      hide Walk, Table, Evicted, FramesBack, TablesBack, Spaces, WordsOk, Owns, OnlyPage, OnlyTable, SameTables,
           LastIn, EmptySlot, SweptPages, BitsOf;
      ghost var bits := frames.bitmap.Bits();
      var addr := vma.virt;
      NothingEvicted(mem, dirs, dir, vmas, vma, bits);
      while addr < vma.virt + vma.length
        invariant Valid() && vma.virt <= addr && addr % PAGE_SIZE == 0
        invariant Evicted(old(mem), mem, dirs, dir, vma, addr) && TablesBack(old(mem), mem, dirs, dir, vma, addr)
        invariant FramesBack(bits, frames.bitmap.Bits(), old(mem), dir, vmas, vma, addr)
        decreases Top(vma) - addr
      {
        ghost var m0, b0 := mem, frames.bitmap.Bits();
        var currentDirectory := addr / PAGE_SIZE / WORDS % WORDS;
        var nextDirectory := (addr + PAGE_SIZE) % DWORD / PAGE_SIZE / WORDS % WORDS;
        var reclaim := addr + PAGE_SIZE >= vma.virt + vma.length || currentDirectory != nextDirectory;
        WhenLast(vma, addr, currentDirectory, nextDirectory);
        Found(vmas, vma, addr);
        WalkBelow(mem, dir, addr / PAGE_SIZE);
        var _ := EvictPage(dir, vmas, addr, reclaim);
        EvictStep(old(mem), m0, mem, dirs, dir, vma, addr);
        FramesStep(bits, b0, frames.bitmap.Bits(), old(mem), dir, vmas, vma, addr);
        TablesStep(old(mem), m0, mem, dirs, dir, vma, addr, reclaim);
        addr := addr + PAGE_SIZE;
      }
      AllEvicted(old(mem), mem, dirs, dir, vmas, vma, bits, frames.bitmap.Bits(), addr);
      SweptPagesBack(old(mem), old(Own()), mem, Own(), dirs, dir, vma, Top(vma));
      assert base.Taken() == Own() + (kernel + lost);
    }

    /**
     userspace_map_vm_area: the pages below `end` are mapped to fresh frames (or, exact, where the area wants them),
     with their tables in fresh base pages; nothing else has changed, and an unfinished call has a reason and keeps no
     frame or base page for the page it stopped at.
     */
    method MapVmArea(dir: nat, vmas: seq<VmArea>, vma: VmArea) returns (status: Status, ghost end: nat)
      requires Valid() && dir in dirs && Aligned(vma)
      modifies this`mem, base, base.bitmap.bytes, frames`cursor, frames.bitmap.bytes
      ensures Valid()
      ensures status == InvalidArg <==> vma !in vmas
      ensures status == InvalidArg ==> mem == old(mem) && end == vma.virt
      ensures status != InvalidArg ==> vma.virt <= end
      ensures status != InvalidArg ==>
                status == if end >= Top(vma) then Ok else if end > vma.virt then Partial else OutOfMemory
      ensures AreaMapped(old(mem), old(base.Taken()), old(frames.bitmap.Bits()), dir, vma, end)
      ensures status == Partial || status == OutOfMemory ==>
                || end < USERSPACE_BOTTOM
                || (!vma.exact && forall p: nat :: !FreeIn(frames.bitmap.Bits(), frames.start, frames.boundary, p))
                || (Table(mem, dirs, dir, end / PAGE_SIZE / WORDS).None? && BaseFull())
    {
      hide Walk, Table, Mapped, Granted, TablesMade, Spaces, WordsOk, OnlyPage, OnlyTable, SameTables, BitsOf, Filled,
           Below, NewPages, OneTableMore, AsAsked;
      ghost var bits := frames.bitmap.Bits();
      end := vma.virt;
      NothingMapped(mem, dirs, dir, vma, bits);
      Account(old(mem), old(Own()), dir, vma, end);
      if vma !in vmas {
        status := InvalidArg;
        return;
      }
      var addr, mapped := vma.virt, false;
      while addr < vma.virt + vma.length
        invariant Valid() && vma.virt <= addr == end && addr % PAGE_SIZE == 0 && mapped == (addr > vma.virt)
        invariant AreaMapped(old(mem), old(base.Taken()), bits, dir, vma, end)
        decreases Top(vma) - addr
      {
        ghost var m0, t0, b0 := mem, base.Taken(), frames.bitmap.Bits();
        ghost var f;
        var ok;
        ok, f := MapOne(dir, vma, addr);
        if !ok {
          status := if mapped then Partial else OutOfMemory;
          return;
        }
        MapStep(old(mem), m0, mem, dirs, dir, vma, addr, f);
        GrantStep(bits, b0, frames.bitmap.Bits(), m0, mem, dirs, dir, vma, addr, f);
        MadeStep(old(mem), m0, t0, dir, vma, addr);
        addr, mapped := addr + PAGE_SIZE, true;
        end := addr;
        Account(old(mem), old(Own()), dir, vma, end);
      }
      status := Ok;
    }

    /** One turn of its loop: the page at `addr` is mapped to frame `f`, or nothing has changed, for a reason. */
    method MapOne(dir: nat, vma: VmArea, addr: nat) returns (ok: bool, ghost f: nat)
      requires Valid() && dir in dirs && Aligned(vma) && Covers(vma, addr)
      modifies this`mem, base, base.bitmap.bytes, frames`cursor, frames.bitmap.bytes
      ensures Valid()
      ensures ok ==> OnlyPage(old(mem), mem, dirs, dir, addr / PAGE_SIZE, Some(Mapping(f, AreaFlags(vma))))
      ensures ok ==> OneTableMore(old(mem), old(base.Taken()), dir, addr / PAGE_SIZE / WORDS)
      ensures ok ==> var b0, bits := old(frames.bitmap.Bits()), frames.bitmap.Bits();
                     if vma.exact then bits == b0 && f == (vma.phys + addr - vma.virt) % DWORD / PAGE_SIZE
                     else f < |b0| && !b0[f] && bits == b0[f := true]
      ensures !ok ==> mem == old(mem) && base.Taken() == old(base.Taken())
                      && frames.bitmap.Bits() == old(frames.bitmap.Bits())
      ensures !ok ==>
                || addr < USERSPACE_BOTTOM
                || (!vma.exact && forall p: nat :: !FreeIn(frames.bitmap.Bits(), frames.start, frames.boundary, p))
                || (Table(mem, dirs, dir, addr / PAGE_SIZE / WORDS).None? && BaseFull())
    {
      hide Walk, Table, Spaces, WordsOk, OnlyPage, OnlyTable, SameTables, BitsOf, Below, OneTableMore;
      var phys;
      if vma.exact {
        phys := (vma.phys + addr - vma.virt) % DWORD;
      } else {
        var page := frames.GetPage();
        phys := page * PAGE_SIZE;
        if phys == 0 {
          return false, 0;
        }
      }
      f := phys / PAGE_SIZE;
      var rc := MapPage(dir, addr, phys, vma.write, vma.writeThrough, vma.cacheDisable);
      ok := rc == Ok;
      if !ok && !vma.exact {
        frames.FreePages(phys / PAGE_SIZE, 1);
        assert frames.bitmap.Bits() == old(frames.bitmap.Bits());
      }
    }

    /** Exactly the pages below `end` are mapped, as the area asks, in frames and in base pages that were free. */
    ghost predicate AreaMapped(was: Words, taken: set<nat>, bits: seq<bool>, dir: nat, vma: VmArea, end: nat)
      requires base.Valid()
      reads this, base.bitmap.bytes, frames.bitmap.bytes
    {
      && Mapped(was, mem, dirs, dir, vma, end) && AsAsked(mem, dir, vma, end)
      && Granted(bits, frames.bitmap.Bits(), mem, dir, vma, end)
      && TablesMade(was, mem, dirs, dir, vma, end)
      && base.Taken() == taken + NewPages(was, mem, dirs, dir) && taken !! NewPages(was, mem, dirs, dir)
    }

    lemma MadeStep(was: Words, m0: Words, taken: set<nat>, dir: nat, vma: VmArea, addr: nat)
      requires base.Valid() && OneTableMore(m0, taken, dir, addr / PAGE_SIZE / WORDS)
      requires addr % PAGE_SIZE == 0 && dir in dirs && Covers(vma, addr) && TablesMade(was, m0, dirs, dir, vma, addr)
      ensures TablesMade(was, mem, dirs, dir, vma, addr + PAGE_SIZE)
    {
      hide TablesMade, Table, OnlyTable, SameTables;
      TablesMadeStep(was, m0, mem, dirs, dir, vma, addr);
    }

    lemma Account(was: Words, own: set<nat>, dir: nat, vma: VmArea, end: nat)
      requires Valid() && Spaces(was, own, dirs) && dir in dirs && TablesMade(was, mem, dirs, dir, vma, end)
      requires own !! kernel + lost
      ensures base.Taken() == own + (kernel + lost) + NewPages(was, mem, dirs, dir)
      ensures own + (kernel + lost) !! NewPages(was, mem, dirs, dir)
    {
      hide Table, Spaces, NewPages, Reaches;
      NewPagesTaken(was, own, mem, Own(), dirs, dir);
      assert base.Taken() == Own() + (kernel + lost);
    }

    // ---------------------------------------------------------------- the end of a task

    /**
     The paging part of reclaim_task: all areas but the kernel's are evicted and the directory is given back.  Tables
     that no area gave back are lost: their base pages stay in use, and no directory leads to them.
     */
    method ReclaimSpace(dir: nat, vmas: seq<VmArea>)
      requires Valid() && dir in dirs && forall vma :: vma in vmas ==> Aligned(vma)
      modifies this, base.bitmap.bytes, frames.bitmap.bytes
      ensures Valid() && dirs == old(dirs) - {dir} && SameWalks(old(mem), mem, dirs) && SameTables(old(mem), mem, dirs)
      ensures FramesBackAll(old(frames.bitmap.Bits()), frames.bitmap.Bits(), old(mem), dir, vmas, |vmas|)
      ensures lost == old(lost) + LeftPages(old(mem), old(dirs), dir, vmas)
      ensures old(lost) !! LeftPages(old(mem), old(dirs), dir, vmas)
      ensures base.Taken() == old(base.Taken()) - {dir}
                              - (TablesOf(old(mem), old(dirs), dir) - LeftPages(old(mem), old(dirs), dir, vmas))
    {
      hide Walk, Table, EvictedAll, TablesBackAll, FramesBackAll, Spaces, WordsOk, LeftPages, TablesOf, Cleared, BitsOf,
           Aligned, SameWalks, SameTables;
      EvictAreas(dir, vmas);
      LeftAreLinked(old(mem), mem, dirs, dir, vmas);
      PagesAfterAll(old(mem), old(Own()), mem, Own(), dirs, dir, vmas);
      OthersKept(old(mem), mem, dirs, dir, vmas);
      assert base.Taken() == Own() + (kernel + lost);
      DropDirectory(dir);
    }

    /** The loop of reclaim_task over the areas. */
    method EvictAreas(dir: nat, vmas: seq<VmArea>)
      requires Valid() && dir in dirs && forall vma :: vma in vmas ==> Aligned(vma)
      modifies this`mem, base.bitmap.bytes, frames.bitmap.bytes
      ensures Valid() && EvictedAll(old(mem), mem, dirs, dir, vmas, |vmas|)
      ensures TablesBackAll(old(mem), mem, dirs, dir, vmas, |vmas|)
      ensures FramesBackAll(old(frames.bitmap.Bits()), frames.bitmap.Bits(), old(mem), dir, vmas, |vmas|)
    {
      hide Walk, Table, EvictedAll, TablesBackAll, FramesBackAll, Evicted, TablesBack, FramesBack, Spaces, WordsOk,
           SweptPages, BitsOf, Aligned;
      ghost var bits := frames.bitmap.Bits();
      NoAreaYet(mem, dirs, dir, vmas, bits);
      for j := 0 to |vmas|
        invariant Valid() && EvictedAll(old(mem), mem, dirs, dir, vmas, j)
        invariant TablesBackAll(old(mem), mem, dirs, dir, vmas, j)
        invariant FramesBackAll(bits, frames.bitmap.Bits(), old(mem), dir, vmas, j)
      {
        ghost var m0, b0 := mem, frames.bitmap.Bits();
        if !vmas[j].kernel {
          var _ := EvictVma(dir, vmas, vmas[j]);
          EvictAreaStep(old(mem), m0, mem, dirs, dir, vmas, j);
          FramesAreaStep(bits, b0, frames.bitmap.Bits(), old(mem), m0, dirs, dir, vmas, j);
          TablesAreaStep(old(mem), m0, mem, dirs, dir, vmas, j);
        } else {
          KernelAreaSkipped(old(mem), mem, dirs, dir, vmas, j, bits, frames.bitmap.Bits());
        }
      }
    }

    /** The end of the paging part of reclaim_task: the directory's base page is given back, whatever it leads to. */
    method DropDirectory(dir: nat)
      requires Valid() && dir in dirs
      modifies this`dirs, this`lost, base.bitmap.bytes
      ensures Valid() && dirs == old(dirs) - {dir} && base.Taken() == old(base.Taken()) - {dir}
      ensures lost == old(lost) + TablesOf(mem, old(dirs), dir) && old(lost) !! TablesOf(mem, old(dirs), dir)
    {
      hide Spaces, WordsOk, TablesOf;
      DropSpace(mem, Own(), dirs, dir);
      AllOk(mem, Own(), dirs);
      assert dir in Own() && dir % PAGE_SIZE == 0;
      lost := lost + TablesOf(mem, dirs, dir);
      base.FreeBasePage(dir);
      dirs := dirs - {dir};
      assert Own() == old(Own()) - {dir} - TablesOf(mem, old(dirs), dir);
    }
  }

  /**
   A task that has touched only the first page of a two-page area: evicting the area empties its page table but leaves
   it linked, and dropping the directory then loses it.  Only the lack of two free base pages prevents this run.
   */
  method LazyAreaLosesTable(mmu: Mmu) returns (shown: bool, ghost table: nat)
    requires mmu.Valid()
    modifies mmu, mmu.base, mmu.base.bitmap.bytes, mmu.frames.bitmap.bytes
    ensures mmu.Valid() && (!shown ==> AtMostOneFree(old(mmu.base.Taken())))
    ensures shown ==> mmu.dirs == old(mmu.dirs) && SameWalks(old(mmu.mem), mmu.mem, mmu.dirs)
    ensures shown ==> table !in old(mmu.base.Taken()) && mmu.lost == old(mmu.lost) + {table}
    ensures shown ==> mmu.base.Taken() == old(mmu.base.Taken()) + {table}
  {
    hide Walk, Table, Spaces, WordsOk, SweptPages, TablesOf, Evicted, TablesBack, FramesBack;
    var dir;
    dir, table := TouchFirstPage(mmu);
    shown := dir != 0;
    if shown {
      ghost var was := mmu.mem;
      var _ := mmu.EvictVma(dir, [LAZY_AREA], LAZY_AREA);
      TableCanStay(was, mmu.mem, mmu.dirs, dir);
      SpacesKept(old(mmu.mem), was, mmu.mem, old(mmu.dirs), dir);
      mmu.DropDirectory(dir);
    }
  }

  ghost predicate AtMostOneFree(taken: set<nat>) {
    forall a, b :: IsBasePage(a) && IsBasePage(b) && a !in taken && b !in taken ==> a == b
  }

  lemma SpacesKept(was: Words, touched: Words, mem: Words, dirs: set<nat>, dir: nat)
    requires dir !in dirs && SameWalks(was, touched, dirs)
    requires Evicted(touched, mem, dirs + {dir}, dir, LAZY_AREA, Top(LAZY_AREA))
    ensures SameWalks(was, mem, dirs)
  {
    hide Walk;
    forall e, v: nat | e in dirs
      ensures Walk(mem, e, v) == Walk(was, e, v)
    {
      assert Walk(touched, e, v) == Walk(touched, e, v);
    }
  }

  /** A new task whose first page of user space is mapped, and nothing else. */
  method TouchFirstPage(mmu: Mmu) returns (dir: nat, ghost table: nat)
    requires mmu.Valid()
    modifies mmu, mmu.base, mmu.base.bitmap.bytes
    ensures mmu.Valid() && mmu.lost == old(mmu.lost) && (dir == 0 ==> AtMostOneFree(old(mmu.base.Taken())))
    ensures dir != 0 ==> dir !in old(mmu.base.Taken()) + old(mmu.dirs) && mmu.dirs == old(mmu.dirs) + {dir}
    ensures dir != 0 ==> SameWalks(old(mmu.mem), mmu.mem, old(mmu.dirs))
    ensures dir != 0 ==> forall v: nat :: Walk(mmu.mem, dir, v).Some? <==> v == 0x40000
    ensures dir != 0 ==> forall k: nat :: Table(mmu.mem, mmu.dirs, dir, k) == if k == 256 then Some(table) else None
    ensures dir != 0 ==> table != dir && table !in old(mmu.base.Taken())
    ensures dir != 0 ==> mmu.base.Taken() == old(mmu.base.Taken()) + {dir, table}
  {
    hide Spaces, WordsOk, Walk, Table, SameTables, SameWalks, AtMostOneFree, IsBasePage;
    table := 0;
    dir := mmu.NewDirectory();
    if dir == 0 {
      FewFree(old(mmu.base.Taken()), old(mmu.base.Taken()), 0);
    } else {
      Mmu.AllOk(old(mmu.mem), old(mmu.Own()), old(mmu.dirs));
      OnlyKnown(old(mmu.mem), old(mmu.Own()), old(mmu.dirs), dir);
      ghost var m := mmu.mem;
      var ok;
      ok, table := MapFirstPage(mmu, dir, old(mmu.dirs));
      if !ok {
        FewFree(mmu.base.Taken(), old(mmu.base.Taken()), dir);
        return 0, 0;
      }
      ThenSameWalks(old(mmu.mem), m, mmu.mem, old(mmu.dirs));
    }
  }

  method MapFirstPage(mmu: Mmu, dir: nat, ghost others: set<nat>) returns (ok: bool, ghost table: nat)
    requires mmu.Valid() && dir !in others && mmu.dirs == others + {dir}
    requires forall v: nat :: Walk(mmu.mem, dir, v) == None
    requires forall k: nat :: Table(mmu.mem, mmu.dirs, dir, k).None?
    modifies mmu`mem, mmu.base, mmu.base.bitmap.bytes
    ensures mmu.Valid() && (!ok ==> mmu.BaseFull() && mmu.base.Taken() == old(mmu.base.Taken()))
    ensures ok ==> SameWalks(old(mmu.mem), mmu.mem, others)
    ensures ok ==> forall v: nat :: Walk(mmu.mem, dir, v).Some? <==> v == 0x40000
    ensures ok ==> forall k: nat :: Table(mmu.mem, mmu.dirs, dir, k) == if k == 256 then Some(table) else None
    ensures ok ==> table !in old(mmu.base.Taken()) && mmu.base.Taken() == old(mmu.base.Taken()) + {table}
  {
    hide Spaces, WordsOk, Walk, Table, OnlyPage, OnlyTable, SameTables, SameWalks, IsBasePage, Flags;
    table := 0;
    ghost var m := mmu.mem;
    var rc := mmu.MapPage(dir, 0x40000000, 0x9000000, true, false, false);
    ok := rc == Ok;
    if ok {
      table := Table(mmu.mem, mmu.dirs, dir, 256).value;
      FirstTouched(m, mmu.mem, others, dir);
    }
  }

  lemma ThenSameWalks(was: Words, m: Words, mem: Words, dirs: set<nat>)
    requires SameWalks(was, m, dirs) && SameWalks(m, mem, dirs)
    ensures SameWalks(was, mem, dirs)
  {
    hide Walk;
    assert forall e, v: nat :: e in dirs ==> Walk(m, e, v) == Walk(was, e, v);
  }

  lemma FewFree(full: set<nat>, taken: set<nat>, dir: nat)
    requires (forall a :: IsBasePage(a) ==> a in full) && full <= taken + {dir}
    ensures AtMostOneFree(taken)
  {
  }

  lemma FirstTouched(m: Words, mem: Words, dirs: set<nat>, dir: nat)
    requires dir !in dirs && forall v: nat :: Walk(m, dir, v) == None
    requires OnlyPage(m, mem, dirs + {dir}, dir, 0x40000, Some(Mapping(0x9000, Flags(true, true, false, false))))
    requires forall k: nat :: Table(m, dirs + {dir}, dir, k).None?
    requires OnlyTable(m, mem, dirs + {dir}, dir, 256, Table(mem, dirs + {dir}, dir, 256))
    ensures SameWalks(m, mem, dirs)
    ensures forall v: nat :: Walk(mem, dir, v).Some? <==> v == 0x40000
    ensures forall k: nat :: k != 256 ==> Table(mem, dirs + {dir}, dir, k).None?
  {
    hide Walk, Table;
    forall v: nat
      ensures Walk(mem, dir, v).Some? <==> v == 0x40000
    {
      assert Walk(mem, dir, v) == Walk(mem, dir, v);
    }
  }

  lemma OnlyKnown(mem: Words, taken: set<nat>, dirs: set<nat>, d: nat)
    requires Spaces(mem, taken, dirs) && d !in dirs
    ensures forall k: nat :: Table(mem, dirs, d, k).None?
  {
  }
}
