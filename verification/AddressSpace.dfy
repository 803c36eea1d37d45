/**
 Two-level page tables (section 4.3 of volume 3A of the Intel SDM, 32-bit paging) as a flat map.

 A memory maps the address of each base page to its 1024 words.  A page directory is a base page; each
 present word of it leads to a page table, another base page.  `Walk` is what the hardware does; the
 lemmas say how single writes change it, for all address spaces at once.
 */
module AddressSpace {
  import opened Common
  import opened PageBitmap

  const WORDS: nat := 1024
  const DWORD: nat := 0x1_0000_0000

  type Words = map<nat, seq<nat>>

  /** What a page is mapped to, and the flags of its entry that the kernel sets. */
  datatype Mapping = Mapping(frame: nat, flags: nat)

  // ---------------------------------------------------------------- entries

  predicate Present(w: nat) {
    w % 2 == 1
  }

  function Frame(w: nat): nat {
    w / PAGE_SIZE
  }

  function Flag(b: bool): nat {
    if b then 1 else 0
  }

  const FLAGS: nat := 32

  /** The frame and the five low bits; the accessed and dirty bits above them belong to the processor. */
  function Decode(w: nat): Option<Mapping> {
    if Present(w) then Some(Mapping(Frame(w), w % FLAGS)) else None
  }

  /** Present, writable and open to user mode. */
  predicate Open(w: nat) {
    w % 8 == 7
  }

  function Flags(write: bool, user: bool, writeThrough: bool, cacheDisable: bool): (r: nat)
    ensures r < FLAGS && Present(r) && (write && user ==> Open(r))
  {
    1 + 2 * (Flag(write) + 2 * Flag(user) + 4 * Flag(writeThrough) + 8 * Flag(cacheDisable))
  }

  /** The layout of the low bits: present, writable, user, write-through, cache disabled. */
  lemma FlagBits(write: bool, user: bool, writeThrough: bool, cacheDisable: bool)
    ensures var f := Flags(write, user, writeThrough, cacheDisable);
            && f % 2 == 1 && (f / 2 % 2 == 1 <==> write) && (f / 4 % 2 == 1 <==> user)
            && (f / 8 % 2 == 1 <==> writeThrough) && (f / 16 % 2 == 1 <==> cacheDisable)
  {
  }

  /** create_pte32 and create_pde32: bit 0 is the present bit, the frame is in the upper 20 bits. */
  function Entry(write: bool, user: bool, writeThrough: bool, cacheDisable: bool, addr: nat): (w: nat)
    ensures Decode(w) == Some(Mapping(addr / PAGE_SIZE, Flags(write, user, writeThrough, cacheDisable)))
    ensures write && user ==> Open(w)
  {
    var flags := Flags(write, user, writeThrough, cacheDisable);
    WordParts(flags, addr / PAGE_SIZE);
    flags + PAGE_SIZE * (addr / PAGE_SIZE)
  }

  lemma WordParts(flags: nat, frame: nat)
    requires flags < FLAGS && Present(flags)
    ensures var w := flags + PAGE_SIZE * frame; Decode(w) == Some(Mapping(frame, flags)) && (Open(flags) ==> Open(w))
  {
    var w := flags + PAGE_SIZE * frame;
    assert w / PAGE_SIZE == frame;
    RestOf(128 * frame, FLAGS, flags);
    RestOf(512 * frame + flags / 8, 8, flags % 8);
    RestOf(2048 * frame + flags / 2, 2, flags % 2);
  }

  // ---------------------------------------------------------------- the walk

  predicate TableOk(mem: Words, a: nat) {
    a in mem && |mem[a]| == WORDS
  }

  function TableAt(mem: Words, dir: nat, i: nat): nat
    requires TableOk(mem, dir) && i < WORDS
  {
    Frame(mem[dir][i]) * PAGE_SIZE
  }

  /** virt2phy: the frame that virtual page `v` is mapped to in the directory at `dir`, with its flags. */
  function Walk(mem: Words, dir: nat, v: nat): Option<Mapping> {
    if v / WORDS < WORDS && TableOk(mem, dir) && Present(mem[dir][v / WORDS])
       && TableOk(mem, TableAt(mem, dir, v / WORDS))
    then Decode(mem[TableAt(mem, dir, v / WORDS)][v % WORDS])
    else None
  }

  /** Word `i` of directory `d` leads to a page table. */
  predicate Linked(mem: Words, dirs: set<nat>, d: nat, i: nat) {
    d in dirs && i < WORDS && TableOk(mem, d) && Present(mem[d][i])
  }

  /** The page table that word `i` of directory `d` leads to. */
  function Table(mem: Words, dirs: set<nat>, d: nat, i: nat): Option<nat> {
    if Linked(mem, dirs, d, i) then Some(TableAt(mem, d, i)) else None
  }

  /** The base page `a` is a page table of some directory. */
  ghost predicate InUse(mem: Words, dirs: set<nat>, a: nat) {
    exists d: nat, i: nat {:trigger Table(mem, dirs, d, i)} :: Table(mem, dirs, d, i) == Some(a)
  }

  /**
   The directories `dirs` are well formed: the allocated base pages are exactly the directories and the tables they
   lead to, no table is a directory, tables are open to writes from user mode, and no two directory words, of the same
   or of different directories, lead to the same table.
   */
  ghost predicate Spaces(mem: Words, taken: set<nat>, dirs: set<nat>) {
    && (forall a :: a in taken ==> TableOk(mem, a))
    && dirs <= taken
    && (forall d: nat, i: nat {:trigger TableSound(mem, taken, dirs, d, i)} :: TableSound(mem, taken, dirs, d, i))
    && (forall d: nat, i: nat, e: nat, j: nat {:trigger Table(mem, dirs, d, i), Table(mem, dirs, e, j)} ::
          Table(mem, dirs, d, i).Some? && (d != e || i != j) ==> Table(mem, dirs, d, i) != Table(mem, dirs, e, j))
    && (forall a :: a in taken && a !in dirs ==> InUse(mem, dirs, a))
  }

  predicate TableSound(mem: Words, taken: set<nat>, dirs: set<nat>, d: nat, i: nat) {
    Linked(mem, dirs, d, i) ==> TableAt(mem, d, i) in taken && TableAt(mem, d, i) !in dirs && Open(mem[d][i])
  }

  // ---------------------------------------------------------------- single writes

  const CLEARED: seq<nat> := seq<nat>(WORDS, _ => 0)

  function Put(mem: Words, a: nat, k: nat, w: nat): Words
    requires TableOk(mem, a) && k < WORDS
  {
    var words: seq<nat> := mem[a][k := w];
    mem[a := words]
  }

  function PageOf(i: nat, j: nat): nat {
    i * WORDS + j
  }

  lemma PageParts(v: nat, i: nat, j: nat)
    requires j < WORDS
    ensures v / WORDS == i && v % WORDS == j <==> v == PageOf(i, j)
  {
  }

  /** Directory word `i` of `dir` leads to `t` now; no other directory word of any space leads elsewhere than before. */
  ghost predicate OnlyTable(was: Words, mem: Words, dirs: set<nat>, dir: nat, i: nat, t: Option<nat>) {
    forall e: nat, k: nat {:trigger Table(mem, dirs, e, k)} ::
      Table(mem, dirs, e, k) == if e == dir && k == i then t else Table(was, dirs, e, k)
  }

  ghost predicate SameTables(was: Words, mem: Words, dirs: set<nat>) {
    forall e: nat, k: nat {:trigger Table(mem, dirs, e, k)} :: Table(mem, dirs, e, k) == Table(was, dirs, e, k)
  }

  /** Page `v` of the space of `dir` is mapped to `f` now; nothing else has changed in any space. */
  ghost predicate OnlyPage(was: Words, mem: Words, dirs: set<nat>, dir: nat, page: nat, f: Option<Mapping>) {
    forall e, v: nat {:trigger Walk(mem, e, v)} :: e in dirs ==>
      Walk(mem, e, v) == if e == dir && v == page then f else Walk(was, e, v)
  }

  ghost predicate SameWalks(was: Words, mem: Words, dirs: set<nat>) {
    forall e, v: nat {:trigger Walk(mem, e, v)} :: e in dirs ==> Walk(mem, e, v) == Walk(was, e, v)
  }

  /** The tables are those of a well-formed memory, so all base pages are in use. */
  lemma UseFollowsTables(was: Words, mem: Words, dirs: set<nat>, a: nat)
    requires InUse(was, dirs, a)
    requires forall d: nat, i: nat :: Table(was, dirs, d, i) == Some(a) ==> Table(mem, dirs, d, i) == Some(a)
    ensures InUse(mem, dirs, a)
  {
  }

  /** Writing a word of a page table changes the translation of exactly one page of exactly one space. */
  lemma PutInTable(mem: Words, taken: set<nat>, dirs: set<nat>, d: nat, i: nat, j: nat, w: nat)
    requires Spaces(mem, taken, dirs) && Linked(mem, dirs, d, i) && j < WORDS
    ensures TableOk(mem, TableAt(mem, d, i))
    ensures var m := Put(mem, TableAt(mem, d, i), j, w);
            && Spaces(m, taken, dirs) && SameTables(mem, m, dirs) && OnlyPage(mem, m, dirs, d, PageOf(i, j), Decode(w))
  {
    assert Table(mem, dirs, d, i) == Some(TableAt(mem, d, i)) && TableSound(mem, taken, dirs, d, i);
    var t := TableAt(mem, d, i);
    var m := Put(mem, t, j, w);
    forall e: nat, k: nat
      ensures Table(m, dirs, e, k) == Table(mem, dirs, e, k) && TableSound(m, taken, dirs, e, k)
    {
      assert TableSound(mem, taken, dirs, e, k);
    }
    forall a | a in taken && a !in dirs
      ensures InUse(m, dirs, a)
    {
      UseFollowsTables(mem, m, dirs, a);
    }
    PutWalks(mem, taken, dirs, d, i, j, w);
  }

  lemma PutWalks(mem: Words, taken: set<nat>, dirs: set<nat>, d: nat, i: nat, j: nat, w: nat)
    requires Spaces(mem, taken, dirs) && Linked(mem, dirs, d, i) && j < WORDS && TableOk(mem, TableAt(mem, d, i))
    ensures OnlyPage(mem, Put(mem, TableAt(mem, d, i), j, w), dirs, d, PageOf(i, j), Decode(w))
  {
    hide InUse;
    var t := TableAt(mem, d, i);
    var m := Put(mem, t, j, w);
    assert Table(mem, dirs, d, i) == Some(t) && TableSound(mem, taken, dirs, d, i);
    forall e, v: nat | e in dirs
      ensures Walk(m, e, v) == if e == d && v == PageOf(i, j) then Decode(w) else Walk(mem, e, v)
    {
      PageParts(v, i, j);
      assert TableSound(mem, taken, dirs, e, v / WORDS);
      assert Table(mem, dirs, e, v / WORDS).Some? || Table(mem, dirs, e, v / WORDS).None?;
    }
  }

  /** Linking a fresh, cleared base page into an absent directory word changes no translation. */
  lemma LinkTable(mem: Words, taken: set<nat>, dirs: set<nat>, d: nat, i: nat, t: nat, w: nat)
    requires Spaces(mem, taken, dirs) && d in dirs && i < WORDS && !Present(mem[d][i])
    requires t !in taken && Open(w) && Present(w) && Frame(w) * PAGE_SIZE == t
    ensures var m := Put(mem[t := CLEARED], d, i, w);
            Spaces(m, taken + {t}, dirs) && OnlyTable(mem, m, dirs, d, i, Some(t)) && SameWalks(mem, m, dirs)
  {
    var m := Put(mem[t := CLEARED], d, i, w);
    forall e: nat, k: nat
      ensures Table(m, dirs, e, k) == if e == d && k == i then Some(t) else Table(mem, dirs, e, k)
      ensures TableSound(m, taken + {t}, dirs, e, k) && Table(mem, dirs, e, k) != Some(t)
    {
      assert TableSound(mem, taken, dirs, e, k);
      assert Table(mem, dirs, e, k) != Some(t);
    }
    forall a | a in taken + {t} && a !in dirs
      ensures InUse(m, dirs, a)
    {
      if a == t {
        assert Table(m, dirs, d, i) == Some(a);
      } else {
        UseFollowsTables(mem, m, dirs, a);
      }
    }
    LinkWalks(mem, taken, dirs, d, i, t, w);
  }

  lemma LinkWalks(mem: Words, taken: set<nat>, dirs: set<nat>, d: nat, i: nat, t: nat, w: nat)
    requires Spaces(mem, taken, dirs) && d in dirs && i < WORDS && !Present(mem[d][i])
    requires t !in taken && Present(w) && Frame(w) * PAGE_SIZE == t
    ensures SameWalks(mem, Put(mem[t := CLEARED], d, i, w), dirs)
  {
    hide InUse;
    var m := Put(mem[t := CLEARED], d, i, w);
    forall e, v: nat | e in dirs
      ensures Walk(m, e, v) == Walk(mem, e, v)
    {
      assert TableSound(mem, taken, dirs, e, v / WORDS);
      assert Table(mem, dirs, e, v / WORDS).Some? || Table(mem, dirs, e, v / WORDS).None?;
    }
  }

  /** Taking a table without present entries out of its directory changes no translation and gives its page back. */
  lemma UnlinkTable(mem: Words, taken: set<nat>, dirs: set<nat>, d: nat, i: nat)
    requires Spaces(mem, taken, dirs) && Linked(mem, dirs, d, i)
    requires forall k :: 0 <= k < WORDS && TableOk(mem, TableAt(mem, d, i)) ==> !Present(mem[TableAt(mem, d, i)][k])
    ensures var m := Put(mem, d, i, 0);
            && Spaces(m, taken - {TableAt(mem, d, i)}, dirs) && OnlyTable(mem, m, dirs, d, i, None)
            && SameWalks(mem, m, dirs)
  {
    var t := TableAt(mem, d, i);
    var m := Put(mem, d, i, 0);
    assert Table(mem, dirs, d, i) == Some(t) && TableSound(mem, taken, dirs, d, i);
    forall e: nat, k: nat
      ensures Table(m, dirs, e, k) == if e == d && k == i then None else Table(mem, dirs, e, k)
      ensures TableSound(m, taken - {t}, dirs, e, k)
    {
      assert TableSound(mem, taken, dirs, e, k);
      assert e != d || k != i ==> Table(mem, dirs, e, k) != Table(mem, dirs, d, i);
    }
    forall a | a in taken - {t} && a !in dirs
      ensures InUse(m, dirs, a)
    {
      UseFollowsTables(mem, m, dirs, a);
    }
    UnlinkWalks(mem, taken, dirs, d, i);
  }

  lemma UnlinkWalks(mem: Words, taken: set<nat>, dirs: set<nat>, d: nat, i: nat)
    requires Spaces(mem, taken, dirs) && Linked(mem, dirs, d, i)
    requires forall k :: 0 <= k < WORDS && TableOk(mem, TableAt(mem, d, i)) ==> !Present(mem[TableAt(mem, d, i)][k])
    ensures SameWalks(mem, Put(mem, d, i, 0), dirs)
  {
    hide InUse;
    var m := Put(mem, d, i, 0);
    forall e, v: nat | e in dirs
      ensures Walk(m, e, v) == Walk(mem, e, v)
    {
      assert TableSound(mem, taken, dirs, e, v / WORDS);
      assert Table(mem, dirs, e, v / WORDS).Some? || Table(mem, dirs, e, v / WORDS).None?;
    }
  }

  /**
   A fresh, cleared base page as a directory is a further space in which nothing is mapped; the others are as they
   were.
   */
  lemma NewSpace(mem: Words, taken: set<nat>, dirs: set<nat>, d: nat)
    requires Spaces(mem, taken, dirs) && d !in taken
    ensures var m := mem[d := CLEARED];
            && Spaces(m, taken + {d}, dirs + {d}) && SameWalks(mem, m, dirs)
            && (forall v: nat :: Walk(m, d, v) == None)
            && (forall e: nat, k: nat :: Table(m, dirs + {d}, e, k) == Table(mem, dirs, e, k))
  {
    var m := mem[d := CLEARED];
    forall e: nat, k: nat
      ensures Table(m, dirs + {d}, e, k) == Table(mem, dirs, e, k) && TableSound(m, taken + {d}, dirs + {d}, e, k)
    {
      assert TableSound(mem, taken, dirs, e, k);
      assert Table(mem, dirs, e, k) == Table(mem, dirs, e, k);
    }
    forall a | a in taken && a !in dirs
      ensures InUse(m, dirs + {d}, a)
    {
      assert InUse(mem, dirs, a);
      var e: nat, k: nat :| Table(mem, dirs, e, k) == Some(a);
      assert Table(m, dirs + {d}, e, k) == Some(a);
    }
    forall e, v: nat | e in dirs
      ensures Walk(m, e, v) == Walk(mem, e, v)
    {
      assert TableSound(mem, taken, dirs, e, v / WORDS);
      assert Table(mem, dirs, e, v / WORDS).Some? || Table(mem, dirs, e, v / WORDS).None?;
    }
  }

  /** The base pages of the tables that directory `d` leads to. */
  ghost function TablesOf(mem: Words, dirs: set<nat>, d: nat): (s: set<nat>)
    ensures forall a :: a in s <==> exists k: nat {:trigger Table(mem, dirs, d, k)} ::
                k < WORDS && Table(mem, dirs, d, k) == Some(a)
  {
    set k: nat | k < WORDS && Table(mem, dirs, d, k).Some? :: Table(mem, dirs, d, k).value
  }

  /** Without directory `d` the other spaces are as they were; its tables belong to nobody. */
  lemma DropSpace(mem: Words, taken: set<nat>, dirs: set<nat>, d: nat)
    requires Spaces(mem, taken, dirs) && d in dirs
    ensures d !in TablesOf(mem, dirs, d) && TablesOf(mem, dirs, d) <= taken
    ensures Spaces(mem, taken - {d} - TablesOf(mem, dirs, d), dirs - {d})
  {
    hide TablesOf;
    var left, rest := TablesOf(mem, dirs, d), dirs - {d};
    forall a | a in left
      ensures a in taken && a !in dirs && forall e: nat, k: nat :: e != d ==> Table(mem, dirs, e, k) != Some(a)
    {
      var k: nat :| Table(mem, dirs, d, k) == Some(a);
      assert TableSound(mem, taken, dirs, d, k);
    }
    forall e: nat, k: nat
      ensures Table(mem, rest, e, k) == if e == d then None else Table(mem, dirs, e, k)
      ensures TableSound(mem, taken - {d} - left, rest, e, k)
    {
      assert TableSound(mem, taken, dirs, e, k);
      assert Table(mem, dirs, e, k) == Table(mem, dirs, e, k);
    }
    forall a | a in taken - {d} - left && a !in rest
      ensures InUse(mem, rest, a)
    {
      assert InUse(mem, dirs, a);
      var e: nat, k: nat :| Table(mem, dirs, e, k) == Some(a);
      assert Table(mem, rest, e, k) == Some(a);
    }
  }
}
