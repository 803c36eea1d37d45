/**
 What evicting all areas of a task, one after the other, leaves: the paging part of reclaim_task in kernel/task.c.

 Kernel areas are skipped.  The areas may overlap; what an earlier one unmapped a later one finds absent.
 */
module ExitPaging {
  import opened Common
  import opened PageBitmap
  import opened AddressSpace
  import opened AreaPages

  /** Page `v` belongs to one of the first `j` areas that are not the kernel's. */
  predicate Covered(vmas: seq<VmArea>, j: nat, v: nat)
    requires j <= |vmas|
  {
    j > 0 && (Covered(vmas, j - 1, v) || (!vmas[j - 1].kernel && InArea(vmas[j - 1], v)))
  }

  // ---------------------------------------------------------------- after the first j areas

  /** Their pages are unmapped; every other translation of every space is as it was. */
  ghost predicate EvictedAll(was: Words, mem: Words, dirs: set<nat>, dir: nat, vmas: seq<VmArea>, j: nat)
    requires j <= |vmas|
  {
    forall e, v: nat {:trigger Walk(mem, e, v)} :: e in dirs ==>
      Walk(mem, e, v) == if e == dir && Covered(vmas, j, v) then None else Walk(was, e, v)
  }

  /** One of their pages held frame `f` and had to give it back. */
  ghost predicate ReleasedAll(was: Words, dir: nat, vmas: seq<VmArea>, j: nat, f: nat)
    requires j <= |vmas|
  {
    exists v: nat {:trigger MapsTo(was, dir, v, f)} ::
      Covered(vmas, j, v) && MapsTo(was, dir, v, f) && Owns(vmas, v * PAGE_SIZE)
  }

  ghost predicate FramesBackAll(wasBits: seq<bool>, bits: seq<bool>, was: Words, dir: nat, vmas: seq<VmArea>, j: nat)
    requires j <= |vmas|
  {
    && |bits| == |wasBits|
    && forall f :: 0 <= f < |bits| ==> bits[f] == (wasBits[f] && !ReleasedAll(was, dir, vmas, j, f))
  }

  /** All pages that word `k` translates and that were mapped belong to the first `j` areas. */
  ghost predicate AllCovered(was: Words, dir: nat, vmas: seq<VmArea>, j: nat, k: nat)
    requires j <= |vmas|
  {
    forall u: nat {:trigger Walk(was, dir, u)} :: u / WORDS == k && Walk(was, dir, u).Some? ==> Covered(vmas, j, u)
  }

  /**
   Area `i` empties the table of word `k` and finds its own last page there present: it was mapped, no earlier area
   unmapped it, and this area is the last one with a mapped page there.
   */
  ghost predicate ClearedBy(was: Words, dir: nat, vmas: seq<VmArea>, i: nat, k: nat)
    requires i < |vmas|
  {
    && !vmas[i].kernel
    && AllCovered(was, dir, vmas, i + 1, k)
    && exists v: nat {:trigger LastIn(vmas[i], v)} ::
         LastIn(vmas[i], v) && v / WORDS == k && Walk(was, dir, v).Some? && !Covered(vmas, i, v)
  }

  /** One of the first `j` areas gives back the table of word `k`. */
  ghost predicate Cleared(was: Words, dir: nat, vmas: seq<VmArea>, j: nat, k: nat)
    requires j <= |vmas|
  {
    j > 0 && (Cleared(was, dir, vmas, j - 1, k) || ClearedBy(was, dir, vmas, j - 1, k))
  }

  ghost predicate TablesBackAll(was: Words, mem: Words, dirs: set<nat>, dir: nat, vmas: seq<VmArea>, j: nat)
    requires j <= |vmas|
  {
    forall e: nat, k: nat {:trigger Table(mem, dirs, e, k)} ::
      Table(mem, dirs, e, k) == if e == dir && Cleared(was, dir, vmas, j, k) then None else Table(was, dirs, e, k)
  }

  lemma NoAreaYet(mem: Words, dirs: set<nat>, dir: nat, vmas: seq<VmArea>, bits: seq<bool>)
    ensures EvictedAll(mem, mem, dirs, dir, vmas, 0) && TablesBackAll(mem, mem, dirs, dir, vmas, 0)
    ensures FramesBackAll(bits, bits, mem, dir, vmas, 0)
  {
    hide Walk, Table;
  }

  lemma KernelAreaSkipped(was: Words, mem: Words, dirs: set<nat>, dir: nat, vmas: seq<VmArea>, j: nat,
                          wasBits: seq<bool>, bits: seq<bool>)
    requires j < |vmas| && vmas[j].kernel
    requires EvictedAll(was, mem, dirs, dir, vmas, j) && TablesBackAll(was, mem, dirs, dir, vmas, j)
    requires FramesBackAll(wasBits, bits, was, dir, vmas, j)
    ensures EvictedAll(was, mem, dirs, dir, vmas, j + 1) && TablesBackAll(was, mem, dirs, dir, vmas, j + 1)
    ensures FramesBackAll(wasBits, bits, was, dir, vmas, j + 1)
  {
    hide Walk, Table, InArea, MapsTo, Owns;
    assert forall v: nat :: Covered(vmas, j + 1, v) <==> Covered(vmas, j, v);
    assert forall f: nat :: ReleasedAll(was, dir, vmas, j + 1, f) <==> ReleasedAll(was, dir, vmas, j, f);
  }

  lemma EvictAreaStep(was: Words, m0: Words, m1: Words, dirs: set<nat>, dir: nat, vmas: seq<VmArea>, j: nat)
    requires j < |vmas| && !vmas[j].kernel && dir in dirs && EvictedAll(was, m0, dirs, dir, vmas, j)
    requires Evicted(m0, m1, dirs, dir, vmas[j], Top(vmas[j]))
    ensures EvictedAll(was, m1, dirs, dir, vmas, j + 1)
  {
    hide Walk;
    forall e, v: nat | e in dirs
      ensures Walk(m1, e, v) == if e == dir && Covered(vmas, j + 1, v) then None else Walk(was, e, v)
    {
      assert Walk(m0, e, v) == Walk(m0, e, v);
      assert Done(vmas[j], Top(vmas[j]), v) <==> InArea(vmas[j], v);
    }
  }

  lemma FramesAreaStep(wasBits: seq<bool>, b0: seq<bool>, b1: seq<bool>, was: Words, m0: Words, dirs: set<nat>,
                       dir: nat, vmas: seq<VmArea>, j: nat)
    requires j < |vmas| && !vmas[j].kernel && dir in dirs && EvictedAll(was, m0, dirs, dir, vmas, j)
    requires FramesBackAll(wasBits, b0, was, dir, vmas, j)
    requires FramesBack(b0, b1, m0, dir, vmas, vmas[j], Top(vmas[j]))
    ensures FramesBackAll(wasBits, b1, was, dir, vmas, j + 1)
  {
    hide Walk, Owns, Covered;
    forall f: nat
      ensures ReleasedAll(was, dir, vmas, j + 1, f) <==>
                ReleasedAll(was, dir, vmas, j, f) || Released(m0, dir, vmas, vmas[j], Top(vmas[j]), f)
    {
      forall v: nat
        ensures Covered(vmas, j + 1, v) <==> Covered(vmas, j, v) || Done(vmas[j], Top(vmas[j]), v)
        ensures MapsTo(m0, dir, v, f) <==> MapsTo(was, dir, v, f) && !Covered(vmas, j, v)
      {
        CoveredNext(vmas, j, v);
        assert Walk(m0, dir, v) == Walk(m0, dir, v);
      }
      hide MapsTo, Done;
      assert forall v: nat :: MapsTo(m0, dir, v, f) ==> MapsTo(was, dir, v, f);
    }
  }

  lemma CoveredNext(vmas: seq<VmArea>, j: nat, v: nat)
    requires j < |vmas| && !vmas[j].kernel
    ensures Covered(vmas, j + 1, v) <==> Covered(vmas, j, v) || InArea(vmas[j], v)
    ensures InArea(vmas[j], v) <==> Done(vmas[j], Top(vmas[j]), v)
  {
  }

  lemma TablesAreaStep(was: Words, m0: Words, m1: Words, dirs: set<nat>, dir: nat, vmas: seq<VmArea>, j: nat)
    requires j < |vmas| && !vmas[j].kernel && dir in dirs && EvictedAll(was, m0, dirs, dir, vmas, j)
    requires TablesBackAll(was, m0, dirs, dir, vmas, j) && TablesBack(m0, m1, dirs, dir, vmas[j], Top(vmas[j]))
    ensures TablesBackAll(was, m1, dirs, dir, vmas, j + 1)
  {
    hide Walk, Table, Swept, ClearedBy;
    forall e: nat, k: nat
      ensures Table(m1, dirs, e, k) ==
                if e == dir && Cleared(was, dir, vmas, j + 1, k) then None else Table(was, dirs, e, k)
    {
      SweptIsCleared(was, m0, dirs, dir, vmas, j, k);
      assert Table(m0, dirs, e, k) == Table(m0, dirs, e, k);
    }
  }

  /** What an area sweeps when its turn comes, in terms of the memory before the first one. */
  lemma SweptIsCleared(was: Words, mem: Words, dirs: set<nat>, dir: nat, vmas: seq<VmArea>, j: nat, k: nat)
    requires j < |vmas| && !vmas[j].kernel && dir in dirs && EvictedAll(was, mem, dirs, dir, vmas, j)
    ensures Swept(mem, dir, vmas[j], Top(vmas[j]), k) <==> ClearedBy(was, dir, vmas, j, k)
  {
    hide Walk, Covered;
    forall v: nat
      ensures Walk(mem, dir, v) == if Covered(vmas, j, v) then None else Walk(was, dir, v)
      ensures Covered(vmas, j + 1, v) <==> Covered(vmas, j, v) || InArea(vmas[j], v)
      ensures InArea(vmas[j], v) <==> Done(vmas[j], Top(vmas[j]), v)
    {
      CoveredNext(vmas, j, v);
      assert Walk(mem, dir, v) == Walk(mem, dir, v);
    }
    hide Done, InArea, LastIn;
    assert OnlyAreaIn(mem, dir, vmas[j], k) <==> AllCovered(was, dir, vmas, j + 1, k) by {
      OnlyAreaIffCovered(was, mem, dir, vmas, j, k);
    }
    assert forall v: nat :: LastIn(vmas[j], v) ==> InArea(vmas[j], v) by {
      LastInArea(vmas[j]);
    }
  }

  lemma LastInArea(vma: VmArea)
    ensures forall v: nat :: LastIn(vma, v) ==> InArea(vma, v)
  {
  }

  lemma OnlyAreaIffCovered(was: Words, mem: Words, dir: nat, vmas: seq<VmArea>, j: nat, k: nat)
    requires j < |vmas|
    requires forall v: nat {:trigger Walk(mem, dir, v)} {:trigger Walk(was, dir, v)} ::
               Walk(mem, dir, v) == if Covered(vmas, j, v) then None else Walk(was, dir, v)
    requires forall v: nat {:trigger Covered(vmas, j + 1, v)} ::
               Covered(vmas, j + 1, v) <==> Covered(vmas, j, v) || InArea(vmas[j], v)
    ensures OnlyAreaIn(mem, dir, vmas[j], k) <==> AllCovered(was, dir, vmas, j + 1, k)
  {
    hide Walk, Covered, InArea;
    if OnlyAreaIn(mem, dir, vmas[j], k) {
      forall u: nat | u / WORDS == k && Walk(was, dir, u).Some?
        ensures Covered(vmas, j + 1, u)
      {
        assert Walk(mem, dir, u) == Walk(mem, dir, u);
      }
    }
    if AllCovered(was, dir, vmas, j + 1, k) {
      forall u: nat | u / WORDS == k && Walk(mem, dir, u).Some?
        ensures InArea(vmas[j], u)
      {
        assert Covered(vmas, j + 1, u);
      }
    }
  }

  // ---------------------------------------------------------------- base pages

  /** The base pages of the tables of `dir` that no area gives back. */
  ghost function LeftPages(was: Words, dirs: set<nat>, dir: nat, vmas: seq<VmArea>): (s: set<nat>)
    ensures forall a :: a in s <==> exists k: nat {:trigger Table(was, dirs, dir, k)} ::
                k < WORDS && Table(was, dirs, dir, k) == Some(a) && !Cleared(was, dir, vmas, |vmas|, k)
  {
    set k: nat | k < WORDS && Table(was, dirs, dir, k).Some? && !Cleared(was, dir, vmas, |vmas|, k) ::
      Table(was, dirs, dir, k).value
  }

  /** They are the tables that the directory still leads to after the last area. */
  lemma LeftAreLinked(was: Words, mem: Words, dirs: set<nat>, dir: nat, vmas: seq<VmArea>)
    requires TablesBackAll(was, mem, dirs, dir, vmas, |vmas|)
    ensures LeftPages(was, dirs, dir, vmas) == TablesOf(mem, dirs, dir)
  {
    hide Table, Cleared, LeftPages, TablesOf;
    forall a
      ensures a in LeftPages(was, dirs, dir, vmas) <==> a in TablesOf(mem, dirs, dir)
    {
      assert forall k: nat ::
        Table(mem, dirs, dir, k) == if Cleared(was, dir, vmas, |vmas|, k) then None else Table(was, dirs, dir, k);
    }
  }

  /** The base pages in use after the last area: what was in use, less the tables given back. */
  lemma PagesAfterAll(was: Words, taken0: set<nat>, mem: Words, taken: set<nat>, dirs: set<nat>, dir: nat,
                      vmas: seq<VmArea>)
    requires Spaces(was, taken0, dirs) && Spaces(mem, taken, dirs) && TablesBackAll(was, mem, dirs, dir, vmas, |vmas|)
    ensures taken == taken0 - (TablesOf(was, dirs, dir) - LeftPages(was, dirs, dir, vmas))
    ensures LeftPages(was, dirs, dir, vmas) <= TablesOf(was, dirs, dir) <= taken0
  {
    hide Cleared, LeftPages, TablesOf, Spaces;
    forall a
      ensures a in taken <==> a in taken0 && !(a in TablesOf(was, dirs, dir) && a !in LeftPages(was, dirs, dir, vmas))
      ensures a in LeftPages(was, dirs, dir, vmas) ==> a in TablesOf(was, dirs, dir)
      ensures a in TablesOf(was, dirs, dir) ==> a in taken0
    {
      PageAfterAll(was, taken0, mem, taken, dirs, dir, vmas, a);
    }
  }

  lemma PageAfterAll(was: Words, taken0: set<nat>, mem: Words, taken: set<nat>, dirs: set<nat>, dir: nat,
                     vmas: seq<VmArea>, a: nat)
    requires Spaces(was, taken0, dirs) && Spaces(mem, taken, dirs) && TablesBackAll(was, mem, dirs, dir, vmas, |vmas|)
    ensures a in taken <==> a in taken0 && !(a in TablesOf(was, dirs, dir) && a !in LeftPages(was, dirs, dir, vmas))
    ensures a in LeftPages(was, dirs, dir, vmas) ==> a in TablesOf(was, dirs, dir)
    ensures a in TablesOf(was, dirs, dir) ==> a in taken0
  {
    hide Cleared, LeftPages, TablesOf;
    TablesInUse(was, taken0, dirs, a);
    TablesInUse(mem, taken, dirs, a);
    if InUse(was, dirs, a) {
      var e: nat, k: nat :| Table(was, dirs, e, k) == Some(a);
      assert forall d: nat, j: nat :: Table(was, dirs, d, j) == Some(a) ==> d == e && j == k;
      assert Table(mem, dirs, e, k) == Table(mem, dirs, e, k);
    }
  }

  /** The other spaces, once `dir` is no directory any more. */
  lemma OthersKept(was: Words, mem: Words, dirs: set<nat>, dir: nat, vmas: seq<VmArea>)
    requires EvictedAll(was, mem, dirs, dir, vmas, |vmas|) && TablesBackAll(was, mem, dirs, dir, vmas, |vmas|)
    ensures SameWalks(was, mem, dirs - {dir}) && SameTables(was, mem, dirs - {dir})
  {
    hide Walk, Cleared, Covered;
    forall e: nat, k: nat
      ensures Table(mem, dirs - {dir}, e, k) == Table(was, dirs - {dir}, e, k)
    {
      assert Table(mem, dirs, e, k) == Table(mem, dirs, e, k);
    }
  }

  /** No base page is left behind exactly if some area gives back each table that the directory leads to. */
  lemma NothingLeftIff(was: Words, dirs: set<nat>, dir: nat, vmas: seq<VmArea>)
    ensures LeftPages(was, dirs, dir, vmas) == {} <==>
              forall k: nat :: Table(was, dirs, dir, k).Some? ==> Cleared(was, dir, vmas, |vmas|, k)
  {
    hide Cleared, LeftPages;
    if LeftPages(was, dirs, dir, vmas) == {} {
      forall k: nat | Table(was, dirs, dir, k).Some?
        ensures Cleared(was, dir, vmas, |vmas|, k)
      {
        assert Table(was, dirs, dir, k).value !in LeftPages(was, dirs, dir, vmas);
      }
    }
  }

  // ---------------------------------------------------------------- wholly mapped areas

  /** No two areas that are not the kernel's share a page. */
  ghost predicate Disjoint(vmas: seq<VmArea>) {
    forall i, j, v: nat {:trigger InArea(vmas[i], v), InArea(vmas[j], v)} ::
      0 <= i < j < |vmas| && !vmas[i].kernel && !vmas[j].kernel ==> !(InArea(vmas[i], v) && InArea(vmas[j], v))
  }

  /** Every page of every area is mapped, and no other page is. */
  ghost predicate WhollyMapped(was: Words, dir: nat, vmas: seq<VmArea>) {
    forall v: nat {:trigger Walk(was, dir, v)} :: Walk(was, dir, v).Some? <==> Covered(vmas, |vmas|, v)
  }

  lemma {:induction false} CoveredBy(vmas: seq<VmArea>, j: nat, v: nat) returns (i: nat)
    requires j <= |vmas| && Covered(vmas, j, v)
    ensures i < j && !vmas[i].kernel && InArea(vmas[i], v)
  {
    if Covered(vmas, j - 1, v) {
      i := CoveredBy(vmas, j - 1, v);
    } else {
      i := j - 1;
    }
  }

  lemma {:induction false} CoveredFrom(vmas: seq<VmArea>, i: nat, j: nat, v: nat)
    requires i < j <= |vmas| && !vmas[i].kernel && InArea(vmas[i], v)
    ensures Covered(vmas, j, v)
  {
    if j > i + 1 {
      CoveredFrom(vmas, i, j - 1, v);
    }
  }

  /** If areas are disjoint and wholly mapped, a table with a mapped page is given back. */
  lemma {:induction false} WholeAreasClear(was: Words, dir: nat, vmas: seq<VmArea>, j: nat, k: nat, v: nat)
    requires j <= |vmas| && Disjoint(vmas) && WhollyMapped(was, dir, vmas)
    requires AllCovered(was, dir, vmas, j, k) && v / WORDS == k && Covered(vmas, j, v)
    ensures Cleared(was, dir, vmas, j, k)
    decreases j
  {
    hide Walk;
    var n := j - 1;
    if exists w: nat :: w / WORDS == k && InArea(vmas[n], w) && !vmas[n].kernel {
      var w: nat :| w / WORDS == k && InArea(vmas[n], w) && !vmas[n].kernel;
      var last := LastPage(vmas[n], w);
      CoveredFrom(vmas, n, |vmas|, last);
      assert Walk(was, dir, last).Some?;
      if Covered(vmas, n, last) {
        var i := CoveredBy(vmas, n, last);
        assert false;
      }
      assert ClearedBy(was, dir, vmas, n, k);
    } else {
      assert Covered(vmas, n, v);
      forall u: nat | u / WORDS == k && Walk(was, dir, u).Some?
        ensures Covered(vmas, n, u)
      {
        assert Covered(vmas, j, u);
      }
      WholeAreasClear(was, dir, vmas, n, k, v);
    }
  }

  /** A task whose areas are disjoint and wholly mapped, and that has no empty table, loses no base page. */
  lemma WholeAreasLeaveNothing(was: Words, dirs: set<nat>, dir: nat, vmas: seq<VmArea>)
    requires Disjoint(vmas) && WhollyMapped(was, dir, vmas)
    requires forall k: nat :: Table(was, dirs, dir, k).Some? ==> !EmptySlot(was, dir, k)
    ensures LeftPages(was, dirs, dir, vmas) == {}
  {
    hide Walk, LeftPages, Cleared, Disjoint, Covered;
    forall k: nat | Table(was, dirs, dir, k).Some?
      ensures Cleared(was, dir, vmas, |vmas|, k)
    {
      var v: nat :| v / WORDS == k && Walk(was, dir, v) != None;
      assert Walk(was, dir, v).Some?;
      WholeAreasClear(was, dir, vmas, |vmas|, k, v);
    }
    NothingLeftIff(was, dirs, dir, vmas);
  }
}
