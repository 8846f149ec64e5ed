/**
 * The life of a user address space (kernel/mm/vmm.c over kernel/mm/pmm.c): a directory is
 * created, pages taken from the allocator are mapped and unmapped in any order, and the
 * directory is destroyed.
 */
module VmmLife {
  import opened Words
  import opened Basics
  import opened Bitmap
  import opened PmmSpec
  import PmmRuns
  import opened VmmSpec

  // ---- Creation and destruction ------------------------------------------------

  // The new directory: entry 0 and the kernel half are copied, the rest is empty.
  function UserDirectory(kernel: Table): (t: Table)
    requires |kernel| == ENTRIES
    ensures |t| == ENTRIES && forall i :: 0 <= i < ENTRIES ==> t[i] == if 1 <= i < KERNEL_PDE then 0 else kernel[i]
  {
    seq(ENTRIES, i requires 0 <= i < ENTRIES => if 1 <= i < KERNEL_PDE then 0 else kernel[i])
  }

  datatype Created = Created(s: Vm, pd: nat)

  // vmm_create_user_pd; page number 0 stands for failure.
  function CreateUserPd(s: Vm, kernelPd: nat): (r: Created)
    requires Shape(s.mem) && Geometry(s.m) && kernelPd < MAX_PAGES
    ensures Shape(r.s.mem) && Geometry(r.s.m)
  {
    var a := AllocPage(s.m, 0);
    var pd := a.addr / PAGE_SIZE;
    if a.addr == 0 || pd >= MAX_PAGES then Created(Vm(s.mem, a.m), 0)
    else Created(Vm(s.mem[pd := UserDirectory(s.mem[kernelPd])], a.m), pd)
  }

  // Free what the first k entries of a table map.
  function FreeMapped(m: Pmm, t: Table, k: nat): (r: Pmm)
    requires Geometry(m) && k <= |t|
    ensures Geometry(r) && r.highest == m.highest
  {
    if k == 0 then m
    else
      var before := FreeMapped(m, t, k - 1);
      if Present(t[k - 1]) then FreePage(before, Frame(t[k - 1]) * PAGE_SIZE) else before
  }

  // Free the tables behind the first i directory entries and what they map.
  function FreeTables(mem: Memory, m: Pmm, pd: nat, i: nat): (r: Pmm)
    requires Shape(mem) && Geometry(m) && pd < MAX_PAGES && i <= ENTRIES
    ensures Geometry(r) && r.highest == m.highest
  {
    if i == 0 then m
    else
      var before := FreeTables(mem, m, pd, i - 1);
      var pt := TableOf(mem, pd, i - 1);
      if IsTable(mem, pd, i - 1) && pt < MAX_PAGES
      then FreePage(FreeMapped(before, mem[pt], ENTRIES), pt * PAGE_SIZE)
      else before
  }

  function DestroyUserPd(s: Vm, pd: nat): (m: Pmm)
    requires Shape(s.mem) && Geometry(s.m) && pd < MAX_PAGES
  {
    FreePage(FreeTables(s.mem, s.m, pd, KERNEL_PDE), pd * PAGE_SIZE)
  }

  // ---- What a directory owns -----------------------------------------------------

  predicate OwnsTable(mem: Memory, pd: nat, p: nat)
    requires Shape(mem) && pd < MAX_PAGES
  {
    exists i: nat :: i < KERNEL_PDE && IsTable(mem, pd, i) && TableOf(mem, pd, i) == p
  }

  predicate MapsTo(mem: Memory, pd: nat, v: VPage, p: nat)
    requires Shape(mem) && pd < MAX_PAGES
  {
    Lookup(mem, pd, v).Some? && Frame(Lookup(mem, pd, v).value) == p
  }

  predicate OwnsPage(mem: Memory, pd: nat, p: nat)
    requires Shape(mem) && pd < MAX_PAGES
  {
    exists v: VPage :: v < USER_PAGES && MapsTo(mem, pd, v, p)
  }

  // The directory itself, its user tables and the pages mapped in user space.
  predicate Owns(mem: Memory, pd: nat, p: nat)
    requires Shape(mem) && pd < MAX_PAGES
  {
    p == pd || OwnsTable(mem, pd, p) || OwnsPage(mem, pd, p)
  }

  predicate InTable(t: Table, k: nat, p: nat)
    requires k <= |t|
  {
    exists j :: 0 <= j < k && Present(t[j]) && Frame(t[j]) == p
  }

  predicate FramesUsable(m: Pmm, t: Table) {
    forall j :: 0 <= j < |t| && Present(t[j]) ==> LOW_PAGES <= Frame(t[j]) <= m.highest
  }

  lemma {:induction false} FreeMappedSpec(m: Pmm, t: Table, k: nat)
    requires Inv(m) && k <= |t| && FramesUsable(m, t)
    ensures Inv(FreeMapped(m, t, k))
    ensures forall p: nat :: Test(FreeMapped(m, t, k).bits, p) <==> Test(m.bits, p) && !InTable(t, k, p)
  {
    hide Test, Inv, FreePage, Present, Frame;
    assert Geometry(m) by { InvGeometry(m); }
    if k > 0 {
      FreeMappedSpec(m, t, k - 1);
      var before := FreeMapped(m, t, k - 1);
      if Present(t[k - 1]) {
        FrameAddress(t[k - 1]);
        FreePageKeepsIff(before, Frame(t[k - 1]) * PAGE_SIZE);
      }
      forall p: nat ensures InTable(t, k, p) <==> InTable(t, k - 1, p) || (Present(t[k - 1]) && Frame(t[k - 1]) == p) { }
    }
  }

  lemma FrameAddress(e: Word)
    ensures Frame(e) * PAGE_SIZE < 0x1_0000_0000 && Frame(e) * PAGE_SIZE / PAGE_SIZE == Frame(e)
  {
  }

  predicate OwnedBelow(mem: Memory, pd: nat, i: nat, p: nat)
    requires Shape(mem) && pd < MAX_PAGES && i <= ENTRIES
  {
    exists j: nat :: j < i && OwnedAt(mem, pd, j, p)
  }

  predicate OwnedAt(mem: Memory, pd: nat, j: nat, p: nat)
    requires Shape(mem) && pd < MAX_PAGES && j < ENTRIES
  {
    var pt := TableOf(mem, pd, j);
    IsTable(mem, pd, j) && pt < MAX_PAGES && (pt == p || InTable(mem[pt], ENTRIES, p))
  }

  lemma {:induction false} FreeTablesSpec(mem: Memory, m: Pmm, pd: nat, i: nat)
    requires Shape(mem) && Inv(m) && pd < MAX_PAGES && i <= ENTRIES
    requires forall j: nat, p: nat :: j < i && OwnedAt(mem, pd, j, p) ==> LOW_PAGES <= p <= m.highest
    ensures Inv(FreeTables(mem, m, pd, i))
    ensures forall p: nat :: Test(FreeTables(mem, m, pd, i).bits, p) <==> Test(m.bits, p) && !OwnedBelow(mem, pd, i, p)
  {
    hide Test, Inv, FreePage, FreeMapped, Present, Large, Frame;
    assert Geometry(m) by { InvGeometry(m); }
    if i > 0 {
      FreeTablesSpec(mem, m, pd, i - 1);
      var before := FreeTables(mem, m, pd, i - 1);
      var pt := TableOf(mem, pd, i - 1);
      if IsTable(mem, pd, i - 1) && pt < MAX_PAGES {
        assert OwnedAt(mem, pd, i - 1, pt);
        forall j | 0 <= j < ENTRIES && Present(mem[pt][j]) ensures LOW_PAGES <= Frame(mem[pt][j]) <= m.highest {
          assert InTable(mem[pt], ENTRIES, Frame(mem[pt][j]));
          assert OwnedAt(mem, pd, i - 1, Frame(mem[pt][j]));
        }
        FreeMappedSpec(before, mem[pt], ENTRIES);
        FrameAddress(mem[pd][i - 1]);
        FreePageKeepsIff(FreeMapped(before, mem[pt], ENTRIES), pt * PAGE_SIZE);
      }
      forall p: nat ensures OwnedBelow(mem, pd, i, p) <==> OwnedBelow(mem, pd, i - 1, p) || OwnedAt(mem, pd, i - 1, p) {
        hide OwnedAt;
      }
    }
  }

  lemma OwnedIsOwns(s: Vm, pd: nat, p: nat)
    requires WellFormed(s, pd)
    ensures OwnedBelow(s.mem, pd, KERNEL_PDE, p) || p == pd <==> Owns(s.mem, pd, p)
  {
    hide Test, Inv, Present, Large, Frame;
    var mem := s.mem;
    if OwnedBelow(mem, pd, KERNEL_PDE, p) {
      var i: nat :| i < KERNEL_PDE && OwnedAt(mem, pd, i, p);
      var pt := TableOf(mem, pd, i);
      if InTable(mem[pt], ENTRIES, p) {
        var j :| 0 <= j < ENTRIES && Present(mem[pt][j]) && Frame(mem[pt][j]) == p;
        var v: VPage := i * ENTRIES + j;
        assert v / ENTRIES == i && v % ENTRIES == j;
        assert MapsTo(mem, pd, v, p);
      } else {
        assert OwnsTable(mem, pd, p);
      }
    }
    if OwnsTable(mem, pd, p) {
      var i: nat :| i < KERNEL_PDE && IsTable(mem, pd, i) && TableOf(mem, pd, i) == p;
      assert GoodTable(s, pd, i);
      assert OwnedAt(mem, pd, i, p);
    }
    if OwnsPage(mem, pd, p) {
      var v: VPage :| v < USER_PAGES && MapsTo(mem, pd, v, p);
      assert InTable(mem[TableOf(mem, pd, v / ENTRIES)], ENTRIES, p);
      assert OwnedAt(mem, pd, v / ENTRIES, p);
    }
  }

  // vmm_destroy_user_pd frees exactly what the directory owns.
  lemma DestroyFreesOwned(s: Vm, pd: nat)
    requires WellFormed(s, pd)
    requires forall p: nat :: Owns(s.mem, pd, p) ==> LOW_PAGES <= p <= s.m.highest
    ensures Geometry(s.m) && Inv(DestroyUserPd(s, pd)) && DestroyUserPd(s, pd).highest == s.m.highest
    ensures forall p: nat :: Test(DestroyUserPd(s, pd).bits, p) <==> Test(s.m.bits, p) && !Owns(s.mem, pd, p)
  {
    hide Test, Inv, FreePage, FreeTables, Owns, OwnedAt;
    assert Geometry(s.m) by { InvGeometry(s.m); }
    forall p: nat ensures OwnedBelow(s.mem, pd, KERNEL_PDE, p) || p == pd <==> Owns(s.mem, pd, p) {
      OwnedIsOwns(s, pd, p);
    }
    forall j: nat, p: nat | j < KERNEL_PDE && OwnedAt(s.mem, pd, j, p) ensures LOW_PAGES <= p <= s.m.highest {
      assert OwnedBelow(s.mem, pd, KERNEL_PDE, p);
    }
    FreeTablesSpec(s.mem, s.m, pd, KERNEL_PDE);
    assert Owns(s.mem, pd, pd);
    FreePageKeepsIff(FreeTables(s.mem, s.m, pd, KERNEL_PDE), pd * PAGE_SIZE);
  }

  // ---- Sessions --------------------------------------------------------------------

  // An address space in use, with the pages its owner holds but has not mapped.
  datatype Space = Space(s: Vm, pd: nat, spare: set<nat>)

  datatype Action =
    | Get(node: Byte)
    | Put(page: VPage)
    | Map(v: VPage, page: VPage, flags: Flags)
    | Unmap(v: VPage)

  // Pages are put back or mapped only if held, and only unmapped user pages are mapped.
  ghost function Act(c: Space, a: Action): (d: Space)
    requires Shape(c.s.mem) && Geometry(c.s.m) && c.pd < MAX_PAGES
  {
    match a
    case Get(node) =>
      var r := AllocPage(c.s.m, node);
      if r.addr == 0 then c.(s := c.s.(m := r.m))
      else c.(s := c.s.(m := r.m), spare := c.spare + {r.addr / PAGE_SIZE})
    case Put(page) =>
      if page in c.spare && page < MAX_PAGES
      then c.(s := c.s.(m := FreePage(c.s.m, page * PAGE_SIZE)), spare := c.spare - {page})
      else c
    case Map(v, page, flags) =>
      if CanMap(c, v, page, flags) then
        var r := MapPage(c.s, c.pd, v, page, flags);
        if r.rc == 0 then c.(s := r.s, spare := c.spare - {page}) else c.(s := r.s)
      else c
    case Unmap(v) =>
      if v < USER_PAGES && Lookup(c.s.mem, c.pd, v).Some?
      then c.(s := UnmapPage(c.s, c.pd, v), spare := c.spare + {Frame(Lookup(c.s.mem, c.pd, v).value)})
      else c
  }

  predicate CanMap(c: Space, v: VPage, page: VPage, flags: Flags)
    requires Shape(c.s.mem) && c.pd < MAX_PAGES
  {
    page in c.spare && v < USER_PAGES && flags % 2 == 1
    && Lookup(c.s.mem, c.pd, v) == None && !Huge(c.s.mem[c.pd][v / ENTRIES])
  }

  // No two user pages share a frame, and no mapped frame is a table or the directory.
  ghost predicate Unshared(mem: Memory, pd: nat)
    requires Shape(mem) && pd < MAX_PAGES
  {
    && (forall v: VPage, w: VPage, p: nat :: v < USER_PAGES && w < USER_PAGES && MapsTo(mem, pd, v, p) && MapsTo(mem, pd, w, p) ==> v == w)
    && (forall p: nat :: OwnsPage(mem, pd, p) ==> p != pd && !OwnsTable(mem, pd, p))
  }

  // Tables of the kernel half were there before.
  ghost predicate KernelTablesIn(s0: Vm, mem: Memory, pd: nat)
    requires Shape(mem) && pd < MAX_PAGES
  {
    forall i: nat :: KERNEL_PDE <= i < ENTRIES && IsTable(mem, pd, i) ==> Test(s0.m.bits, TableOf(mem, pd, i))
  }

  // Owned and spare pages are disjoint, were free at the start, and with them every page in use is accounted for.
  ghost predicate Accounted(s0: Vm, c: Space)
    requires Shape(c.s.mem) && c.pd < MAX_PAGES
  {
    && (forall p: nat :: Owns(c.s.mem, c.pd, p) || p in c.spare ==> LOW_PAGES <= p <= s0.m.highest && !Test(s0.m.bits, p))
    && (forall p :: p in c.spare ==> !Owns(c.s.mem, c.pd, p))
    && (forall p: nat :: Test(c.s.m.bits, p) <==> Test(s0.m.bits, p) || Owns(c.s.mem, c.pd, p) || p in c.spare)
  }

  // No page in use at the start has been written.
  ghost predicate Untouched(s0: Vm, mem: Memory)
    requires Shape(s0.mem) && Shape(mem)
  {
    forall p: nat :: p < MAX_PAGES && Test(s0.m.bits, p) ==> mem[p] == s0.mem[p]
  }

  /**
   * The invariant of an address space, relative to the memory and allocator before its
   * directory was created.
   */
  ghost predicate Session(s0: Vm, c: Space) {
    && Shape(s0.mem) && Inv(s0.m) && WellFormed(c.s, c.pd) && c.s.m.highest == s0.m.highest
    && KernelTablesIn(s0, c.s.mem, c.pd) && Unshared(c.s.mem, c.pd)
    && Accounted(s0, c) && Untouched(s0, c.s.mem)
  }

  // A well-formed directory stays so when other pages change their state.
  lemma OtherBits(s: Vm, m: Pmm, pd: nat)
    requires WellFormed(s, pd) && Inv(m) && Test(m.bits, pd)
    requires forall i: nat :: i < ENTRIES && IsTable(s.mem, pd, i) ==> Test(m.bits, TableOf(s.mem, pd, i))
    ensures WellFormed(s.(m := m), pd)
  {
    hide Test, Inv, Present, Large, Frame;
    forall i: nat | i < ENTRIES ensures GoodTable(s.(m := m), pd, i) {
      assert GoodTable(s, pd, i);
    }
  }

  lemma GetKeeps(s0: Vm, c: Space, node: Byte)
    requires Session(s0, c) && Geometry(c.s.m)
    ensures Session(s0, Act(c, Get(node)))
  {
    hide Test, Inv, AllocPage, Owns, Unshared, FirstIn, IsTable;
    var r := AllocPage(c.s.m, node);
    AllocPageSpec(c.s.m, node);
    if r.addr != 0 {
      forall i: nat | i < ENTRIES && IsTable(c.s.mem, c.pd, i) ensures Test(r.m.bits, TableOf(c.s.mem, c.pd, i)) {
        assert GoodTable(c.s, c.pd, i);
      }
      OtherBits(c.s, r.m, c.pd);
      assert !Test(c.s.m.bits, r.addr / PAGE_SIZE);
    }
  }

  lemma PutKeeps(s0: Vm, c: Space, page: VPage)
    requires Session(s0, c) && Geometry(c.s.m)
    ensures Session(s0, Act(c, Put(page)))
  {
    SessionWellFormed(s0, c);
    hide Test, Inv, FreePage, Unshared, KernelTablesIn, WellFormed, Accounted, Untouched;
    if page in c.spare && page < MAX_PAGES {
      var m := FreePage(c.s.m, page * PAGE_SIZE);
      PageFreed(s0, c, page, m);
      PutAccounted(s0, c, page, m);
      PutTables(s0, c, page, m);
      OtherBits(c.s, m, c.pd);
    }
  }

  lemma PageFreed(s0: Vm, c: Space, page: VPage, m: Pmm)
    requires Session(s0, c) && Geometry(c.s.m) && page in c.spare && page < MAX_PAGES && m == FreePage(c.s.m, page * PAGE_SIZE)
    ensures Inv(m) && m.highest == c.s.m.highest && (forall p: nat :: Test(m.bits, p) <==> Test(c.s.m.bits, p) && p != page)
  {
    hide Test, Inv, FreePage, Unshared, KernelTablesIn, WellFormed, Owns, Untouched;
    SessionWellFormed(s0, c);
    WellFormedShape(c.s, c.pd);
    FreePageKeepsIff(c.s.m, page * PAGE_SIZE);
  }

  lemma PutAccounted(s0: Vm, c: Space, page: nat, m: Pmm)
    requires Shape(c.s.mem) && c.pd < MAX_PAGES && Accounted(s0, c) && page in c.spare
    requires forall p: nat :: Test(m.bits, p) <==> Test(c.s.m.bits, p) && p != page
    ensures Accounted(s0, c.(s := c.s.(m := m), spare := c.spare - {page}))
  {
    hide Test, Owns;
  }

  // The directory and its tables are none of the spare pages.
  lemma PutTables(s0: Vm, c: Space, page: nat, m: Pmm)
    requires Session(s0, c) && page in c.spare && forall p: nat :: Test(m.bits, p) <==> Test(c.s.m.bits, p) && p != page
    ensures Test(m.bits, c.pd)
    ensures forall i: nat :: i < ENTRIES && IsTable(c.s.mem, c.pd, i) ==> Test(m.bits, TableOf(c.s.mem, c.pd, i))
  {
    hide Test, Inv, Unshared, IsTable, TableOf, OwnsPage, Untouched;
    forall i: nat | i < ENTRIES && IsTable(c.s.mem, c.pd, i) ensures Test(m.bits, TableOf(c.s.mem, c.pd, i)) {
      assert GoodTable(c.s, c.pd, i);
      if i < KERNEL_PDE { assert OwnsTable(c.s.mem, c.pd, TableOf(c.s.mem, c.pd, i)); }
    }
    assert Owns(c.s.mem, c.pd, c.pd);
  }

  // ---- Mapping --------------------------------------------------------------------

  // A fresh table is one more owned page and changes no mapping.
  lemma EnsureOwns(s: Vm, pd: nat, i: nat, t: Mapped, p: nat)
    requires WellFormed(s, pd) && i < KERNEL_PDE && !Present(s.mem[pd][i])
    requires Geometry(s.m) && t == EnsureTable(s, pd, i) && t.rc == 0
    ensures OwnsTable(t.s.mem, pd, p) <==> OwnsTable(s.mem, pd, p) || p == TableOf(t.s.mem, pd, i)
    ensures OwnsPage(t.s.mem, pd, p) <==> OwnsPage(s.mem, pd, p)
    ensures forall v: VPage :: MapsTo(t.s.mem, pd, v, p) <==> MapsTo(s.mem, pd, v, p)
  {
    EnsureMaps(s, pd, i, t, p);
    hide MapsTo, WellFormed;
    EnsureTables(s, pd, i, t, p);
  }

  lemma EnsureMaps(s: Vm, pd: nat, i: nat, t: Mapped, p: nat)
    requires WellFormed(s, pd) && i < KERNEL_PDE && !Present(s.mem[pd][i])
    requires Geometry(s.m) && t == EnsureTable(s, pd, i) && t.rc == 0
    ensures forall v: VPage :: MapsTo(t.s.mem, pd, v, p) <==> MapsTo(s.mem, pd, v, p)
  {
    WellFormedShape(s, pd);
    hide Test, Inv, EnsureTable, Large, Frame, Lookup, WellFormed;
    forall v: VPage ensures MapsTo(t.s.mem, pd, v, p) <==> MapsTo(s.mem, pd, v, p) {
      EnsureTableInvisible(s, pd, i, t, v);
    }
  }

  lemma EnsureTables(s: Vm, pd: nat, i: nat, t: Mapped, p: nat)
    requires WellFormed(s, pd) && i < KERNEL_PDE && !Present(s.mem[pd][i])
    requires Geometry(s.m) && t == EnsureTable(s, pd, i) && t.rc == 0
    ensures OwnsTable(t.s.mem, pd, p) <==> OwnsTable(s.mem, pd, p) || p == TableOf(t.s.mem, pd, i)
  {
    WellFormedShape(s, pd);
    hide Test, Inv, EnsureTable, Present, Large, Frame, WellFormed;
    EnsureTableKeeps(s, pd, i, t);
    if OwnsTable(s.mem, pd, p) {
      var j: nat :| j < KERNEL_PDE && IsTable(s.mem, pd, j) && TableOf(s.mem, pd, j) == p;
      assert IsTable(t.s.mem, pd, j) && TableOf(t.s.mem, pd, j) == p;
    }
    if OwnsTable(t.s.mem, pd, p) && p != TableOf(t.s.mem, pd, i) {
      var j: nat :| j < KERNEL_PDE && IsTable(t.s.mem, pd, j) && TableOf(t.s.mem, pd, j) == p;
      assert IsTable(s.mem, pd, j) && TableOf(s.mem, pd, j) == p;
    }
    assert IsTable(t.s.mem, pd, i);
  }

  // The space owns one more table, and nothing else about what it maps changed.
  ghost predicate TableGained(a: Memory, b: Memory, pd: nat, pt: nat)
    requires Shape(a) && Shape(b) && pd < MAX_PAGES
  {
    && (forall p: nat :: OwnsTable(b, pd, p) <==> OwnsTable(a, pd, p) || p == pt)
    && (forall p: nat :: OwnsPage(b, pd, p) <==> OwnsPage(a, pd, p))
    && (forall v: VPage, p: nat :: MapsTo(b, pd, v, p) <==> MapsTo(a, pd, v, p))
  }

  lemma GainedUnshared(a: Memory, b: Memory, pd: nat, pt: nat)
    requires Shape(a) && Shape(b) && pd < MAX_PAGES && TableGained(a, b, pd, pt)
    requires Unshared(a, pd) && !OwnsPage(a, pd, pt)
    ensures Unshared(b, pd)
  {
    hide OwnsTable, OwnsPage, MapsTo;
  }

  lemma GainedAccounted(s0: Vm, c: Space, t: Vm, pt: nat)
    requires Shape(c.s.mem) && Shape(t.mem) && c.pd < MAX_PAGES && TableGained(c.s.mem, t.mem, c.pd, pt)
    requires Accounted(s0, c) && !Test(c.s.m.bits, pt) && LOW_PAGES <= pt <= s0.m.highest
    requires forall p: nat :: Test(t.m.bits, p) <==> (p == pt || Test(c.s.m.bits, p))
    ensures Accounted(s0, c.(s := t))
  {
    hide Test, OwnsTable, OwnsPage, MapsTo;
    assert forall p: nat :: Owns(t.mem, c.pd, p) <==> Owns(c.s.mem, c.pd, p) || p == pt;
  }

  lemma EnsureGains(s: Vm, pd: nat, i: nat, t: Mapped)
    requires WellFormed(s, pd) && i < KERNEL_PDE && !Present(s.mem[pd][i])
    requires Geometry(s.m) && t == EnsureTable(s, pd, i) && t.rc == 0
    ensures TableGained(s.mem, t.s.mem, pd, TableOf(t.s.mem, pd, i))
  {
    hide Test, Inv, EnsureTable, Present, Large, Frame, OwnsTable, OwnsPage, MapsTo;
    forall p: nat
      ensures OwnsTable(t.s.mem, pd, p) <==> OwnsTable(s.mem, pd, p) || p == TableOf(t.s.mem, pd, i)
      ensures OwnsPage(t.s.mem, pd, p) <==> OwnsPage(s.mem, pd, p)
    {
      EnsureOwns(s, pd, i, t, p);
    }
    forall v: VPage, p: nat ensures MapsTo(t.s.mem, pd, v, p) <==> MapsTo(s.mem, pd, v, p) {
      EnsureOwns(s, pd, i, t, p);
    }
  }

  lemma EnsureKeeps(s0: Vm, c: Space, i: nat, t: Mapped)
    requires Session(s0, c) && Geometry(c.s.m) && i < KERNEL_PDE && !Huge(c.s.mem[c.pd][i])
    requires t == EnsureTable(c.s, c.pd, i)
    ensures Session(s0, c.(s := t.s))
  {
    hide Test, Inv, EnsureTable, Present, Large, Frame, OwnsTable, OwnsPage, MapsTo, Unshared, TableGained, Untouched, KernelTablesIn;
    EnsureTableKeeps(c.s, c.pd, i, t);
    if t.rc == 0 && !Present(c.s.mem[c.pd][i]) {
      var pt := TableOf(t.s.mem, c.pd, i);
      EnsureGains(c.s, c.pd, i, t);
      assert !Owns(c.s.mem, c.pd, pt);
      GainedUnshared(c.s.mem, t.s.mem, c.pd, pt);
      GainedAccounted(s0, c, t.s, pt);
      EnsureUntouched(s0, c, i, t);
    }
  }

  lemma EnsureUntouched(s0: Vm, c: Space, i: nat, t: Mapped)
    requires Session(s0, c) && Geometry(c.s.m) && i < KERNEL_PDE && !Huge(c.s.mem[c.pd][i])
    requires t == EnsureTable(c.s, c.pd, i)
    ensures Untouched(s0, t.s.mem) && KernelTablesIn(s0, t.s.mem, c.pd)
  {
    hide Test, Inv, EnsureTable, Present, Large, Frame, OwnsTable, OwnsPage, Unshared;
    EnsureTableKeeps(c.s, c.pd, i, t);
    assert Owns(c.s.mem, c.pd, c.pd);
    forall j: nat | KERNEL_PDE <= j < ENTRIES && IsTable(t.s.mem, c.pd, j) ensures Test(s0.m.bits, TableOf(t.s.mem, c.pd, j)) {
      assert IsTable(c.s.mem, c.pd, j);
    }
  }

  lemma WriteUntouched(s0: Vm, c: Space, v: VPage, e: Word, after: Memory)
    requires Session(s0, c) && v < USER_PAGES && IsTable(c.s.mem, c.pd, v / ENTRIES)
    requires TableOf(c.s.mem, c.pd, v / ENTRIES) < MAX_PAGES
    requires after == Write(c.s.mem, TableOf(c.s.mem, c.pd, v / ENTRIES), v % ENTRIES, e)
    ensures Untouched(s0, after)
  {
    hide Test, Inv, Present, Large, Frame, OwnsPage, Unshared;
    assert OwnsTable(c.s.mem, c.pd, TableOf(c.s.mem, c.pd, v / ENTRIES));
    assert Owns(c.s.mem, c.pd, TableOf(c.s.mem, c.pd, v / ENTRIES));
  }

  lemma SameDirectory(a: Memory, b: Memory, pd: nat, p: nat)
    requires Shape(a) && Shape(b) && pd < MAX_PAGES && a[pd] == b[pd]
    ensures OwnsTable(a, pd, p) <==> OwnsTable(b, pd, p)
    ensures forall i: nat :: i < ENTRIES ==> IsTable(a, pd, i) == IsTable(b, pd, i) && TableOf(a, pd, i) == TableOf(b, pd, i)
  {
    hide Present, Large, Frame;
    assert forall i: nat :: i < ENTRIES ==> IsTable(a, pd, i) == IsTable(b, pd, i) && TableOf(a, pd, i) == TableOf(b, pd, i);
  }

  // One page gains a mapping.
  lemma MapOwns(a: Memory, b: Memory, pd: nat, v: VPage, e: Word)
    requires Shape(a) && Shape(b) && pd < MAX_PAGES && v < USER_PAGES
    requires OnlyAt(a, b, pd, v, Some(e)) && Lookup(a, pd, v) == None
    ensures forall p: nat :: OwnsPage(b, pd, p) <==> OwnsPage(a, pd, p) || p == Frame(e)
    ensures forall w: VPage, p: nat :: MapsTo(b, pd, w, p) <==> (if w == v then p == Frame(e) else MapsTo(a, pd, w, p))
  {
    hide Lookup, Frame;
    forall p: nat ensures OwnsPage(b, pd, p) <==> OwnsPage(a, pd, p) || p == Frame(e) {
      if OwnsPage(a, pd, p) {
        var w: VPage :| w < USER_PAGES && MapsTo(a, pd, w, p);
        assert MapsTo(b, pd, w, p);
      }
      assert p == Frame(e) ==> MapsTo(b, pd, v, p);
      if OwnsPage(b, pd, p) {
        var w: VPage :| w < USER_PAGES && MapsTo(b, pd, w, p);
        assert w == v || MapsTo(a, pd, w, p);
      }
    }
  }

  lemma WriteKeeps(s0: Vm, c: Space, v: VPage, page: VPage, flags: Flags, after: Memory)
    requires Session(s0, c) && CanMap(c, v, page, flags) && IsTable(c.s.mem, c.pd, v / ENTRIES)
    requires TableOf(c.s.mem, c.pd, v / ENTRIES) < MAX_PAGES
    requires after == Write(c.s.mem, TableOf(c.s.mem, c.pd, v / ENTRIES), v % ENTRIES, Entry(page, flags))
    ensures Session(s0, c.(s := c.s.(mem := after), spare := c.spare - {page}))
  {
    hide Test, Inv, Present, Large, Frame, Lookup, OwnsTable, OwnsPage, MapsTo, Write, Entry;
    var e := Entry(page, flags);
    WriteShowsAt(c.s, c.pd, v, e, after);
    WriteUntouched(s0, c, v, e, after);
    MapOwns(c.s.mem, after, c.pd, v, e);
    forall p: nat ensures OwnsTable(after, c.pd, p) <==> OwnsTable(c.s.mem, c.pd, p) {
      SameDirectory(c.s.mem, after, c.pd, p);
    }
    SameKernelTables(s0, c.s.mem, after, c.pd);
    SpareUnmapped(s0, c, page);
    MapUnshared(c.s.mem, after, c.pd, v, page);
    var d := c.(s := c.s.(mem := after), spare := c.spare - {page});
    forall p: nat ensures Owns(d.s.mem, d.pd, p) <==> Owns(c.s.mem, c.pd, p) || p == page { }
    Handover(s0, c, d, page);
  }

  lemma SameKernelTables(s0: Vm, a: Memory, b: Memory, pd: nat)
    requires Shape(a) && Shape(b) && pd < MAX_PAGES && a[pd] == b[pd] && KernelTablesIn(s0, a, pd)
    ensures KernelTablesIn(s0, b, pd)
  {
    hide Present, Large, Frame, Test;
    forall i: nat | KERNEL_PDE <= i < ENTRIES && IsTable(b, pd, i) ensures Test(s0.m.bits, TableOf(b, pd, i)) {
      assert IsTable(a, pd, i);
    }
  }

  // A page moves from spare to owned; the account stays balanced.
  lemma Handover(s0: Vm, c: Space, d: Space, page: nat)
    requires Shape(c.s.mem) && Shape(d.s.mem) && d.pd == c.pd < MAX_PAGES && d.s.m == c.s.m
    requires Accounted(s0, c) && page in c.spare && d.spare == c.spare - {page}
    requires forall p: nat :: Owns(d.s.mem, d.pd, p) <==> Owns(c.s.mem, c.pd, p) || p == page
    ensures Accounted(s0, d)
  {
    hide Owns, Test;
  }

  // A page moves from owned to spare.
  lemma Handback(s0: Vm, c: Space, d: Space, page: nat)
    requires Shape(c.s.mem) && Shape(d.s.mem) && d.pd == c.pd < MAX_PAGES && d.s.m == c.s.m
    requires Accounted(s0, c) && Owns(c.s.mem, c.pd, page) && d.spare == c.spare + {page}
    requires forall p: nat :: Owns(d.s.mem, d.pd, p) <==> Owns(c.s.mem, c.pd, p) && p != page
    ensures Accounted(s0, d)
  {
    hide Owns, Test;
  }

  // Nothing maps a spare page.
  lemma SpareUnmapped(s0: Vm, c: Space, page: nat)
    requires Session(s0, c) && page in c.spare
    ensures page != c.pd && !OwnsTable(c.s.mem, c.pd, page) && !OwnsPage(c.s.mem, c.pd, page)
  {
    hide Test, Inv, OwnsTable, OwnsPage;
    assert !Owns(c.s.mem, c.pd, page);
  }

  lemma MapUnshared(a: Memory, b: Memory, pd: nat, v: VPage, page: nat)
    requires Shape(a) && Shape(b) && pd < MAX_PAGES && Unshared(a, pd) && v < USER_PAGES
    requires page != pd && !OwnsTable(a, pd, page) && !OwnsPage(a, pd, page)
    requires forall p: nat :: OwnsTable(b, pd, p) <==> OwnsTable(a, pd, p)
    requires forall p: nat :: OwnsPage(b, pd, p) <==> OwnsPage(a, pd, p) || p == page
    requires forall w: VPage, p: nat :: MapsTo(b, pd, w, p) <==> (if w == v then p == page else MapsTo(a, pd, w, p))
    ensures Unshared(b, pd)
  {
    hide MapsTo, OwnsTable;
    forall x: VPage, y: VPage, p: nat | x < USER_PAGES && y < USER_PAGES && MapsTo(b, pd, x, p) && MapsTo(b, pd, y, p) ensures x == y {
      assert MapsTo(a, pd, x, p) || x == v;
      assert MapsTo(a, pd, y, p) || y == v;
    }
  }

  lemma MapActs(c: Space, v: VPage, page: VPage, flags: Flags)
    requires Shape(c.s.mem) && Geometry(c.s.m) && c.pd < MAX_PAGES && CanMap(c, v, page, flags)
    ensures var t := EnsureTable(c.s, c.pd, v / ENTRIES);
      Act(c, Map(v, page, flags)) ==
        if t.rc == 0 && TableOf(t.s.mem, c.pd, v / ENTRIES) < MAX_PAGES then
          c.(s := t.s.(mem := Write(t.s.mem, TableOf(t.s.mem, c.pd, v / ENTRIES), v % ENTRIES, Entry(page, flags))),
             spare := c.spare - {page})
        else c.(s := t.s)
  {
    hide EnsureTable, CanMap, Write, Entry;
  }

  lemma MapKeeps(s0: Vm, c: Space, v: VPage, page: VPage, flags: Flags)
    requires Session(s0, c) && Geometry(c.s.m) && CanMap(c, v, page, flags)
    ensures Session(s0, Act(c, Map(v, page, flags)))
  {
    SessionWellFormed(s0, c);
    MapActs(c, v, page, flags);
    hide Session, Act, EnsureTable, Lookup, Write, Entry, Large, Present, WellFormed;
    var i := v / ENTRIES;
    var t := EnsureTable(c.s, c.pd, i);
    EnsureKeeps(s0, c, i, t);
    EnsureTableKeeps(c.s, c.pd, i, t);
    EnsureTableInvisible(c.s, c.pd, i, t, v);
    if t.rc == 0 {
      TableIsGood(t.s, c.pd, i);
      WriteKeeps(s0, c.(s := t.s), v, page, flags, Write(t.s.mem, TableOf(t.s.mem, c.pd, i), v % ENTRIES, Entry(page, flags)));
    }
  }

  lemma SessionWellFormed(s0: Vm, c: Space)
    requires Session(s0, c)
    ensures WellFormed(c.s, c.pd) && Shape(c.s.mem) && c.pd < MAX_PAGES && Geometry(c.s.m)
  {
    hide Test;
  }

  lemma TableIsGood(s: Vm, pd: nat, i: nat)
    requires WellFormed(s, pd) && i < ENTRIES
    ensures GoodTable(s, pd, i)
  {
  }

  // ---- Unmapping --------------------------------------------------------------------

  lemma UnmapOwns(a: Memory, b: Memory, pd: nat, v: VPage, page: nat)
    requires Shape(a) && Shape(b) && pd < MAX_PAGES && v < USER_PAGES && Unshared(a, pd)
    requires OnlyAt(a, b, pd, v, None) && MapsTo(a, pd, v, page)
    ensures forall p: nat :: OwnsPage(b, pd, p) <==> OwnsPage(a, pd, p) && p != page
    ensures forall w: VPage, p: nat :: MapsTo(b, pd, w, p) <==> w != v && MapsTo(a, pd, w, p)
  {
    hide Lookup, Frame, OwnsTable;
    forall p: nat ensures OwnsPage(b, pd, p) <==> OwnsPage(a, pd, p) && p != page {
      if OwnsPage(a, pd, p) {
        var w: VPage :| w < USER_PAGES && MapsTo(a, pd, w, p);
        assert w != v ==> MapsTo(b, pd, w, p);
      }
      if OwnsPage(b, pd, p) {
        var w: VPage :| w < USER_PAGES && MapsTo(b, pd, w, p);
        assert MapsTo(a, pd, w, p);
      }
    }
  }

  // What unmapping one page comes to.
  lemma UnmapFacts(s0: Vm, c: Space, v: VPage, page: nat, after: Memory)
    requires Session(s0, c) && Geometry(c.s.m) && v < USER_PAGES && Lookup(c.s.mem, c.pd, v).Some?
    requires page == Frame(Lookup(c.s.mem, c.pd, v).value) && after == UnmapPage(c.s, c.pd, v).mem
    ensures MapsTo(c.s.mem, c.pd, v, page) && OwnsPage(c.s.mem, c.pd, page)
    ensures UnmapPage(c.s, c.pd, v) == c.s.(mem := after) && WellFormed(c.s.(mem := after), c.pd)
    ensures OnlyAt(c.s.mem, after, c.pd, v, None) && after[c.pd] == c.s.mem[c.pd] && Untouched(s0, after)
  {
    hide Test, Inv, Present, Large, Frame, OwnsTable, OwnsPage, Write, KernelTablesIn, Unshared, Accounted, Untouched;
    MappedIsOwned(c.s.mem, c.pd, v, page);
    UnmapChangesOnlyThatPage(c.s, c.pd, v);
    WriteUntouched(s0, c, v, 0, after);
  }

  lemma MappedApart(mem: Memory, pd: nat, page: nat)
    requires Shape(mem) && pd < MAX_PAGES && Unshared(mem, pd) && OwnsPage(mem, pd, page)
    ensures page != pd && !OwnsTable(mem, pd, page)
  {
    hide OwnsPage, OwnsTable;
  }

  lemma UnmapKeeps(s0: Vm, c: Space, v: VPage)
    requires Session(s0, c) && Geometry(c.s.m) && v < USER_PAGES && Lookup(c.s.mem, c.pd, v).Some?
    ensures Session(s0, Act(c, Unmap(v)))
  {
    hide Test, Inv, Present, Large, Frame, OwnsTable, OwnsPage, Lookup, UnmapPage, MapsTo;
    hide WellFormed, Unshared, Untouched, KernelTablesIn, Accounted, OnlyAt;
    SessionWellFormed(s0, c);
    var page := Frame(Lookup(c.s.mem, c.pd, v).value);
    var after := UnmapPage(c.s, c.pd, v).mem;
    UnmapFacts(s0, c, v, page, after);
    MappedApart(c.s.mem, c.pd, page);
    UnmapOwns(c.s.mem, after, c.pd, v, page);
    forall p: nat ensures OwnsTable(after, c.pd, p) <==> OwnsTable(c.s.mem, c.pd, p) {
      SameDirectory(c.s.mem, after, c.pd, p);
    }
    SameKernelTables(s0, c.s.mem, after, c.pd);
    UnmapUnshared(c.s.mem, after, c.pd, page);
    var d := c.(s := c.s.(mem := after), spare := c.spare + {page});
    forall p: nat ensures Owns(d.s.mem, d.pd, p) <==> Owns(c.s.mem, c.pd, p) && p != page { }
    hide Owns;
    Handback(s0, c, d, page);
    hide CanMap;
    assert d == Act(c, Unmap(v));
    hide Act;
    assert Session(s0, d);
  }

  lemma UnmapUnshared(a: Memory, b: Memory, pd: nat, page: nat)
    requires Shape(a) && Shape(b) && pd < MAX_PAGES && Unshared(a, pd)
    requires forall p: nat :: OwnsTable(b, pd, p) <==> OwnsTable(a, pd, p)
    requires forall p: nat :: OwnsPage(b, pd, p) <==> OwnsPage(a, pd, p) && p != page
    requires forall w: VPage, p: nat :: MapsTo(b, pd, w, p) ==> MapsTo(a, pd, w, p)
    ensures Unshared(b, pd)
  {
    hide MapsTo, OwnsTable, OwnsPage;
  }

  lemma MappedIsOwned(mem: Memory, pd: nat, v: VPage, page: nat)
    requires Shape(mem) && pd < MAX_PAGES && v < USER_PAGES && MapsTo(mem, pd, v, page)
    ensures OwnsPage(mem, pd, page)
  {
  }

  lemma ActKeeps(s0: Vm, c: Space, a: Action)
    requires Session(s0, c) && Geometry(c.s.m)
    ensures Session(s0, Act(c, a))
  {
    hide Session, MapPage, UnmapPage, Lookup, AllocPage, FreePage;
    SessionWellFormed(s0, c);
    match a
    case Get(node) => GetKeeps(s0, c, node);
    case Put(page) => PutKeeps(s0, c, page);
    case Map(v, page, flags) =>
      if CanMap(c, v, page, flags) { MapKeeps(s0, c, v, page, flags); }
    case Unmap(v) =>
      if v < USER_PAGES && Lookup(c.s.mem, c.pd, v).Some? { UnmapKeeps(s0, c, v); }
  }

  // ---- The whole life ------------------------------------------------------------------

  // Creation fails exactly without a free page; what it makes is an address space that owns
  // its directory and nothing else, unless entry 0 brings a table of the kernel with it.
  lemma CreateStarts(s0: Vm, kernelPd: nat, r: Created)
    requires WellFormed(s0, kernelPd)
    requires Geometry(s0.m) && r == CreateUserPd(s0, kernelPd)
    ensures r.pd == 0 <==> s0.m.free == 0
    ensures r.pd == 0 ==> r.s == s0
    ensures r.pd != 0 ==> (Session(s0, Space(r.s, r.pd, {})) <==> !IsTable(s0.mem, kernelPd, 0))
  {
    hide Test, Inv, AllocPage, Present, Large, Frame, FirstIn, Session, WellFormed, UserDirectory, IsTable;
    WellFormedShape(s0, kernelPd);
    AllocPageSpec(s0.m, 0);
    if AllocPage(s0.m, 0).addr != 0 {
      if IsTable(s0.mem, kernelPd, 0) {
        KernelTableOwned(s0, kernelPd, r);
      } else {
        DirectoryAlone(s0, kernelPd, r);
      }
    }
  }

  lemma WellFormedShape(s: Vm, pd: nat)
    requires WellFormed(s, pd)
    ensures Shape(s.mem) && Inv(s.m) && pd < MAX_PAGES
  {
  }

  lemma KernelTableOwned(s0: Vm, kernelPd: nat, r: Created)
    requires WellFormed(s0, kernelPd) && IsTable(s0.mem, kernelPd, 0)
    requires Geometry(s0.m) && r == CreateUserPd(s0, kernelPd) && r.pd != 0
    ensures !Session(s0, Space(r.s, r.pd, {}))
  {
    hide Test, Inv, AllocPage, Present, Large, Frame, FirstIn, Untouched, Unshared, KernelTablesIn;
    var p := TableOf(s0.mem, kernelPd, 0);
    assert GoodTable(s0, kernelPd, 0);
    SharedEntry(s0, kernelPd, r);
    hide CreateUserPd;
    if Shape(r.s.mem) && r.pd < MAX_PAGES {
      assert IsTable(r.s.mem, r.pd, 0) && TableOf(r.s.mem, r.pd, 0) == p;
      assert OwnsTable(r.s.mem, r.pd, p);
      assert Owns(r.s.mem, r.pd, p);
    }
  }

  lemma DirectoryAlone(s0: Vm, kernelPd: nat, r: Created)
    requires WellFormed(s0, kernelPd) && !IsTable(s0.mem, kernelPd, 0)
    requires Geometry(s0.m) && r == CreateUserPd(s0, kernelPd) && r.pd != 0
    ensures Session(s0, Space(r.s, r.pd, {}))
  {
    hide Test, Inv, AllocPage, Present, Large, Frame, FirstIn, UserDirectory;
    AllocPageSpec(s0.m, 0);
    assert !Test(s0.m.bits, r.pd);
    NewDirectory(s0, kernelPd, r);
    NothingOwned(r.s.mem, r.pd);
    hide WellFormed, IsTable;
    forall p: nat ensures Owns(r.s.mem, r.pd, p) <==> p == r.pd { hide OwnsPage, OwnsTable; }
    hide Unshared, KernelTablesIn;
  }

  lemma NewDirectory(s0: Vm, kernelPd: nat, r: Created)
    requires WellFormed(s0, kernelPd) && !IsTable(s0.mem, kernelPd, 0)
    requires Shape(r.s.mem) && r.pd < MAX_PAGES && !Test(s0.m.bits, r.pd) && Inv(r.s.m)
    requires r.s.mem == s0.mem[r.pd := UserDirectory(s0.mem[kernelPd])]
    requires forall p: nat :: Test(r.s.m.bits, p) <==> p == r.pd || Test(s0.m.bits, p)
    ensures WellFormed(r.s, r.pd) && KernelTablesIn(s0, r.s.mem, r.pd)
    ensures forall i: nat :: i < KERNEL_PDE ==> !IsTable(r.s.mem, r.pd, i)
  {
    hide Test, Inv, Large, Frame, UserDirectory;
    var mem, pd := r.s.mem, r.pd;
    forall i: nat | i < KERNEL_PDE ensures !IsTable(mem, pd, i) {
      if i > 0 { assert mem[pd][i] == 0; }
    }
    forall i: nat | KERNEL_PDE <= i < ENTRIES ensures mem[pd][i] == s0.mem[kernelPd][i] { }
    forall i: nat | i < ENTRIES ensures GoodTable(r.s, pd, i) {
      if i >= KERNEL_PDE { assert GoodTable(s0, kernelPd, i); }
    }
    forall i: nat, j: nat | i < ENTRIES && j < ENTRIES ensures TablesApart(mem, pd, i, j) {
      if i >= KERNEL_PDE && j >= KERNEL_PDE { assert TablesApart(s0.mem, kernelPd, i, j); }
    }
    forall i: nat | KERNEL_PDE <= i < ENTRIES && IsTable(mem, pd, i) ensures Test(s0.m.bits, TableOf(mem, pd, i)) {
      assert GoodTable(s0, kernelPd, i);
    }
  }

  lemma NothingOwned(mem: Memory, pd: nat)
    requires Shape(mem) && pd < MAX_PAGES && forall i: nat :: i < KERNEL_PDE ==> !IsTable(mem, pd, i)
    ensures Unshared(mem, pd)
    ensures forall p: nat :: !OwnsTable(mem, pd, p) && !OwnsPage(mem, pd, p)
  {
    hide Present, Large, Frame;
    forall v: VPage, p: nat | v < USER_PAGES ensures !MapsTo(mem, pd, v, p) {
      assert v / ENTRIES < KERNEL_PDE;
    }
  }

  ghost function Live(s0: Vm, c: Space, actions: seq<Action>): (d: Space)
    requires Session(s0, c)
    ensures Session(s0, d) && Shape(d.s.mem) && Geometry(d.s.m) && d.pd == c.pd < MAX_PAGES
    decreases |actions|
  {
    hide Session, Act;
    SessionWellFormed(s0, c);
    if actions == [] then c
    else
      var before := Live(s0, c, actions[..|actions| - 1]);
      ActKeeps(s0, before, actions[|actions| - 1]);
      SessionWellFormed(s0, Act(before, actions[|actions| - 1]));
      SamePd(before, actions[|actions| - 1]);
      Act(before, actions[|actions| - 1])
  }

  lemma SamePd(c: Space, a: Action)
    requires Shape(c.s.mem) && Geometry(c.s.m) && c.pd < MAX_PAGES
    ensures Act(c, a).pd == c.pd
  {
    hide MapPage, UnmapPage, Lookup, AllocPage, FreePage, CanMap;
  }

  /**
   * Main theorem: create a directory, map and unmap pages in any order, and destroy it.
   * Once no spare page is held, the destruction restores the allocator's bitmap and every
   * counter, and all the while no other directory's translation has changed.
   */
  lemma LifeRestoresAllocator(s0: Vm, kernelPd: nat, actions: seq<Action>)
    requires WellFormed(s0, kernelPd) && !IsTable(s0.mem, kernelPd, 0) && Geometry(s0.m)
    requires CreateUserPd(s0, kernelPd).pd != 0
    ensures var r := CreateUserPd(s0, kernelPd);
      Session(s0, Space(r.s, r.pd, {}))
      && var c := Live(s0, Space(r.s, r.pd, {}), actions);
         (c.spare == {} ==> DestroyUserPd(c.s, c.pd) == s0.m)
         && forall other: nat, v: VPage :: WellFormed(s0, other) ==> Lookup(c.s.mem, other, v) == Lookup(s0.mem, other, v)
  {
    hide CreateUserPd, Live, DestroyUserPd, Inv, Test, Lookup;
    var r := CreateUserPd(s0, kernelPd);
    CreateStarts(s0, kernelPd, r);
    var c := Live(s0, Space(r.s, r.pd, {}), actions);
    if c.spare == {} {
      DestroyFreesOwned(c.s, c.pd);
      DestroyRestores(s0, c);
    }
    forall other: nat, v: VPage | WellFormed(s0, other) ensures Lookup(c.s.mem, other, v) == Lookup(s0.mem, other, v) {
      Isolated(s0, c.s.mem, other, v);
    }
  }

  lemma DestroyRestores(s0: Vm, c: Space)
    requires Session(s0, c) && c.spare == {} && Geometry(c.s.m)
    ensures DestroyUserPd(c.s, c.pd) == s0.m
  {
    hide Test, Inv, DestroyUserPd, Owns;
    DestroyFreesOwned(c.s, c.pd);
    BitsDetermineState(DestroyUserPd(c.s, c.pd), s0.m);
  }

  lemma Isolated(s0: Vm, mem: Memory, other: nat, v: VPage)
    requires WellFormed(s0, other) && Shape(mem) && Untouched(s0, mem)
    ensures Lookup(mem, other, v) == Lookup(s0.mem, other, v)
  {
    hide Test, Inv, Present, Large, Frame;
    assert GoodTable(s0, other, v / ENTRIES);
  }

  // ---- The kernel half -------------------------------------------------------------------

  // The entry that decides where page v goes, and how far v lies into what it maps; a 4 MB
  // entry decides by itself.
  function Resolve(mem: Memory, pd: nat, v: VPage): (r: Option<(Word, nat)>)
    requires Shape(mem) && pd < MAX_PAGES
  {
    if Huge(mem[pd][v / ENTRIES]) then Some((mem[pd][v / ENTRIES], v % ENTRIES))
    else
      match Lookup(mem, pd, v)
      case None => None
      case Some(e) => Some((e, 0))
  }

  // The entries from 3 GB on are those of the kernel's directory.
  predicate SharesKernel(s0: Vm, kernelPd: nat, mem: Memory, pd: nat)
    requires Shape(s0.mem) && Shape(mem) && kernelPd < MAX_PAGES && pd < MAX_PAGES
  {
    forall i :: 768 <= i < 1024 ==> mem[pd][i] == s0.mem[kernelPd][i]
  }

  /**
   * A new directory maps the kernel half and the first 4 MB as the kernel's own directory
   * does, entry by entry, and nothing in between.
   */
  lemma NewDirectorySharesKernel(s0: Vm, kernelPd: nat, r: Created)
    requires WellFormed(s0, kernelPd) && Geometry(s0.m) && r == CreateUserPd(s0, kernelPd) && r.pd != 0
    ensures r.pd < MAX_PAGES
    ensures forall i :: 0 <= i < 1024 ==> r.s.mem[r.pd][i] == if 1 <= i < 768 then 0 else s0.mem[kernelPd][i]
    ensures forall v: VPage :: Resolve(r.s.mem, r.pd, v) == if 1024 <= v < 786432 then None else Resolve(s0.mem, kernelPd, v)
    ensures forall p: nat :: p < MAX_PAGES && p != r.pd ==> r.s.mem[p] == s0.mem[p]
    ensures !Test(s0.m.bits, r.pd)
  {
    hide Test, Inv, AllocPage, FirstIn, Present, Large, Frame, UserDirectory;
    AllocPageSpec(s0.m, 0);
    assert !Test(s0.m.bits, r.pd);
    forall v: VPage
      ensures Resolve(r.s.mem, r.pd, v) == if 1024 <= v < 786432 then None else Resolve(s0.mem, kernelPd, v)
    {
      if v < 1024 || v >= 786432 {
        assert GoodTable(s0, kernelPd, v / ENTRIES);
        ResolvesAlike(s0, kernelPd, r.s.mem, r.pd, v);
      } else {
        ZeroResolvesNone(r.s.mem, r.pd, v);
      }
    }
  }

  lemma ZeroResolvesNone(mem: Memory, pd: nat, v: VPage)
    requires Shape(mem) && pd < MAX_PAGES && mem[pd][v / ENTRIES] == 0
    ensures Resolve(mem, pd, v) == None
  {
  }

  lemma ResolvesAlike(s0: Vm, kernelPd: nat, mem: Memory, pd: nat, v: VPage)
    requires Shape(s0.mem) && Shape(mem) && kernelPd < MAX_PAGES && pd < MAX_PAGES
    requires mem[pd][v / ENTRIES] == s0.mem[kernelPd][v / ENTRIES]
    requires IsTable(s0.mem, kernelPd, v / ENTRIES) ==>
      var pt := TableOf(s0.mem, kernelPd, v / ENTRIES); pt < MAX_PAGES && mem[pt] == s0.mem[pt]
    ensures Resolve(mem, pd, v) == Resolve(s0.mem, kernelPd, v)
    ensures !Huge(s0.mem[kernelPd][v / ENTRIES]) ==> Walk(mem, pd, v) == Walk(s0.mem, kernelPd, v)
  {
    hide Present, Large, Frame;
  }

  lemma ActSharesKernel(s0: Vm, kernelPd: nat, c: Space, a: Action)
    requires Session(s0, c) && Geometry(c.s.m) && kernelPd < MAX_PAGES && SharesKernel(s0, kernelPd, c.s.mem, c.pd)
    ensures var d := Act(c, a); Shape(d.s.mem) && d.pd == c.pd && SharesKernel(s0, kernelPd, d.s.mem, d.pd)
  {
    hide Session, MapPage, UnmapPage, Lookup, AllocPage, FreePage, Large, WellFormed, OnlyAt;
    SessionWellFormed(s0, c);
    match a
    case Get(node) =>
    case Put(page) =>
    case Map(v, page, flags) =>
      if CanMap(c, v, page, flags) {
        MapPageChangesOnlyThatPage(c.s, c.pd, v, page, flags, MapPage(c.s, c.pd, v, page, flags));
      }
    case Unmap(v) =>
      if v < USER_PAGES && Lookup(c.s.mem, c.pd, v).Some? {
        MappedNotHuge(c.s.mem, c.pd, v);
        UnmapChangesOnlyThatPage(c.s, c.pd, v);
      }
  }

  lemma MappedNotHuge(mem: Memory, pd: nat, v: VPage)
    requires Shape(mem) && pd < MAX_PAGES && Lookup(mem, pd, v).Some?
    ensures !Huge(mem[pd][v / ENTRIES])
  {
  }

  lemma {:induction false} LiveSharesKernel(s0: Vm, kernelPd: nat, c: Space, actions: seq<Action>)
    requires Session(s0, c) && kernelPd < MAX_PAGES && SharesKernel(s0, kernelPd, c.s.mem, c.pd)
    ensures SharesKernel(s0, kernelPd, Live(s0, c, actions).s.mem, c.pd)
    decreases |actions|
  {
    hide Session, Act, SharesKernel;
    SessionWellFormed(s0, c);
    if actions != [] {
      LiveSharesKernel(s0, kernelPd, c, actions[..|actions| - 1]);
      ActSharesKernel(s0, kernelPd, Live(s0, c, actions[..|actions| - 1]), actions[|actions| - 1]);
    }
  }

  /**
   * Through the whole life of a user directory every page from 3 GB on goes where the kernel's
   * directory sends it.
   */
  lemma LifeSharesKernel(s0: Vm, kernelPd: nat, actions: seq<Action>)
    requires WellFormed(s0, kernelPd) && !IsTable(s0.mem, kernelPd, 0) && Geometry(s0.m)
    requires CreateUserPd(s0, kernelPd).pd != 0
    ensures var r := CreateUserPd(s0, kernelPd);
      Session(s0, Space(r.s, r.pd, {}))
      && var c := Live(s0, Space(r.s, r.pd, {}), actions);
         && SharesKernel(s0, kernelPd, c.s.mem, c.pd)
         && (forall v: VPage :: v >= 786432 ==> Resolve(c.s.mem, c.pd, v) == Resolve(s0.mem, kernelPd, v))
         && (forall v: VPage :: v >= 786432 ==> Resolve(c.s.mem, kernelPd, v) == Resolve(s0.mem, kernelPd, v))
         && (forall v: VPage :: v >= 786432 && !Huge(s0.mem[kernelPd][v / ENTRIES]) ==>
               Walk(c.s.mem, c.pd, v) == Walk(s0.mem, kernelPd, v))
  {
    hide CreateUserPd, Live, Inv, Test, Resolve, Walk, Huge, IsTable, Unshared, KernelTablesIn, Accounted;
    var r := CreateUserPd(s0, kernelPd);
    CreateStarts(s0, kernelPd, r);
    NewDirectorySharesKernel(s0, kernelPd, r);
    var c := Live(s0, Space(r.s, r.pd, {}), actions);
    LiveSharesKernel(s0, kernelPd, Space(r.s, r.pd, {}), actions);
    forall v: VPage | v >= 786432
      ensures Resolve(c.s.mem, c.pd, v) == Resolve(s0.mem, kernelPd, v) && Resolve(c.s.mem, kernelPd, v) == Resolve(s0.mem, kernelPd, v)
      ensures !Huge(s0.mem[kernelPd][v / ENTRIES]) ==> Walk(c.s.mem, c.pd, v) == Walk(s0.mem, kernelPd, v)
    {
      assert GoodTable(s0, kernelPd, v / ENTRIES);
      ResolvesAlike(s0, kernelPd, c.s.mem, c.pd, v);
      ResolvesAlike(s0, kernelPd, c.s.mem, kernelPd, v);
    }
  }

  // Every table of user space grants all rights, so its pages' entries decide.
  predicate TablesOpen(mem: Memory, pd: nat)
    requires Shape(mem) && pd < MAX_PAGES
  {
    forall i :: 0 <= i < 768 && IsTable(mem, pd, i) ==> mem[pd][i] % 8 == 7
  }

  lemma ActKeepsOpen(s0: Vm, c: Space, a: Action)
    requires Session(s0, c) && Geometry(c.s.m) && TablesOpen(c.s.mem, c.pd)
    ensures var d := Act(c, a); Shape(d.s.mem) && d.pd == c.pd && TablesOpen(d.s.mem, d.pd)
  {
    hide Session, MapPage, UnmapPage, Lookup, AllocPage, FreePage, Large, WellFormed, OnlyAt, Entry;
    SessionWellFormed(s0, c);
    match a
    case Get(node) =>
    case Put(page) =>
    case Map(v, page, flags) =>
      if CanMap(c, v, page, flags) {
        var r := MapPage(c.s, c.pd, v, page, flags);
        MapPageChangesOnlyThatPage(c.s, c.pd, v, page, flags, r);
        if r.rc == 0 { EntryOf(c.s, c.pd, v, page, flags, r); }
      }
    case Unmap(v) =>
      if v < USER_PAGES && Lookup(c.s.mem, c.pd, v).Some? {
        MappedNotHuge(c.s.mem, c.pd, v);
        UnmapChangesOnlyThatPage(c.s, c.pd, v);
      }
  }

  lemma {:induction false} LiveKeepsOpen(s0: Vm, c: Space, actions: seq<Action>)
    requires Session(s0, c) && Shape(c.s.mem) && c.pd < MAX_PAGES && TablesOpen(c.s.mem, c.pd)
    ensures TablesOpen(Live(s0, c, actions).s.mem, c.pd)
    decreases |actions|
  {
    hide Session, Act, TablesOpen;
    if actions != [] {
      LiveKeepsOpen(s0, c, actions[..|actions| - 1]);
      ActKeepsOpen(s0, Live(s0, c, actions[..|actions| - 1]), actions[|actions| - 1]);
    }
  }

  // In every address space a user page has the rights of its own entry.
  lemma RightsAreThePages(s0: Vm, kernelPd: nat, actions: seq<Action>, v: VPage)
    requires WellFormed(s0, kernelPd) && !IsTable(s0.mem, kernelPd, 0) && Geometry(s0.m)
    requires CreateUserPd(s0, kernelPd).pd != 0 && v < USER_PAGES
    ensures var r := CreateUserPd(s0, kernelPd);
      Session(s0, Space(r.s, r.pd, {}))
      && var c := Live(s0, Space(r.s, r.pd, {}), actions);
         match Lookup(c.s.mem, c.pd, v)
         case None => !MayWrite(c.s.mem, c.pd, v) && !UserMay(c.s.mem, c.pd, v)
         case Some(e) => (MayWrite(c.s.mem, c.pd, v) <==> Writable(e)) && (UserMay(c.s.mem, c.pd, v) <==> ForUser(e))
  {
    hide CreateUserPd, Live, Session, Resolve;
    var r := CreateUserPd(s0, kernelPd);
    CreateStarts(s0, kernelPd, r);
    NewDirectorySharesKernel(s0, kernelPd, r);
    var c := Live(s0, Space(r.s, r.pd, {}), actions);
    NoTables(s0, kernelPd, r);
    LiveKeepsOpen(s0, Space(r.s, r.pd, {}), actions);
    hide Inv, Test, Frame, WellFormed;
    if Lookup(c.s.mem, c.pd, v).Some? {
      OpenEntry(c.s.mem[c.pd][v / ENTRIES]);
    }
  }

  lemma NoTables(s0: Vm, kernelPd: nat, r: Created)
    requires Shape(s0.mem) && kernelPd < MAX_PAGES && !IsTable(s0.mem, kernelPd, 0) && Shape(r.s.mem) && r.pd < MAX_PAGES
    requires forall i :: 0 <= i < 1024 ==> r.s.mem[r.pd][i] == if 1 <= i < 768 then 0 else s0.mem[kernelPd][i]
    ensures TablesOpen(r.s.mem, r.pd)
  {
  }

  lemma OpenEntry(e: Word)
    requires e % 8 == 7
    ensures Writable(e) && ForUser(e)
  {
  }

  // ---- A table in entry 0 of the kernel's directory ----------------------------------------

  // Freeing marks no page used, and the page it is meant for free.
  lemma FreeOnlyClears(m: Pmm, addr: Word, p: nat)
    requires Geometry(m) && !Test(m.bits, p)
    ensures !Test(FreePage(m, addr).bits, p)
  {
    hide Test, Clear;
    TestClear(m.bits, addr / PAGE_SIZE, p);
  }

  lemma FreeClears(m: Pmm, p: nat)
    requires Geometry(m) && p <= m.highest
    ensures p * PAGE_SIZE < 0x1_0000_0000 && !Test(FreePage(m, p * PAGE_SIZE).bits, p)
  {
    hide Test, Clear;
    TestClear(m.bits, p, p);
  }

  lemma {:induction false} FreeMappedOnlyClears(m: Pmm, t: Table, k: nat, p: nat)
    requires Geometry(m) && k <= |t| && !Test(m.bits, p)
    ensures !Test(FreeMapped(m, t, k).bits, p)
  {
    hide Test, FreePage, Geometry;
    if k > 0 {
      FreeMappedOnlyClears(m, t, k - 1, p);
      if Present(t[k - 1]) {
        FrameAddress(t[k - 1]);
        FreeOnlyClears(FreeMapped(m, t, k - 1), Frame(t[k - 1]) * PAGE_SIZE, p);
      }
    }
  }

  // Teardown frees the table behind entry 0, whoever else uses it.
  lemma {:induction false} FirstTableFreed(mem: Memory, m: Pmm, pd: nat, i: nat)
    requires Shape(mem) && Geometry(m) && pd < MAX_PAGES && 0 < i <= ENTRIES
    requires IsTable(mem, pd, 0) && TableOf(mem, pd, 0) <= m.highest
    ensures !Test(FreeTables(mem, m, pd, i).bits, TableOf(mem, pd, 0))
    decreases i
  {
    hide Test, FreePage, FreeMapped, Present, Large, Frame;
    var p := TableOf(mem, pd, 0);
    var before := FreeTables(mem, m, pd, i - 1);
    if i == 1 {
      FreeClears(FreeMapped(before, mem[p], ENTRIES), p);
    } else {
      FirstTableFreed(mem, m, pd, i - 1);
      var pt := TableOf(mem, pd, i - 1);
      if IsTable(mem, pd, i - 1) && pt < MAX_PAGES {
        FrameAddress(mem[pd][i - 1]);
        FreeMappedOnlyClears(before, mem[pt], ENTRIES, p);
        FreeOnlyClears(FreeMapped(before, mem[pt], ENTRIES), pt * PAGE_SIZE, p);
      }
    }
  }

  /**
   * Creating a user directory and destroying it at once restores the allocator if and only if
   * entry 0 of the kernel's directory, which both share, names no table.
   */
  lemma EmptyLifeRestoresIff(s0: Vm, kernelPd: nat)
    requires WellFormed(s0, kernelPd) && Geometry(s0.m) && CreateUserPd(s0, kernelPd).pd != 0
    requires IsTable(s0.mem, kernelPd, 0) ==> TableOf(s0.mem, kernelPd, 0) <= s0.m.highest
    ensures var r := CreateUserPd(s0, kernelPd);
      DestroyUserPd(r.s, r.pd) == s0.m <==> !IsTable(s0.mem, kernelPd, 0)
  {
    hide Inv, Test, FreeTables, Session, Live, FreePage, Present, Large, Frame, AllocPage, UserDirectory;
    var r := CreateUserPd(s0, kernelPd);
    if IsTable(s0.mem, kernelPd, 0) {
      var p := TableOf(s0.mem, kernelPd, 0);
      assert GoodTable(s0, kernelPd, 0);
      SharedEntry(s0, kernelPd, r);
      FirstTableFreed(r.s.mem, r.s.m, r.pd, KERNEL_PDE);
      FreeOnlyClears(FreeTables(r.s.mem, r.s.m, r.pd, KERNEL_PDE), r.pd * PAGE_SIZE, p);
    } else {
      LifeRestoresAllocator(s0, kernelPd, []);
      NoActions(s0, Space(r.s, r.pd, {}));
    }
  }

  lemma SharedEntry(s0: Vm, kernelPd: nat, r: Created)
    requires Shape(s0.mem) && Inv(s0.m) && Geometry(s0.m) && kernelPd < MAX_PAGES && r == CreateUserPd(s0, kernelPd)
    requires r.pd != 0
    ensures r.pd < MAX_PAGES && r.pd * PAGE_SIZE < 0x1_0000_0000 && r.s.mem[r.pd][0] == s0.mem[kernelPd][0]
    ensures r.s.m.highest == s0.m.highest
  {
    hide Inv, Test, AllocPage, FirstIn;
    AllocPageSpec(s0.m, 0);
  }

  lemma NoActions(s0: Vm, c: Space)
    requires Session(s0, c)
    ensures Live(s0, c, []) == c
  {
  }

  // The kernel's directory at page 0 with a table at page 1 behind entry 0.
  function SharedTable(): Vm {
    Vm(seq(MAX_PAGES, _ => Zeros())[0 := Zeros()[0 := Entry(1, 7)]], PmmRuns.Example())
  }

  lemma SharedTableExample() returns (s: Vm)
    ensures WellFormed(s, 0) && Geometry(s.m) && CreateUserPd(s, 0).pd != 0
    ensures DestroyUserPd(CreateUserPd(s, 0).s, CreateUserPd(s, 0).pd) != s.m
  {
    s := SharedTable();
    SharedTableWellFormed();
    hide Inv, Test, PmmRuns.Example, SharedTable, CreateUserPd, DestroyUserPd;
    CreateStarts(s, 0, CreateUserPd(s, 0));
    EmptyLifeRestoresIff(s, 0);
  }

  lemma SharedTableWellFormed()
    ensures var s := SharedTable();
      WellFormed(s, 0) && Geometry(s.m) && s.m.free > 0 && IsTable(s.mem, 0, 0) && TableOf(s.mem, 0, 0) == 1 <= s.m.highest
  {
    PmmRuns.ExampleBits();
    hide PmmRuns.Example, Test, Inv, FreeIn, Zeros;
    var s := SharedTable();
    PagesLeft(s.m);
    TableEntry(1);
    hide Entry;
    assert s.mem[0][0] == Entry(1, 7);
    assert forall i: nat :: 0 < i < ENTRIES ==> s.mem[0][i] == 0;
    InvGeometry(s.m);
  }

  lemma PagesLeft(m: Pmm)
    requires Inv(m) && !Test(m.bits, 256)
    ensures m.free > 0
  {
    hide Test, FreeIn;
    NoneFree(m.bits, 0, MAX_PAGES);
  }
}
