/**
 * Two-level paging over the page allocator (kernel/mm/vmm.c).  Physical memory is seen as
 * pages of 1024 words; a directory or table is one such page.  Entries keep a page number
 * in their upper 20 bits and flags in the lower 12.
 */
module VmmSpec {
  import opened Words
  import opened Basics
  import opened Bitmap
  import opened PmmSpec

  const ENTRIES := 1024
  const KERNEL_PDE := 768
  const USER_PAGES := 786432          // KERNEL_PDE * ENTRIES
  const VPAGES := 0x10_0000           // pages of the virtual address space

  type Table = seq<Word>
  type Memory = seq<Table>

  predicate Present(e: Word) { e % 2 == 1 }
  predicate Large(e: Word) { e / 128 % 2 == 1 }
  predicate Huge(e: Word) { Present(e) && Large(e) }   // a directory entry that maps 4 MB
  function Frame(e: Word): nat { e / PAGE_SIZE }

  type Flags = x: int | 0 <= x < 4096
  type VPage = x: int | 0 <= x < 0x10_0000

  // MAKE_PTE on a page number.
  function Entry(frame: VPage, flags: Flags): (e: Word)
    ensures Frame(e) == frame && (Present(e) <==> flags % 2 == 1)
  {
    frame * PAGE_SIZE + flags
  }

  predicate Shape(mem: Memory) {
    |mem| == MAX_PAGES && forall p :: 0 <= p < |mem| ==> |mem[p]| == ENTRIES
  }

  // The directory entry refers to a table (and not to a 4 MB page).
  predicate IsTable(mem: Memory, pd: nat, i: nat)
    requires Shape(mem) && pd < MAX_PAGES && i < ENTRIES
  {
    Present(mem[pd][i]) && !Large(mem[pd][i])
  }

  function TableOf(mem: Memory, pd: nat, i: nat): nat
    requires Shape(mem) && pd < MAX_PAGES && i < ENTRIES
  {
    Frame(mem[pd][i])
  }

  // The entry that maps virtual page v, if any; 4 MB entries are not looked into.
  function Lookup(mem: Memory, pd: nat, v: VPage): (r: Option<Word>)
    requires Shape(mem) && pd < MAX_PAGES
  {
    if !IsTable(mem, pd, v / ENTRIES) then None
    else
      var pt := TableOf(mem, pd, v / ENTRIES);
      if pt < MAX_PAGES && Present(mem[pt][v % ENTRIES]) then Some(mem[pt][v % ENTRIES]) else None
  }

  // The entry the code finds for page v: a 4 MB entry is taken for one that names a table.
  function Walk(mem: Memory, pd: nat, v: VPage): (r: Option<Word>)
    requires Shape(mem) && pd < MAX_PAGES
  {
    if !Present(mem[pd][v / ENTRIES]) then None
    else
      var pt := TableOf(mem, pd, v / ENTRIES);
      if pt < MAX_PAGES && Present(mem[pt][v % ENTRIES]) then Some(mem[pt][v % ENTRIES]) else None
  }

  // vmm_virt_to_phys.
  function Translate(mem: Memory, pd: nat, va: Word): (pa: Word)
    requires Shape(mem) && pd < MAX_PAGES
  {
    match Walk(mem, pd, va / PAGE_SIZE)
    case None => 0
    case Some(e) => Frame(e) * PAGE_SIZE + va % PAGE_SIZE
  }

  // Physical memory and the allocator that owns its pages.
  datatype Vm = Vm(mem: Memory, m: Pmm)

  predicate GoodTable(s: Vm, pd: nat, i: nat)
    requires Shape(s.mem) && pd < MAX_PAGES && i < ENTRIES
  {
    IsTable(s.mem, pd, i) ==>
      TableOf(s.mem, pd, i) < MAX_PAGES && TableOf(s.mem, pd, i) != pd && Test(s.m.bits, TableOf(s.mem, pd, i))
  }

  predicate TablesApart(mem: Memory, pd: nat, i: nat, j: nat)
    requires Shape(mem) && pd < MAX_PAGES && i < ENTRIES && j < ENTRIES
  {
    IsTable(mem, pd, i) && IsTable(mem, pd, j) && i != j ==> TableOf(mem, pd, i) != TableOf(mem, pd, j)
  }

  // The tables of a directory are distinct pages in use, none of them the directory.
  ghost predicate WellFormed(s: Vm, pd: nat) {
    && Shape(s.mem) && Inv(s.m) && pd < MAX_PAGES && Test(s.m.bits, pd)
    && (forall i: nat :: i < ENTRIES ==> GoodTable(s, pd, i))
    && (forall i: nat, j: nat :: i < ENTRIES && j < ENTRIES ==> TablesApart(s.mem, pd, i, j))
  }

  // A directory page in use without present entries is well-formed.
  lemma EmptyDirectoryWellFormed(s: Vm, pd: nat)
    requires Shape(s.mem) && Inv(s.m) && pd < MAX_PAGES && Test(s.m.bits, pd) && s.mem[pd] == Zeros()
    ensures WellFormed(s, pd)
  {
    hide Test, Inv;
    assert forall i: nat :: i < ENTRIES ==> !IsTable(s.mem, pd, i);
  }

  // ---- Operations -----------------------------------------------------------

  function Zeros(): (t: Table)
    ensures |t| == ENTRIES && forall i :: 0 <= i < ENTRIES ==> t[i] == 0
  {
    seq(ENTRIES, _ => 0)
  }

  function Write(mem: Memory, page: nat, i: nat, e: Word): (r: Memory)
    requires Shape(mem) && page < MAX_PAGES && i < ENTRIES
    ensures Shape(r)
  {
    var row: Table := mem[page][i := e];
    mem[page := row]
  }

  datatype Mapped = Mapped(s: Vm, rc: int)

  // The first half of vmm_map_page: make sure the table exists.
  function EnsureTable(s: Vm, pd: nat, i: nat): (r: Mapped)
    requires Shape(s.mem) && pd < MAX_PAGES && i < ENTRIES && Geometry(s.m)
    ensures Shape(r.s.mem) && Geometry(r.s.m)
  {
    if Present(s.mem[pd][i]) then Mapped(s, 0)
    else
      var a := AllocPage(s.m, 0);
      var pt := a.addr / PAGE_SIZE;
      if a.addr == 0 || pt >= MAX_PAGES then Mapped(Vm(s.mem, a.m), -1)
      else Mapped(Vm(Write(s.mem[pt := Zeros()], pd, i, Entry(pt, 7)), a.m), 0)
  }

  // vmm_map_page; beyond the pages of `mem` there is nothing to write.
  function MapPage(s: Vm, pd: nat, v: VPage, frame: VPage, flags: Flags): (r: Mapped)
    requires Shape(s.mem) && pd < MAX_PAGES && Geometry(s.m)
    ensures Shape(r.s.mem) && Geometry(r.s.m)
  {
    var t := EnsureTable(s, pd, v / ENTRIES);
    if t.rc != 0 || TableOf(t.s.mem, pd, v / ENTRIES) >= MAX_PAGES then Mapped(t.s, -1)
    else Mapped(t.s.(mem := Write(t.s.mem, TableOf(t.s.mem, pd, v / ENTRIES), v % ENTRIES, Entry(frame, flags))), 0)
  }

  // vmm_unmap_page: the address that was mapped, or 0.
  function UnmapPage(s: Vm, pd: nat, v: VPage): (r: Vm)
    requires Shape(s.mem) && pd < MAX_PAGES
    ensures Shape(r.mem) && r.m == s.m
  {
    if Walk(s.mem, pd, v) == None then s
    else s.(mem := Write(s.mem, TableOf(s.mem, pd, v / ENTRIES), v % ENTRIES, 0))
  }

  // ---- What one mapping changes --------------------------------------------

  // The table for entry i exists, is in use, and nothing visible changed.
  lemma EnsureTableKeeps(s: Vm, pd: nat, i: nat, r: Mapped)
    requires WellFormed(s, pd) && i < ENTRIES && !Huge(s.mem[pd][i]) && r == EnsureTable(s, pd, i)
    ensures r.rc == 0 || r.rc == -1
    ensures r.rc == -1 <==> s.m.free == 0 && !Present(s.mem[pd][i])
    ensures r.rc == -1 ==> r.s == s
    ensures WellFormed(r.s, pd) && r.s.m.highest == s.m.highest
    ensures r.rc == 0 ==> IsTable(r.s.mem, pd, i)
    ensures forall j: nat :: j < ENTRIES && j != i ==> r.s.mem[pd][j] == s.mem[pd][j]
    ensures forall q: nat :: q < MAX_PAGES && q != pd && Test(s.m.bits, q) ==> r.s.mem[q] == s.mem[q] && Test(r.s.m.bits, q)
    ensures r.rc == 0 && !Present(s.mem[pd][i]) ==>
      var pt := TableOf(r.s.mem, pd, i);
      pt < MAX_PAGES && r.s.mem[pt] == Zeros() && !Test(s.m.bits, pt) && LOW_PAGES <= pt <= s.m.highest
      && forall p: nat :: Test(r.s.m.bits, p) <==> (p == pt || Test(s.m.bits, p))
    ensures Present(s.mem[pd][i]) ==> r.s == s
  {
    hide Test, AllocPage, FreeIn, Zeros, FirstIn, Inv;
    assert Geometry(s.m) by { InvGeometry(s.m); }
    if !Present(s.mem[pd][i]) {
      var a := AllocPage(s.m, 0);
      AllocPageSpec(s.m, 0);
      if a.addr != 0 {
        var pt := a.addr / PAGE_SIZE;
        assert !Test(s.m.bits, pt);
        FreshTable(s, pd, i, a, r.s);
      }
    }
  }

  lemma FreshTable(s: Vm, pd: nat, i: nat, a: Allocated, r: Vm)
    requires WellFormed(s, pd) && i < ENTRIES && !Present(s.mem[pd][i])
    requires a.addr != 0 && Granted(s.m, a, 1) && a.addr / PAGE_SIZE < MAX_PAGES
    requires r == Vm(Write(s.mem[a.addr / PAGE_SIZE := Zeros()], pd, i, Entry(a.addr / PAGE_SIZE, 7)), a.m)
    ensures WellFormed(r, pd) && IsTable(r.mem, pd, i) && TableOf(r.mem, pd, i) == a.addr / PAGE_SIZE
    ensures !Test(s.m.bits, a.addr / PAGE_SIZE) && r.mem[a.addr / PAGE_SIZE] == Zeros()
  {
    hide Test, FreeIn, Zeros, Inv, Present, Large, Frame, Entry;
    var pt := a.addr / PAGE_SIZE;
    assert !Test(s.m.bits, pt);
    TableEntry(pt);
    assert r.mem[pd] == s.mem[pd][i := Entry(pt, 7)];
    forall j: nat | j < ENTRIES ensures GoodTable(r, pd, j) {
      assert GoodTable(s, pd, j);
    }
    forall j: nat, k: nat | j < ENTRIES && k < ENTRIES ensures TablesApart(r.mem, pd, j, k) {
      assert TablesApart(s.mem, pd, j, k) && GoodTable(s, pd, j) && GoodTable(s, pd, k);
    }
  }

  lemma TableEntry(frame: VPage)
    ensures Present(Entry(frame, 7)) && !Large(Entry(frame, 7)) && Frame(Entry(frame, 7)) == frame
  {
  }

  // v now maps to e (absent if e is not present); every other page is as before.
  ghost predicate OnlyAt(before: Memory, after: Memory, pd: nat, v: VPage, e: Option<Word>)
    requires Shape(before) && Shape(after) && pd < MAX_PAGES
  {
    forall w: VPage :: Lookup(after, pd, w) == if w == v then e else Lookup(before, pd, w)
  }

  lemma EnsureTableInvisible(s: Vm, pd: nat, i: nat, r: Mapped, w: VPage)
    requires WellFormed(s, pd) && i < ENTRIES && !Huge(s.mem[pd][i]) && r == EnsureTable(s, pd, i)
    ensures Shape(r.s.mem) && Lookup(r.s.mem, pd, w) == Lookup(s.mem, pd, w)
  {
    hide Test, EnsureTable, Inv;
    EnsureTableKeeps(s, pd, i, r);
    var j := w / ENTRIES;
    assert GoodTable(s, pd, j) && GoodTable(r.s, pd, j);
    if j != i && IsTable(s.mem, pd, j) {
      assert r.s.mem[TableOf(s.mem, pd, j)] == s.mem[TableOf(s.mem, pd, j)];
    }
  }

  // A write into the table of one entry shows at one page only.
  lemma WriteShowsAt(s: Vm, pd: nat, v: VPage, e: Word, after: Memory)
    requires WellFormed(s, pd) && IsTable(s.mem, pd, v / ENTRIES) && TableOf(s.mem, pd, v / ENTRIES) < MAX_PAGES
    requires after == Write(s.mem, TableOf(s.mem, pd, v / ENTRIES), v % ENTRIES, e)
    ensures WellFormed(s.(mem := after), pd)
    ensures OnlyAt(s.mem, after, pd, v, if Present(e) then Some(e) else None)
    ensures after[pd] == s.mem[pd]
  {
    hide Test, Inv, Present, Large, Frame, Lookup;
    var pt := TableOf(s.mem, pd, v / ENTRIES);
    assert GoodTable(s, pd, v / ENTRIES);
    assert after[pd] == s.mem[pd];
    forall j: nat | j < ENTRIES ensures GoodTable(s.(mem := after), pd, j) {
      assert GoodTable(s, pd, j);
    }
    forall j: nat, k: nat | j < ENTRIES && k < ENTRIES ensures TablesApart(after, pd, j, k) {
      assert TablesApart(s.mem, pd, j, k);
    }
    forall w: VPage ensures Lookup(after, pd, w) == if w == v then (if Present(e) then Some(e) else None) else Lookup(s.mem, pd, w) {
      WriteShows(s, pd, v, e, after, w);
    }
  }

  lemma WriteShows(s: Vm, pd: nat, v: VPage, e: Word, after: Memory, w: VPage)
    requires WellFormed(s, pd) && IsTable(s.mem, pd, v / ENTRIES) && TableOf(s.mem, pd, v / ENTRIES) < MAX_PAGES
    requires after == Write(s.mem, TableOf(s.mem, pd, v / ENTRIES), v % ENTRIES, e)
    ensures Lookup(after, pd, w) == if w == v then (if Present(e) then Some(e) else None) else Lookup(s.mem, pd, w)
  {
    hide Test, Inv, Present, Large;
    var i, j := v / ENTRIES, w / ENTRIES;
    assert GoodTable(s, pd, i);
    assert after[pd] == s.mem[pd];
    if j == i {
      assert w == v <==> w % ENTRIES == v % ENTRIES;
    } else if IsTable(s.mem, pd, j) {
      assert TablesApart(s.mem, pd, j, i) && GoodTable(s, pd, j);
    }
  }

  /**
   * vmm_map_page: fails exactly when a table is missing and no page is free, and then
   * changes nothing; otherwise the translation changes at that page and nowhere else,
   * whether or not a table had to be allocated.
   */
  lemma MapPageChangesOnlyThatPage(s: Vm, pd: nat, v: VPage, frame: VPage, flags: Flags, r: Mapped)
    requires WellFormed(s, pd) && !Huge(s.mem[pd][v / ENTRIES]) && r == MapPage(s, pd, v, frame, flags)
    ensures r.rc == -1 <==> s.m.free == 0 && !Present(s.mem[pd][v / ENTRIES])
    ensures r.rc == -1 ==> r.s == s
    ensures r.rc != -1 ==> r.rc == 0 && OnlyAt(s.mem, r.s.mem, pd, v, if flags % 2 == 1 then Some(Entry(frame, flags)) else None)
    ensures WellFormed(r.s, pd) && r.s.m.highest == s.m.highest
    ensures forall j: nat :: j < ENTRIES && j != v / ENTRIES ==> r.s.mem[pd][j] == s.mem[pd][j]
    ensures r.rc == 0 ==> IsTable(r.s.mem, pd, v / ENTRIES)
  {
    hide Test, Inv, EnsureTable, Lookup, Entry;
    assert Geometry(s.m) by { InvGeometry(s.m); }
    var i := v / ENTRIES;
    var t := EnsureTable(s, pd, i);
    EnsureTableKeeps(s, pd, i, t);
    if t.rc == 0 {
      assert GoodTable(t.s, pd, i);
      WriteShowsAt(t.s, pd, v, Entry(frame, flags), r.s.mem);
      forall w: VPage ensures Lookup(t.s.mem, pd, w) == Lookup(s.mem, pd, w) {
        EnsureTableInvisible(s, pd, i, t, w);
      }
    }
  }

  // vmm_unmap_page: the translation changes at that page and nowhere else.
  lemma UnmapChangesOnlyThatPage(s: Vm, pd: nat, v: VPage)
    requires WellFormed(s, pd) && !Huge(s.mem[pd][v / ENTRIES])
    ensures WellFormed(UnmapPage(s, pd, v), pd)
    ensures OnlyAt(s.mem, UnmapPage(s, pd, v).mem, pd, v, None)
    ensures UnmapPage(s, pd, v).mem[pd] == s.mem[pd]
  {
    hide Large;
    if Lookup(s.mem, pd, v) != None {
      WriteShowsAt(s, pd, v, 0, UnmapPage(s, pd, v).mem);
    }
  }

  // Mapping an unmapped page and unmapping it again leaves every translation as it was.
  lemma UnmapUndoesMap(s: Vm, pd: nat, v: VPage, frame: VPage, flags: Flags, w: VPage)
    requires WellFormed(s, pd) && !Huge(s.mem[pd][v / ENTRIES]) && Lookup(s.mem, pd, v) == None
    ensures Geometry(s.m)
    ensures var r := MapPage(s, pd, v, frame, flags);
      Lookup(UnmapPage(r.s, pd, v).mem, pd, w) == Lookup(s.mem, pd, w)
  {
    hide Test, MapPage, UnmapPage, Lookup, Inv;
    assert Geometry(s.m) by { InvGeometry(s.m); }
    var r := MapPage(s, pd, v, frame, flags);
    MapPageChangesOnlyThatPage(s, pd, v, frame, flags, r);
    UnmapChangesOnlyThatPage(r.s, pd, v);
    assert r.rc != -1 ==> r.rc == 0;
  }

  // ---- Rights -------------------------------------------------------------------------

  predicate Writable(e: Word) { e / 2 % 2 == 1 }
  predicate ForUser(e: Word) { e / 4 % 2 == 1 }

  // The processor grants a right to a page only if directory and table both grant it.
  predicate MayWrite(mem: Memory, pd: nat, v: VPage)
    requires Shape(mem) && pd < MAX_PAGES
  {
    Lookup(mem, pd, v).Some? && Writable(mem[pd][v / ENTRIES]) && Writable(Lookup(mem, pd, v).value)
  }

  predicate UserMay(mem: Memory, pd: nat, v: VPage)
    requires Shape(mem) && pd < MAX_PAGES
  {
    Lookup(mem, pd, v).Some? && ForUser(mem[pd][v / ENTRIES]) && ForUser(Lookup(mem, pd, v).value)
  }

  /**
   * A mapped page has the rights asked for if and only if the table it lies in does not
   * withhold them; a table made for the page withholds none.
   */
  lemma MapGrantsIff(s: Vm, pd: nat, v: VPage, frame: VPage, flags: Flags, r: Mapped)
    requires WellFormed(s, pd) && !Huge(s.mem[pd][v / ENTRIES]) && r == MapPage(s, pd, v, frame, flags)
    requires r.rc == 0 && flags % 2 == 1
    ensures var e := s.mem[pd][v / ENTRIES];
      && (MayWrite(r.s.mem, pd, v) <==> flags / 2 % 2 == 1 && (Present(e) ==> Writable(e)))
      && (UserMay(r.s.mem, pd, v) <==> flags / 4 % 2 == 1 && (Present(e) ==> ForUser(e)))
  {
    EntryOf(s, pd, v, frame, flags, r);
    hide Test, Inv, MapPage, Lookup, Entry, Large, Writable, ForUser;
    MapPageChangesOnlyThatPage(s, pd, v, frame, flags, r);
  }

  lemma EntryOf(s: Vm, pd: nat, v: VPage, frame: VPage, flags: Flags, r: Mapped)
    requires WellFormed(s, pd) && !Huge(s.mem[pd][v / ENTRIES]) && r == MapPage(s, pd, v, frame, flags)
    requires r.rc == 0
    ensures var e := r.s.mem[pd][v / ENTRIES];
      if Present(s.mem[pd][v / ENTRIES]) then e == s.mem[pd][v / ENTRIES] else e % 8 == 7 && Writable(e) && ForUser(e)
    ensures Writable(Entry(frame, flags)) == Writable(flags) && ForUser(Entry(frame, flags)) == ForUser(flags)
  {
    hide Test, Inv, AllocPage, Large, FirstIn;
    assert Geometry(s.m) by { InvGeometry(s.m); }
    EntryBits(frame, flags);
    var t := EnsureTable(s, pd, v / ENTRIES);
    EnsureTableKeeps(s, pd, v / ENTRIES, t);
    assert GoodTable(t.s, pd, v / ENTRIES);
    if !Present(s.mem[pd][v / ENTRIES]) {
      EntryBits(AllocPage(s.m, 0).addr / PAGE_SIZE, 7);
    }
  }

  lemma EntryBits(frame: VPage, flags: Flags)
    ensures Entry(frame, flags) % 8 == flags % 8
    ensures Writable(Entry(frame, flags)) == Writable(flags) && ForUser(Entry(frame, flags)) == ForUser(flags)
  {
    assert Entry(frame, flags) == 8 * (512 * frame) + flags;
    LowBits(512 * frame, flags);
  }

  lemma LowBits(q: nat, f: nat)
    ensures (8 * q + f) % 8 == f % 8
    ensures (8 * q + f) / 2 % 2 == f / 2 % 2
    ensures (8 * q + f) / 4 % 2 == f / 4 % 2
  {
    Multiple(q, f, 8);
    Multiple(4 * q, f, 2);
    Multiple(2 * q, f, 4);
    Multiple(2 * q, f / 2, 2);
    Multiple(q, f / 4, 2);
  }

  lemma Multiple(q: nat, f: nat, d: nat)
    requires d == 2 || d == 4 || d == 8
    ensures (d * q + f) / d == q + f / d && (d * q + f) % d == f % d
  {
  }

  // ---- 4 MB entries --------------------------------------------------------------

  // Outside 4 MB entries vmm_virt_to_phys answers what the tables map.
  lemma TranslateIsLookup(mem: Memory, pd: nat, va: Word)
    requires Shape(mem) && pd < MAX_PAGES && !Huge(mem[pd][va / PAGE_SIZE / ENTRIES])
    ensures Translate(mem, pd, va) ==
      match Lookup(mem, pd, va / PAGE_SIZE)
      case None => 0
      case Some(e) => Frame(e) * PAGE_SIZE + va % PAGE_SIZE
  {
  }

  // Under one, mapping and unmapping write into the data it maps and no translation appears.
  lemma HugeIsOverwritten(s: Vm, pd: nat, v: VPage, frame: VPage, flags: Flags)
    requires Shape(s.mem) && Geometry(s.m) && pd < MAX_PAGES && Huge(s.mem[pd][v / ENTRIES])
    requires var data := Frame(s.mem[pd][v / ENTRIES]); data < MAX_PAGES && data != pd
    ensures var r, data := MapPage(s, pd, v, frame, flags), Frame(s.mem[pd][v / ENTRIES]);
      && r.rc == 0 && r.s.mem[data][v % ENTRIES] == Entry(frame, flags)
      && Lookup(r.s.mem, pd, v) == None
      && UnmapPage(r.s, pd, v).mem[data][v % ENTRIES] == (if flags % 2 == 1 then 0 else Entry(frame, flags))
  {
    hide Large;
  }

  // Directory page 1 maps the 4 MB from page 1024 at 0; virtual page 5 is mapped to page 7.
  lemma HugeExample(m: Pmm)
    requires Geometry(m)
    ensures var e: Word := 0x40_0083;
      var s := Vm(seq(MAX_PAGES, _ => Zeros())[1 := Zeros()[0 := e]], m);
      var r := MapPage(s, 1, 5, 7, 3);
      Shape(s.mem) && r.rc == 0 && r.s.mem[1024][5] == 0x7003 && Lookup(r.s.mem, 1, 5) == None
  {
    var e: Word := 0x40_0083;
    var s := Vm(seq(MAX_PAGES, _ => Zeros())[1 := Zeros()[0 := e]], m);
    assert s.mem[1][0] == e && Huge(e) && Frame(e) == 1024;
    hide Lookup, MapPage, Huge, Zeros;
    HugeIsOverwritten(s, 1, 5, 7, 3);
  }

  /**
   * A mapping that vmm_map_page reports as made is made if and only if no 4 MB entry covers
   * the page.
   */
  lemma MapTakesEffectIff(s: Vm, pd: nat, v: VPage, frame: VPage, flags: Flags, r: Mapped)
    requires WellFormed(s, pd) && flags % 2 == 1
    requires Geometry(s.m) && r == MapPage(s, pd, v, frame, flags) && r.rc == 0
    requires var e := s.mem[pd][v / ENTRIES]; Huge(e) ==> Frame(e) < MAX_PAGES && Frame(e) != pd
    ensures Lookup(r.s.mem, pd, v) == Some(Entry(frame, flags)) <==> !Huge(s.mem[pd][v / ENTRIES])
  {
    hide Test, Inv, MapPage, Lookup, Huge, Entry;
    if Huge(s.mem[pd][v / ENTRIES]) {
      HugeIsOverwritten(s, pd, v, frame, flags);
    } else {
      MapPageChangesOnlyThatPage(s, pd, v, frame, flags, r);
    }
  }

  // ---- Ranges -----------------------------------------------------------------

  function Next(v: VPage): VPage { (v + 1) % VPAGES }

  // vmm_map_range with n pages left; both addresses advance with 32-bit wrap-around.
  function MapRange(s: Vm, pd: nat, v: VPage, frame: VPage, n: nat, flags: Flags): (r: Mapped)
    requires Shape(s.mem) && pd < MAX_PAGES && Geometry(s.m)
    ensures Shape(r.s.mem)
    decreases n
  {
    if n == 0 then Mapped(s, 0)
    else
      var t := MapPage(s, pd, v, frame, flags);
      if t.rc != 0 then Mapped(t.s, -1)
      else MapRange(t.s, pd, Next(v), Next(frame), n - 1, flags)
  }

  // The number of pages for a size in bytes; the 32-bit rounding sum wraps.
  function PageCount(size: Word): (n: nat)
    ensures n < VPAGES
  {
    Wrap(size + PAGE_SIZE - 1) / PAGE_SIZE
  }

  // The count covers the size with no page too many, unless the sum wraps to no page at all.
  lemma PageCountIff(size: Word)
    ensures 4096 * PageCount(size) >= size <==> size <= 0xFFFF_F000
    ensures size <= 0xFFFF_F000 ==> size > 4096 * (PageCount(size) - 1)
    ensures size > 0xFFFF_F000 ==> PageCount(size) == 0
  {
  }

  /**
   * vmm_map_range rounds the address down and the size up, each by itself: the pages it maps
   * hold all the bytes asked for if and only if what precedes the first byte in its page and
   * what the size leaves over fit into one page together.
   */
  lemma RangeCoversIff(vaddr: Word, size: Word)
    ensures (forall b: nat :: b < size ==> PageAt(vaddr % 4096, b) < PageCount(size)) <==>
      size == 0 || (size <= 0xFFFF_F000 && vaddr % 4096 + (size - 1) % 4096 < 4096)
  {
    PageCountIff(size);
    if size > 0 {
      LastByte(vaddr % 4096, size - 1);
      assert PageAt(vaddr % 4096, size - 1) < PageCount(size) || !(forall b: nat :: b < size ==> PageAt(vaddr % 4096, b) < PageCount(size));
    }
  }

  // Which page of a range byte b lies in, the first byte being at the offset.
  function PageAt(offset: nat, b: nat): nat { (offset + b) / 4096 }

  lemma LastByte(offset: nat, last: nat)
    requires offset < 4096
    ensures forall b: nat :: b <= last ==> PageAt(offset, b) <= PageAt(offset, last)
    ensures PageAt(offset, last) == last / 4096 + (if offset + last % 4096 < 4096 then 0 else 1)
  {
  }

  // One byte at the end of a page and one at the start of the next.
  lemma StraddlingExample()
    ensures PageCount(2) == 1 && !(forall b: nat :: b < 2 ==> PageAt(0x1FFF % 4096, b) < PageCount(2))
  {
    RangeCoversIff(0x1FFF, 2);
  }

  // How far page w lies past page v, going round.
  function Past(v: VPage, w: VPage): (d: VPage) { (w - v) % VPAGES }

  lemma PastNext(v: VPage, w: VPage, d: nat)
    ensures Past(v, w) == 0 <==> w == v
    ensures w != v ==> Past(Next(v), w) == Past(v, w) - 1
    ensures w == v ==> Past(Next(v), w) == VPAGES - 1
    ensures (Next(v) + d) % VPAGES == (v + d + 1) % VPAGES
  {
  }

  // done pages from v on map to consecutive frames, all others are as before.
  ghost predicate RangeMapped(before: Memory, after: Memory, pd: nat, v: VPage, frame: VPage, done: nat, flags: Flags)
    requires Shape(before) && Shape(after) && pd < MAX_PAGES
  {
    forall w: VPage :: Lookup(after, pd, w) ==
      if Past(v, w) < done then
        (if flags % 2 == 1 then Some(Entry((frame + Past(v, w)) % VPAGES, flags)) else None)
      else Lookup(before, pd, w)
  }

  function At(v: VPage, k: nat): VPage { (v + k) % VPAGES }

  // None of the n pages from v on lies under a 4 MB directory entry.
  predicate SmallRange(mem: Memory, pd: nat, v: VPage, n: nat)
    requires Shape(mem) && pd < MAX_PAGES
  {
    forall k: nat :: k < n ==> !Huge(mem[pd][At(v, k) / ENTRIES])
  }

  /**
   * vmm_map_range: some number of pages from the start is mapped, all of them exactly when
   * it reports success, and no other translation changes.
   */
  lemma {:induction false} MapRangeChangesOnlyRange(s: Vm, pd: nat, v: VPage, frame: VPage, n: nat, flags: Flags, r: Mapped)
    returns (done: nat)
    requires WellFormed(s, pd) && n < VPAGES && SmallRange(s.mem, pd, v, n)
    requires r == MapRange(s, pd, v, frame, n, flags)
    ensures done <= n && (r.rc == 0 <==> done == n) && (r.rc == 0 || r.rc == -1)
    ensures r.rc == -1 ==> r.s.m.free == 0
    ensures WellFormed(r.s, pd) && RangeMapped(s.mem, r.s.mem, pd, v, frame, done, flags)
    decreases n
  {
    hide Test, Inv, MapPage, Lookup, Entry, Large, Past, Next, At;
    assert Geometry(s.m) by { InvGeometry(s.m); }
    if n == 0 {
      done := 0;
    } else {
      var t := MapPage(s, pd, v, frame, flags);
      assert At(v, 0) == v by { AtNext(v, 0); }
      MapPageChangesOnlyThatPage(s, pd, v, frame, flags, t);
      if t.rc != 0 {
        done := 0;
      } else {
        RestSmall(s.mem, t.s.mem, pd, v, n);
        var rest := MapRangeChangesOnlyRange(t.s, pd, Next(v), Next(frame), n - 1, flags, r);
        done := rest + 1;
        RangeGrows(s.mem, t.s.mem, r.s.mem, pd, v, frame, rest, flags);
      }
    }
  }

  lemma AtNext(v: VPage, k: nat)
    ensures At(v, 0) == v && At(Next(v), k) == At(v, k + 1)
  {
  }

  lemma RestSmall(before: Memory, after: Memory, pd: nat, v: VPage, n: nat)
    requires Shape(before) && Shape(after) && pd < MAX_PAGES && 0 < n
    requires SmallRange(before, pd, v, n) && IsTable(after, pd, v / ENTRIES)
    requires forall j: nat :: j < ENTRIES && j != v / ENTRIES ==> after[pd][j] == before[pd][j]
    ensures SmallRange(after, pd, Next(v), n - 1)
  {
    hide Large, Present, At, Next;
    forall k: nat | k < n - 1 ensures !Huge(after[pd][At(Next(v), k) / ENTRIES]) {
      AtNext(v, k);
      assert !Huge(before[pd][At(v, k + 1) / ENTRIES]);
    }
  }

  lemma RangeGrows(a: Memory, b: Memory, c: Memory, pd: nat, v: VPage, frame: VPage, rest: nat, flags: Flags)
    requires Shape(a) && Shape(b) && Shape(c) && pd < MAX_PAGES && rest < VPAGES - 1
    requires OnlyAt(a, b, pd, v, if flags % 2 == 1 then Some(Entry(frame, flags)) else None)
    requires RangeMapped(b, c, pd, Next(v), Next(frame), rest, flags)
    ensures RangeMapped(a, c, pd, v, frame, rest + 1, flags)
  {
    hide Lookup, Entry, Past, Next;
    forall w: VPage ensures Lookup(c, pd, w) ==
      if Past(v, w) < rest + 1 then
        (if flags % 2 == 1 then Some(Entry((frame + Past(v, w)) % VPAGES, flags)) else None)
      else Lookup(a, pd, w)
    {
      PastNext(v, w, 0);
      if w != v { PastNext(frame, frame, Past(v, w) - 1); }
    }
  }
}
