/** kernel/mm/vmm.c as an object: page tables written in place, pages from the page allocator. */
module VmmObject {
  import opened Words
  import opened Basics
  import opened PmmSpec
  import opened VmmSpec
  import VmmLife
  import opened PmmObject

  class AddressSpaces {
    var mem: Memory
    const frames: PageAllocator
    var active: nat               // page number of the directory in CR3

    constructor (memory: Memory, allocator: PageAllocator, directory: nat)
      ensures mem == memory && frames == allocator && active == directory
    {
      mem, frames, active := memory, allocator, directory;
    }

    ghost function View(): Vm
      reads this, frames, frames.bitmap
    {
      Vm(mem, frames.View())
    }

    // The loop that zeroes a new table.
    method ClearTable(page: nat)
      requires Shape(mem) && page < MAX_PAGES
      modifies this`mem
      ensures Shape(mem) && mem == old(mem)[page := Zeros()]
    {
      var i := 0;
      while i < ENTRIES
        invariant 0 <= i <= ENTRIES && Shape(mem)
        invariant forall q :: 0 <= q < MAX_PAGES && q != page ==> mem[q] == old(mem)[q]
        invariant forall j :: 0 <= j < i ==> mem[page][j] == 0
      {
        mem := Write(mem, page, i, 0);
        i := i + 1;
      }
      assert mem[page] == Zeros();
    }

    method MapPage(va: Word, pa: Word, flags: Flags) returns (rc: int)
      requires WellFormed(View(), active) && Reaches(mem, active, va / PAGE_SIZE)
      modifies this`mem, frames, frames.bitmap
      ensures Geometry(old(frames.View()))
      ensures Mapped(View(), rc) == VmmSpec.MapPage(old(View()), active, va / PAGE_SIZE, pa / PAGE_SIZE, flags)
    {
      hide AllocPage, Inv, Present, Large, Frame, Zeros;
      var pde, pte := va / PAGE_SIZE / ENTRIES, va / PAGE_SIZE % ENTRIES;
      InvGeometry(frames.View());
      ghost var t := EnsureTable(View(), active, pde);
      EnsureBound(View(), active, pde, t);
      if !Present(mem[active][pde]) {
        var ptPhys := frames.AllocPage(0);
        AllocBound(old(frames.View()));
        if ptPhys == 0 { return -1; }
        ClearTable(ptPhys / PAGE_SIZE);
        mem := Write(mem, active, pde, Entry(ptPhys / PAGE_SIZE, 7));
      }
      assert View() == t.s;
      var pt := Frame(mem[active][pde]);
      if Present(mem[pt][pte]) && Frame(mem[pt][pte]) == pa / PAGE_SIZE {
        mem := Write(mem, pt, pte, Entry(pa / PAGE_SIZE, flags));
        return 0;
      }
      mem := Write(mem, pt, pte, Entry(pa / PAGE_SIZE, flags));
      return 0;
    }

    method MapRange(vaddr: Word, paddr: Word, size: Word, flags: Flags) returns (rc: int)
      requires WellFormed(View(), active)
      requires SmallRange(mem, active, vaddr / PAGE_SIZE, PageCount(size))
      modifies this`mem, frames, frames.bitmap
      ensures Geometry(old(frames.View()))
      ensures Mapped(View(), rc)
           == VmmSpec.MapRange(old(View()), active, vaddr / PAGE_SIZE, paddr / PAGE_SIZE, PageCount(size), flags)
    {
      hide VmmSpec.MapPage, WellFormed, SmallRange, Inv;
      InvGeometry2(View(), active);
      var va: Word, pa: Word := vaddr - vaddr % PAGE_SIZE, paddr - paddr % PAGE_SIZE;
      var pages := PageCount(size);
      var i := 0;
      while i < pages
        invariant 0 <= i <= pages && va % PAGE_SIZE == 0 && pa % PAGE_SIZE == 0
        invariant WellFormed(View(), active) && Shape(mem) && active < MAX_PAGES && Geometry(frames.View())
        invariant SmallRange(mem, active, va / PAGE_SIZE, pages - i)
        invariant VmmSpec.MapRange(old(View()), active, vaddr / PAGE_SIZE, paddr / PAGE_SIZE, pages, flags)
               == VmmSpec.MapRange(View(), active, va / PAGE_SIZE, pa / PAGE_SIZE, pages - i, flags)
      {
        ghost var before := View();
        FirstIsSmall(mem, active, va / PAGE_SIZE, pages - i);
        rc := MapPage(va, pa, flags);
        MapPageChangesOnlyThatPage(before, active, va / PAGE_SIZE, pa / PAGE_SIZE, flags, Mapped(View(), rc));
        InvGeometry2(View(), active);
        if rc != 0 { return -1; }
        RestSmall(before.mem, mem, active, va / PAGE_SIZE, pages - i);
        NextPage(va);
        NextPage(pa);
        va, pa := Wrap(va + PAGE_SIZE), Wrap(pa + PAGE_SIZE);
        i := i + 1;
      }
      return 0;
    }

    method UnmapPage(va: Word) returns (pa: Word)
      requires WellFormed(View(), active) && Reaches(mem, active, va / PAGE_SIZE)
      modifies this`mem
      ensures View() == VmmSpec.UnmapPage(old(View()), active, va / PAGE_SIZE)
      ensures pa == match Walk(old(mem), active, va / PAGE_SIZE) case None => 0 case Some(e) => Frame(e) * PAGE_SIZE
    {
      hide Inv;
      var pde, pte := va / PAGE_SIZE / ENTRIES, va / PAGE_SIZE % ENTRIES;
      if !Present(mem[active][pde]) { return 0; }
      var pt := Frame(mem[active][pde]);
      TableBound(View(), active, pde);
      if !Present(mem[pt][pte]) { return 0; }
      pa := Frame(mem[pt][pte]) * PAGE_SIZE;
      mem := Write(mem, pt, pte, 0);
    }

    method VirtToPhys(va: Word) returns (pa: Word)
      requires WellFormed(View(), active) && Reaches(mem, active, va / PAGE_SIZE)
      ensures pa == Translate(mem, active, va)
    {
      hide Inv;
      var pde, pte := va / PAGE_SIZE / ENTRIES, va / PAGE_SIZE % ENTRIES;
      if !Present(mem[active][pde]) { return 0; }
      var pt := Frame(mem[active][pde]);
      TableBound(View(), active, pde);
      if !Present(mem[pt][pte]) { return 0; }
      return Frame(mem[pt][pte]) * PAGE_SIZE + va % PAGE_SIZE;
    }

    method CreateUserPd(kernelPd: nat) returns (pd: nat)
      requires Shape(mem) && Inv(frames.View()) && kernelPd < MAX_PAGES && Bitmap.Test(frames.View().bits, kernelPd)
      modifies this`mem, frames, frames.bitmap
      ensures Geometry(old(frames.View()))
      ensures VmmLife.Created(View(), pd) == VmmLife.CreateUserPd(old(View()), kernelPd)
      ensures Shape(mem) && pd < MAX_PAGES
      ensures pd != 0 ==> forall i :: 0 <= i < 1024 ==> mem[pd][i] == if 1 <= i < 768 then 0 else old(mem)[kernelPd][i]
    {
      hide AllocPage, Inv, VmmLife.UserDirectory, Bitmap.Test;
      InvGeometry(frames.View());
      AllocBound(frames.View());
      var phys := frames.AllocPage(0);
      if phys == 0 { return 0; }
      pd := phys / PAGE_SIZE;
      ghost var kernel := mem[kernelPd];
      ghost var was, taken := mem, frames.View();
      var i := 1;
      while i < KERNEL_PDE
        invariant 1 <= i <= KERNEL_PDE && Shape(mem)
        invariant frames.View() == taken
        invariant forall q :: 0 <= q < MAX_PAGES && q != pd ==> mem[q] == was[q]
        invariant forall j :: 1 <= j < i ==> mem[pd][j] == 0
      {
        mem := Write(mem, pd, i, 0);
        i := i + 1;
      }
      mem := Write(mem, pd, 0, mem[kernelPd][0]);
      while i < ENTRIES
        invariant KERNEL_PDE <= i <= ENTRIES && Shape(mem)
        invariant frames.View() == taken
        invariant forall q :: 0 <= q < MAX_PAGES && q != pd ==> mem[q] == was[q]
        invariant mem[pd][0] == kernel[0]
        invariant forall j :: 1 <= j < KERNEL_PDE ==> mem[pd][j] == 0
        invariant forall j :: KERNEL_PDE <= j < i ==> mem[pd][j] == kernel[j]
      {
        mem := Write(mem, pd, i, mem[kernelPd][i]);
        i := i + 1;
      }
      assert mem[pd] == VmmLife.UserDirectory(kernel);
      assert mem == was[pd := VmmLife.UserDirectory(kernel)];
    }

    // The inner loop of the teardown.
    method FreeMapped(pt: nat)
      requires Shape(mem) && pt < MAX_PAGES && Geometry(frames.View())
      modifies frames, frames.bitmap
      ensures frames.View() == VmmLife.FreeMapped(old(frames.View()), mem[pt], ENTRIES)
    {
      hide FreePage, Present, Frame, Geometry;
      var j := 0;
      while j < ENTRIES
        invariant 0 <= j <= ENTRIES
        invariant Geometry(frames.View()) && frames.View() == VmmLife.FreeMapped(old(frames.View()), mem[pt], j)
      {
        if Present(mem[pt][j]) {
          VmmLife.FrameAddress(mem[pt][j]);
          frames.FreePage(Frame(mem[pt][j]) * PAGE_SIZE);
        }
        j := j + 1;
      }
    }

    method DestroyUserPd(pd: nat)
      requires WellFormed(View(), pd)
      modifies frames, frames.bitmap
      ensures Geometry(old(frames.View()))
      ensures frames.View() == VmmLife.DestroyUserPd(old(View()), pd)
    {
      hide FreePage, Present, Large, Frame, Geometry, Inv, VmmLife.FreeMapped, Bitmap.Test;
      InvGeometry(frames.View());
      ghost var s := View();
      var i := 0;
      while i < KERNEL_PDE
        invariant 0 <= i <= KERNEL_PDE
        invariant Geometry(frames.View()) && frames.View() == VmmLife.FreeTables(mem, s.m, pd, i)
      {
        if Present(mem[pd][i]) && !Large(mem[pd][i]) {
          var pt := Frame(mem[pd][i]);
          TableBound(s, pd, i);
          VmmLife.FrameAddress(mem[pd][i]);
          FreeMapped(pt);
          frames.FreePage(pt * PAGE_SIZE);
        }
        i := i + 1;
      }
      frames.FreePage(pd * PAGE_SIZE);
    }
  }

  // What the directory entry of page v refers to, a table or 4 MB of data, lies in the memory.
  predicate Reaches(mem: Memory, pd: nat, v: VPage)
    requires Shape(mem) && pd < MAX_PAGES
  {
    Huge(mem[pd][v / ENTRIES]) ==> Frame(mem[pd][v / ENTRIES]) < MAX_PAGES
  }

  lemma EnsureBound(s: Vm, pd: nat, i: nat, t: Mapped)
    requires WellFormed(s, pd) && i < ENTRIES && (Huge(s.mem[pd][i]) ==> Frame(s.mem[pd][i]) < MAX_PAGES)
    requires Geometry(s.m) && t == EnsureTable(s, pd, i)
    ensures t.rc == 0 ==> TableOf(t.s.mem, pd, i) < MAX_PAGES
    ensures Present(s.mem[pd][i]) ==> t.s == s && t.rc == 0
    ensures t.rc == 0 || (t.rc == -1 && t.s == s && s.m.free == 0)
  {
    hide Inv, Large, Frame, EnsureTable;
    if Huge(s.mem[pd][i]) {
      assert t == Mapped(s, 0) by { HugeHasTable(s, pd, i); }
    } else {
      EnsureTableKeeps(s, pd, i, t);
      TableBound(t.s, pd, i);
    }
  }

  lemma HugeHasTable(s: Vm, pd: nat, i: nat)
    requires Shape(s.mem) && pd < MAX_PAGES && i < ENTRIES && Geometry(s.m) && Present(s.mem[pd][i])
    ensures EnsureTable(s, pd, i) == Mapped(s, 0)
  {
  }

  lemma TableBound(s: Vm, pd: nat, i: nat)
    requires WellFormed(s, pd) && i < ENTRIES
    ensures IsTable(s.mem, pd, i) ==> TableOf(s.mem, pd, i) < MAX_PAGES && TableOf(s.mem, pd, i) != pd
  {
    assert GoodTable(s, pd, i);
  }

  lemma AllocBound(m: Pmm)
    requires Inv(m)
    ensures Geometry(m) && AllocPage(m, 0).addr / PAGE_SIZE < MAX_PAGES
    ensures AllocPage(m, 0).addr != 0 ==> AllocPage(m, 0).addr / PAGE_SIZE != 0
    ensures AllocPage(m, 0).addr != 0 ==> !Bitmap.Test(m.bits, AllocPage(m, 0).addr / PAGE_SIZE)
  {
    hide AllocPage, FirstIn, Bitmap.Test;
    AllocPageSpec(m, 0);
  }

  lemma InvGeometry2(s: Vm, pd: nat)
    requires WellFormed(s, pd)
    ensures Shape(s.mem) && pd < MAX_PAGES && Geometry(s.m)
  {
  }

  lemma FirstIsSmall(mem: Memory, pd: nat, v: VPage, n: nat)
    requires Shape(mem) && pd < MAX_PAGES && SmallRange(mem, pd, v, n) && 0 < n
    ensures !Huge(mem[pd][v / ENTRIES])
  {
    AtNext(v, 0);
    assert !Huge(mem[pd][At(v, 0) / ENTRIES]);
  }

  lemma NextPage(a: Word)
    requires a % PAGE_SIZE == 0
    ensures Wrap(a + PAGE_SIZE) % PAGE_SIZE == 0 && Wrap(a + PAGE_SIZE) / PAGE_SIZE == Next(a / PAGE_SIZE)
  {
  }
}
