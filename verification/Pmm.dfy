/** The page allocator of kernel/mm/pmm.c: its bitmap, counters and scans, updated in place. */
module PmmObject {
  import opened Words
  import opened Bitmap
  import opened PmmSpec
  import PmmRuns

  class PageAllocator {
    const bitmap: array<bv8>
    var freePages: Word
    var highest: Word
    var nodes: seq<Node>

    function View(): Pmm
      reads this, bitmap
    {
      Pmm(bitmap[..], freePages, highest, nodes)
    }

    // ---- bitmap_set, bitmap_clear, bitmap_test ----

    method BitmapSet(pfn: nat)
      modifies bitmap
      ensures bitmap[..] == Set(old(bitmap[..]), pfn)
    {
      if pfn / 8 < bitmap.Length {
        bitmap[pfn / 8] := bitmap[pfn / 8] | Mask(pfn % 8);
      }
    }

    method BitmapClear(pfn: nat)
      modifies bitmap
      ensures bitmap[..] == Clear(old(bitmap[..]), pfn)
    {
      if pfn / 8 < bitmap.Length {
        bitmap[pfn / 8] := bitmap[pfn / 8] & !Mask(pfn % 8);
      }
    }

    method BitmapTest(pfn: nat) returns (used: bool)
      ensures used == Test(bitmap[..], pfn)
    {
      if pfn / 8 < bitmap.Length {
        return bitmap[pfn / 8] & Mask(pfn % 8) != 0;
      }
      return true;
    }

    method SetRun(s: nat, count: nat)
      modifies bitmap
      ensures bitmap[..] == SetRange(old(bitmap[..]), s, count)
    {
      hide Set;
      var i := 0;
      while i < count
        invariant 0 <= i <= count
        invariant bitmap[..] == SetRange(old(bitmap[..]), s, i)
      {
        BitmapSet(s + i);
        i := i + 1;
      }
    }

    // ---- pmm_init ----

    constructor (regions: seq<PmmRuns.Region>, kernelStart: Word, kernelEnd: Word)
      ensures fresh(bitmap) && View() == PmmRuns.PmmInit(regions, kernelStart, kernelEnd)
    {
      hide PmmRuns.SetupNodes, PmmRuns.Reserve, PmmRuns.ReserveSpan, PmmRuns.InitBitmap, PmmRuns.AllUsed;
      bitmap := new bv8[BITMAP_SIZE](_ => 0xFF);
      freePages := 0;
      highest := 0;
      nodes := [];
      new;
      ghost var boot := PmmRuns.InitBitmap(regions);
      assert bitmap[..] == PmmRuns.AllUsed() by { AllOnes(bitmap[..]); }
      InitBitmap(regions);
      ReserveRange(0, 0x100000);
      ReserveRange(kernelStart, Wrap(kernelEnd - kernelStart));
      SetupNodes();
    }

    method InitBitmap(regions: seq<PmmRuns.Region>)
      requires bitmap[..] == PmmRuns.AllUsed() && freePages == 0 && highest == 0
      modifies bitmap, this`freePages, this`highest
      ensures PmmRuns.Boot(bitmap[..], freePages, highest) == PmmRuns.InitBitmap(regions)
    {
      hide PmmRuns.SpanOf, PmmRuns.ClearSpan;
      var r := 0;
      assert regions[..0] == [];
      while r < |regions|
        invariant 0 <= r <= |regions|
        invariant PmmRuns.Boot(bitmap[..], freePages, highest) == PmmRuns.InitBitmap(regions[..r])
      {
        assert regions[..r + 1][..r] == regions[..r];
        ClearRegion(regions[r]);
        r := r + 1;
      }
      assert regions[..r] == regions;
    }

    method ClearRegion(region: PmmRuns.Region)
      requires highest < MAX_PAGES
      modifies bitmap, this`freePages, this`highest
      ensures PmmRuns.Boot(bitmap[..], freePages, highest)
           == PmmRuns.ClearSpan(old(PmmRuns.Boot(bitmap[..], freePages, highest)), PmmRuns.SpanOf(region))
    {
      ghost var span := PmmRuns.SpanOf(region);
      if !region.available { WrapSmall(freePages); return; }
      var base := PmmRuns.AlignUp(region.base);
      var end := PmmRuns.AlignDown(Wrap(region.base + region.length));
      if end <= base { WrapSmall(freePages); return; }
      var pfn, last := base / PAGE_SIZE, end / PAGE_SIZE;
      if last > MAX_PAGES { last := MAX_PAGES; }
      if last <= pfn { WrapSmall(freePages); return; }
      assert span == PmmRuns.Span(pfn, last);
      ClearPages(pfn, last);
    }

    method ClearPages(start: nat, end: nat)
      requires highest < MAX_PAGES && start < end <= MAX_PAGES
      modifies bitmap, this`freePages, this`highest
      ensures PmmRuns.Boot(bitmap[..], freePages, highest)
           == PmmRuns.ClearSpan(old(PmmRuns.Boot(bitmap[..], freePages, highest)), PmmRuns.Span(start, end))
    {
      hide Clear, ClearRange, Wrap;
      var pfn := start;
      ClearNone(bitmap[..], start);
      WrapSmall(freePages);
      while pfn < end
        invariant start <= pfn <= end
        invariant bitmap[..] == ClearRange(old(bitmap[..]), start, pfn - start)
        invariant freePages == Wrap(old(freePages) + (pfn - start))
        invariant highest == if start < pfn && pfn - 1 > old(highest) then pfn - 1 else old(highest)
      {
        ClearMore(old(bitmap[..]), start, pfn - start);
        BitmapClear(pfn);
        WrapMore(old(freePages) + (pfn - start));
        freePages := Wrap(freePages + 1);
        if pfn > highest { highest := pfn; }
        pfn := pfn + 1;
      }
      WrapSmall(end - 1);
    }

    method ReserveRange(base: Word, length: Word)
      modifies bitmap, this`freePages
      ensures PmmRuns.Boot(bitmap[..], freePages, highest)
           == PmmRuns.Reserve(old(PmmRuns.Boot(bitmap[..], freePages, highest)), PmmRuns.ReserveSpan(base, length))
    {
      hide Set, Test, FreeIn, SetRange, Wrap;
      var start := PmmRuns.AlignDown(base) / PAGE_SIZE;
      var end := PmmRuns.AlignUp(Wrap(base + length)) / PAGE_SIZE;
      if end > MAX_PAGES { end := MAX_PAGES; }
      ghost var was := bitmap[..];
      SetNone(was, start);
      FreeInEmpty(was, start, end);
      WrapSmall(freePages);
      var pfn := start;
      while pfn < end
        invariant start <= pfn && (start <= end ==> pfn <= end) && (end < start ==> pfn == start)
        invariant bitmap[..] == SetRange(was, start, pfn - start)
        invariant freePages == Wrap(old(freePages) - FreeIn(was, start, pfn))
      {
        SetMore(was, start, pfn - start);
        FreeInMore(was, start, pfn);
        TestSetRange(was, start, pfn - start, pfn);
        var used := BitmapTest(pfn);
        if !used {
          BitmapSet(pfn);
          WrapLess(old(freePages) - FreeIn(was, start, pfn));
          freePages := Wrap(freePages - 1);
        } else {
          SetAgain(bitmap[..], pfn);
        }
        pfn := pfn + 1;
      }
    }

    method SetupNodes()
      requires highest < MAX_PAGES
      modifies this`nodes
      ensures View() == PmmRuns.SetupNodes(old(PmmRuns.Boot(bitmap[..], freePages, highest)))
    {
      hide Test, FreeIn, Wrap;
      var edge := Wrap(LOW_PAGES + Wrap(highest - LOW_PAGES + 1) / 2);
      var free0, free1 := 0, 0;
      var pfn := LOW_PAGES;
      ghost var lo1 := if edge < LOW_PAGES then LOW_PAGES else edge;
      FreeInEmpty(bitmap[..], LOW_PAGES, LOW_PAGES);
      FreeInEmpty(bitmap[..], lo1, pfn);
      while pfn <= highest
        invariant LOW_PAGES <= pfn && (pfn <= highest + 1 || pfn == LOW_PAGES)
        invariant free0 == FreeIn(bitmap[..], LOW_PAGES, if edge < pfn then edge else pfn)
        invariant free1 == FreeIn(bitmap[..], lo1, pfn)
      {
        var used := BitmapTest(pfn);
        FreeInMore(bitmap[..], LOW_PAGES, pfn);
        FreeInMore(bitmap[..], lo1, pfn);
        FreeInEmpty(bitmap[..], lo1, pfn + 1);
        if !used {
          if pfn < edge { free0 := free0 + 1; } else { free1 := free1 + 1; }
        }
        pfn := pfn + 1;
      }
      FreeInEmpty(bitmap[..], LOW_PAGES, if edge < highest + 1 then edge else highest + 1);
      FreeInEmpty(bitmap[..], lo1, highest + 1);
      nodes := [Node(LOW_PAGES, edge, Wrap(free0), Wrap(edge - LOW_PAGES - free0)),
                Node(edge, Wrap(highest + 1), Wrap(free1), Wrap(highest + 1 - edge - free1))];
    }

    // ---- Allocation ----

    method AllocFromNode(node: nat) returns (addr: nat)
      requires Geometry(View())
      modifies bitmap, this`freePages, this`nodes
      ensures Allocated(View(), addr) == PmmSpec.AllocFromNode(old(View()), node)
    {
      hide Test, Set, Wrap, FirstRun, RunAt;
      if node >= 2 { return 0; }
      var n := nodes[node];
      var pfn := n.start;
      while pfn < n.end
        invariant n.start <= pfn <= n.end && View() == old(View())
        invariant FirstRun(bitmap[..], n.start, n.end, 1) == FirstRun(bitmap[..], pfn, n.end, 1)
      {
        var used := BitmapTest(pfn);
        FirstOne(bitmap[..], pfn, n.end);
        if !used {
          SetNone(bitmap[..], pfn);
          SetMore(bitmap[..], pfn, 0);
          BitmapSet(pfn);
          freePages := Wrap(freePages - 1);
          nodes := nodes[node := Charge(n, 1)];
          return pfn * PAGE_SIZE;
        }
        pfn := pfn + 1;
      }
      FirstOneNone(bitmap[..], n.end);
      return 0;
    }

    method AllocPage(node: Byte) returns (addr: nat)
      requires Geometry(View())
      modifies bitmap, this`freePages, this`nodes
      ensures Allocated(View(), addr) == PmmSpec.AllocPage(old(View()), node)
    {
      hide FirstRun, Take;
      if node == NODE_ANY {
        addr := AllocFromNode(0);
        if addr != 0 { return; }
        NoAddressNoChange(old(View()), 0);
        addr := AllocFromNode(1);
        return;
      }
      var home := if node >= 2 then 0 else node;
      addr := AllocFromNode(home);
      if addr != 0 { return; }
      NoAddressNoChange(old(View()), home);
      var i := 0;
      while i < 2
        invariant 0 <= i <= 2
        invariant Allocated(View(), addr) ==
          if i <= 1 - home then Allocated(old(View()), 0) else PmmSpec.AllocFromNode(old(View()), 1 - home)
        invariant addr == 0
      {
        if i != home {
          addr := AllocFromNode(i);
          if addr != 0 { return; }
        }
        i := i + 1;
      }
    }

    // The skip-ahead search, with 32-bit sums, finds what a search from every start would.
    method FindRun(lo: nat, hi: nat, count: Word) returns (s: nat)
      requires bitmap.Length == BITMAP_SIZE && lo <= hi <= MAX_PAGES && 2 <= count
      ensures s == FirstRun(bitmap[..], lo, hi, count)
    {
      hide Test, FirstRun;
      var start := lo;
      while (start + count) % 0x1_0000_0000 <= hi
        invariant lo <= start
        invariant start <= MAX_PAGES + 1 || (count >= 0x1_0000_0000 - MAX_PAGES - 1 && start <= 2 * MAX_PAGES + 3)
        invariant FirstRun(bitmap[..], lo, hi, count) == if start <= hi then FirstRun(bitmap[..], start, hi, count) else hi
        decreases 2 * MAX_PAGES + 4 - start
      {
        var i := FirstUsed(start, count);
        if i == count {
          FirstRunHere(bitmap[..], start, hi, count);
          return start;
        }
        SkipTo(bitmap[..], start, hi, count, start + i);
        start := start + i + 1;
      }
      FirstRunTooLong(bitmap[..], start, hi, count);
      return hi;
    }

    // The inner loop: how many pages from start are free, up to count.
    method FirstUsed(start: nat, count: nat) returns (i: nat)
      requires bitmap.Length == BITMAP_SIZE
      ensures i <= count && RunAt(bitmap[..], start, i)
      ensures i < count ==> Test(bitmap[..], start + i)
      ensures 0 < i ==> start + i <= MAX_PAGES
    {
      hide Mask;
      i := 0;
      while i < count
        invariant i <= count
        invariant RunAt(bitmap[..], start, i)
        invariant 0 < i ==> start + i <= MAX_PAGES
      {
        var used := BitmapTest(start + i);
        if used { break; }
        i := i + 1;
      }
    }

    method TakePages(node: nat, s: nat, count: nat)
      requires node < |nodes|
      modifies bitmap, this`freePages, this`nodes
      ensures View() == Take(old(View()), node, s, count)
    {
      hide SetRange, Wrap;
      SetRun(s, count);
      freePages := Wrap(freePages - count);
      nodes := nodes[node := Charge(nodes[node], count)];
    }

    /**
     * pmm_alloc_pages.  On a named node the source calls itself on the other node when the
     * search fails, so it returns only if some node has the run (AllocPagesReturnsIffRunExists).
     */
    method AllocPages(count: Word, node: Byte) returns (addr: nat)
      requires Geometry(View())
      requires count < 2 || node == NODE_ANY || HasRun(View(), count)
      modifies bitmap, this`freePages, this`nodes
      ensures AllocPagesWithin(old(View()), count, node, 1) == Returned(Allocated(View(), addr))
      decreases if 2 <= count && node != NODE_ANY && TakeRun(View(), Preferred(node), count).addr == 0 then 1 else 0
    {
      hide FirstRun, Take, PmmSpec.AllocPage, HasRun;
      if count == 0 { return 0; }
      if count == 1 {
        addr := AllocPage(node);
        return;
      }
      if node == NODE_ANY {
        var s := FindRun(LOW_PAGES, highest + 1, count);
        if s < highest + 1 {
          var target := AddrToNode(s);
          TakePages(target, s, count);
          return s * PAGE_SIZE;
        }
        return 0;
      }
      var home := if node >= 2 then 0 else node;
      var s := FindRun(nodes[home].start, nodes[home].end, count);
      if s < nodes[home].end {
        TakePages(home, s, count);
        return s * PAGE_SIZE;
      }
      OtherNodeHasRun(View(), count, home);
      addr := AllocPages(count, 1 - home);
      OtherReturns(old(View()), count, home);
    }

    method AddrToNode(pfn: nat) returns (node: nat)
      requires Geometry(View())
      ensures node == NodeOf(View(), pfn)
    {
      var i := 0;
      while i < 2
        invariant 0 <= i <= 2
        invariant forall j :: 0 <= j < i ==> !(nodes[j].start <= pfn < nodes[j].end)
      {
        if nodes[i].start <= pfn < nodes[i].end { return i; }
        i := i + 1;
      }
      return 0;
    }

    // ---- Freeing ----

    method FreePage(addr: Word)
      requires Geometry(View())
      modifies bitmap, this`freePages, this`nodes
      ensures View() == PmmSpec.FreePage(old(View()), addr)
    {
      hide Test, Clear, Wrap;
      var pfn := addr / PAGE_SIZE;
      if pfn > highest { return; }
      var used := BitmapTest(pfn);
      if !used { return; }
      BitmapClear(pfn);
      freePages := Wrap(freePages + 1);
      GiveBackBits(old(View()), pfn);
      var node := AddrToNode(pfn);
      nodes := nodes[node := Charge(nodes[node], -1)];
    }

    method FreePages(addr: Word, count: nat)
      requires Geometry(View())
      modifies bitmap, this`freePages, this`nodes
      ensures View() == PmmSpec.FreePages(old(View()), addr, count)
    {
      hide Geometry, PmmSpec.FreePage;
      var i := 0;
      while i < count
        invariant 0 <= i <= count
        invariant Geometry(View()) && View() == PmmSpec.FreePages(old(View()), addr, i)
      {
        FreePage(Wrap(addr + i * PAGE_SIZE));
        i := i + 1;
      }
    }
  }

  // ---- Small facts the loops use ----

  lemma WrapLess(x: int) ensures Wrap(Wrap(x) - 1) == Wrap(x - 1) { }

  lemma WrapMore(x: int) ensures Wrap(Wrap(x) + 1) == Wrap(x + 1) { }

  lemma AllOnes(b: Bits)
    requires |b| == BITMAP_SIZE && forall i :: 0 <= i < |b| ==> b[i] == 0xFF
    ensures b == PmmRuns.AllUsed()
  {
  }

  lemma ClearNone(b: Bits, s: nat) ensures ClearRange(b, s, 0) == b { }

  lemma ClearMore(b: Bits, s: nat, n: nat) ensures ClearRange(b, s, n + 1) == Clear(ClearRange(b, s, n), s + n) { }

  lemma SetNone(b: Bits, s: nat) ensures SetRange(b, s, 0) == b { }

  lemma SetMore(b: Bits, s: nat, n: nat) ensures SetRange(b, s, n + 1) == Set(SetRange(b, s, n), s + n) { }

  lemma SetAgain(b: Bits, p: nat)
    requires Test(b, p)
    ensures Set(b, p) == b
  {
    hide Test, Set;
    forall q: nat ensures Test(Set(b, p), q) <==> Test(b, q) { TestSet(b, p, q); }
    TestSet(b, p, p);
    SameBits(Set(b, p), b);
  }

  lemma FreeInEmpty(b: Bits, lo: nat, hi: nat)
    ensures hi <= lo ==> FreeIn(b, lo, hi) == 0
  {
  }

  lemma FreeInMore(b: Bits, lo: nat, p: nat)
    ensures lo <= p ==> FreeIn(b, lo, p + 1) == FreeIn(b, lo, p) + (if Test(b, p) then 0 else 1)
  {
  }

  lemma FirstOne(b: Bits, lo: nat, hi: nat)
    requires lo < hi
    ensures FirstRun(b, lo, hi, 1) == if Test(b, lo) then FirstRun(b, lo + 1, hi, 1) else lo
  {
    hide Test;
  }

  lemma FirstOneNone(b: Bits, hi: nat)
    ensures FirstRun(b, hi, hi, 1) == hi
  {
  }

  lemma FirstRunHere(b: Bits, lo: nat, hi: nat, count: nat)
    requires RunAt(b, lo, count) && 0 < count && hi <= 8 * |b|
    requires (lo + count) % 0x1_0000_0000 <= hi && lo + count <= 8 * |b| < 0x1_0000_0000
    ensures lo <= hi && FirstRun(b, lo, hi, count) == lo
  {
  }

  lemma FirstRunTooLong(b: Bits, lo: nat, hi: nat, count: nat)
    requires lo + count > hi
    ensures lo <= hi ==> FirstRun(b, lo, hi, count) == hi
  {
  }

  lemma SkipTo(b: Bits, lo: nat, hi: nat, count: nat, p: nat)
    requires lo <= p < lo + count && Test(b, p)
    ensures lo <= hi ==> FirstRun(b, lo, hi, count) == if p + 1 <= hi then FirstRun(b, p + 1, hi, count) else hi
  {
    hide Test;
    if lo <= hi {
      if lo + count <= hi {
        SkipPast(b, lo, hi, count, p);
      } else {
        FirstRunTooLong(b, lo, hi, count);
        FirstRunTooLong(b, p + 1, hi, count);
      }
    }
  }

  lemma NoAddressNoChange(m: Pmm, node: nat)
    requires Geometry(m)
    ensures PmmSpec.AllocFromNode(m, node).addr == 0 ==> PmmSpec.AllocFromNode(m, node).m == m
  {
    hide Take, Test;
  }

  lemma OtherNodeHasRun(m: Pmm, count: Word, home: nat)
    requires Geometry(m) && 2 <= count && home < 2 && HasRun(m, count) && TakeRun(m, home, count).addr == 0
    ensures TakeRun(m, 1 - home, count).addr != 0
  {
    hide RunAt, Take;
    FirstRunIsLeftmost(m.bits, m.nodes[home].start, m.nodes[home].end, count);
    FirstRunIsLeftmost(m.bits, m.nodes[1 - home].start, m.nodes[1 - home].end, count);
  }

  // A nested call that finds its run at once needs no deeper one.
  lemma OtherReturns(m: Pmm, count: Word, home: nat)
    requires Geometry(m) && 2 <= count && home < 2 && TakeRun(m, home, count).addr == 0
    requires TakeRun(m, 1 - home, count).addr != 0
    ensures AllocPagesWithin(m, count, home, 1) == AllocPagesWithin(m, count, 1 - home, 1)
  {
    hide TakeRun;
    assert AllocPagesWithin(m, count, 1 - home, 0) == AllocPagesWithin(m, count, 1 - home, 1);
  }
}
