/**
 * Whole lives of the page allocator: how kernel/mm/pmm.c builds it at boot from the memory
 * map, and what every later sequence of requests conserves.
 */
module PmmRuns {
  import opened Words
  import opened Bitmap
  import opened PmmSpec

  // ---- Boot -------------------------------------------------------------------

  const MAX_REGIONS := 32

  datatype Region = Region(base: Word, length: Word, available: bool)

  // A half-open range of page numbers.
  datatype Span = Span(start: nat, end: nat)

  function AlignDown(a: Word): (r: Word)
    ensures r <= a
  {
    a - a % PAGE_SIZE
  }

  function AlignUp(a: Word): (r: Word) { AlignDown(Wrap(a + PAGE_SIZE - 1)) }

  // The whole pages of an available region below the limit; 32-bit sums wrap.
  function SpanOf(r: Region): (s: Span)
    ensures s.start <= s.end <= MAX_PAGES
  {
    var base := AlignUp(r.base);
    var end := AlignDown(Wrap(r.base + r.length));
    if !r.available || end <= base then Span(0, 0)
    else
      var last := if end / PAGE_SIZE > MAX_PAGES then MAX_PAGES else end / PAGE_SIZE;
      if last <= base / PAGE_SIZE then Span(0, 0) else Span(base / PAGE_SIZE, last)
  }

  datatype Boot = Boot(bits: Bits, free: Word, highest: Word)

  function AllUsed(): (b: Bits)
    ensures |b| == BITMAP_SIZE
  {
    seq(BITMAP_SIZE, _ => 0xFF)
  }

  function ClearSpan(b: Boot, s: Span): (r: Boot)
    requires s.start <= s.end <= MAX_PAGES && b.highest < MAX_PAGES
    ensures |r.bits| == |b.bits| && r.highest < MAX_PAGES
  {
    var n := s.end - s.start;
    Boot(ClearRange(b.bits, s.start, n), Wrap(b.free + n),
         if s.start < s.end && s.end - 1 > b.highest then Wrap(s.end - 1) else b.highest)
  }

  function InitBitmap(regions: seq<Region>): (b: Boot)
    ensures |b.bits| == BITMAP_SIZE && b.highest < MAX_PAGES
  {
    hide SpanOf, AllUsed, ClearSpan;
    if regions == [] then Boot(AllUsed(), 0, 0)
    else ClearSpan(InitBitmap(regions[..|regions| - 1]), SpanOf(regions[|regions| - 1]))
  }

  // The page range that pmm_reserve_range walks.
  function ReserveSpan(base: Word, length: Word): (s: Span) {
    var end := AlignUp(Wrap(base + length)) / PAGE_SIZE;
    Span(AlignDown(base) / PAGE_SIZE, if end > MAX_PAGES then MAX_PAGES else end)
  }

  function Size(s: Span): nat { if s.start < s.end then s.end - s.start else 0 }

  function Reserve(b: Boot, s: Span): Boot {
    b.(bits := SetRange(b.bits, s.start, Size(s)), free := Wrap(b.free - FreeIn(b.bits, s.start, s.end)))
  }

  function SetupNodes(b: Boot): (m: Pmm) {
    var edge := Wrap(LOW_PAGES + Wrap(b.highest - LOW_PAGES + 1) / 2);
    var end := b.highest + 1;
    var free0 := FreeIn(b.bits, LOW_PAGES, if edge < end then edge else end);
    var free1 := FreeIn(b.bits, if edge < LOW_PAGES then LOW_PAGES else edge, end);
    Pmm(b.bits, b.free, b.highest,
        [Node(LOW_PAGES, edge, Wrap(free0), Wrap(edge - LOW_PAGES - free0)),
         Node(edge, Wrap(end), Wrap(free1), Wrap(end - edge - free1))])
  }

  function ReserveKernel(b: Boot, kernelStart: Word, kernelEnd: Word): Boot {
    Reserve(Reserve(b, ReserveSpan(0, 0x100000)), ReserveSpan(kernelStart, Wrap(kernelEnd - kernelStart)))
  }

  function PmmInit(regions: seq<Region>, kernelStart: Word, kernelEnd: Word): Pmm {
    SetupNodes(ReserveKernel(InitBitmap(regions), kernelStart, kernelEnd))
  }

  predicate Apart(s: Span, t: Span) {
    s.end <= t.start || t.end <= s.start || Size(s) == 0 || Size(t) == 0
  }

  predicate DisjointSpans(regions: seq<Region>) {
    forall i, j :: 0 <= i < j < |regions| ==> Apart(SpanOf(regions[i]), SpanOf(regions[j]))
  }

  predicate Covered(regions: seq<Region>, p: nat) {
    exists i :: 0 <= i < |regions| && SpanOf(regions[i]).start <= p < SpanOf(regions[i]).end
  }

  lemma CoveredSnoc(regions: seq<Region>, p: nat)
    requires regions != []
    ensures var last := SpanOf(regions[|regions| - 1]);
      Covered(regions, p) <==> Covered(regions[..|regions| - 1], p) || last.start <= p < last.end
  {
    hide SpanOf;
    var front := regions[..|regions| - 1];
    assert forall i :: 0 <= i < |front| ==> front[i] == regions[i];
  }

  // A page is free after init_bitmap exactly if some available region holds it whole.
  lemma {:induction false} InitBits(regions: seq<Region>)
    ensures forall p: nat :: Test(InitBitmap(regions).bits, p) <==> !Covered(regions, p)
    ensures forall p: nat :: Covered(regions, p) ==> p <= InitBitmap(regions).highest
    decreases |regions|
  {
    hide Test, SpanOf, Covered, InitBitmap;
    forall p: nat
      ensures Test(InitBitmap(regions).bits, p) <==> !Covered(regions, p)
      ensures Covered(regions, p) ==> p <= InitBitmap(regions).highest
    {
      InitBit(regions, p);
    }
  }

  lemma {:induction false} InitBit(regions: seq<Region>, p: nat)
    ensures Test(InitBitmap(regions).bits, p) <==> !Covered(regions, p)
    ensures Covered(regions, p) ==> p <= InitBitmap(regions).highest
    decreases |regions|
  {
    hide Test, SpanOf, Covered, ClearRange, Wrap;
    if regions == [] {
      AllUsedTest(p, regions);
    } else {
      var front, last := regions[..|regions| - 1], SpanOf(regions[|regions| - 1]);
      InitBit(front, p);
      CoveredSnoc(regions, p);
      TestClearRange(InitBitmap(front).bits, last.start, last.end - last.start, p);
      WrapSmall(last.end - 1);
    }
  }

  lemma AllUsedTest(p: nat, none: seq<Region>)
    requires none == []
    ensures Test(AllUsed(), p) && !Covered(none, p)
  {
    if p / 8 < BITMAP_SIZE {
      assert AllUsed()[p / 8] == 0xFF;
      MaskBits(0xFF, p % 8, p % 8);
      assert 0xFF | Mask(p % 8) == 0xFF;
    }
  }

  // Clearing a range frees the bits of it that were set.
  lemma {:induction false} FreeInClearRange(b: Bits, s: nat, n: nat, hi: nat)
    requires s + n <= hi <= 8 * |b|
    ensures FreeIn(ClearRange(b, s, n), 0, hi) == FreeIn(b, 0, hi) + n - FreeIn(b, s, s + n)
  {
    hide Test, Clear;
    if n > 0 {
      var c := ClearRange(b, s, n - 1);
      var p := s + n - 1;
      FreeInClearRange(b, s, n - 1, hi);
      TestClearRange(b, s, n - 1, p);
      if Test(b, p) {
        FreeInClear(c, 0, hi, p);
      } else {
        forall q: nat ensures Test(Clear(c, p), q) <==> Test(c, q) { TestClear(c, p, q); }
        FreeInSame(Clear(c, p), c, 0, hi);
      }
    }
  }

  // free_pages counts every region's pages, so it equals the clear bits exactly if no two overlap.
  lemma {:induction false} InitCountIffDisjoint(regions: seq<Region>)
    requires |regions| <= MAX_REGIONS
    ensures var b := InitBitmap(regions);
      FreeIn(b.bits, 0, MAX_PAGES) <= b.free <= |regions| * MAX_PAGES
      && (b.free == FreeIn(b.bits, 0, MAX_PAGES) <==> DisjointSpans(regions))
    decreases |regions|
  {
    hide Test, SpanOf, FreeIn, Covered, Wrap, Apart, ClearRange, AllUsed;
    if regions == [] {
      NoneFree(AllUsed(), 0, MAX_PAGES);
      forall p: nat ensures Test(AllUsed(), p) { AllUsedTest(p, regions); }
    } else {
      var front, last := regions[..|regions| - 1], SpanOf(regions[|regions| - 1]);
      var a := InitBitmap(front);
      hide DisjointSpans;
      InitCountIffDisjoint(front);
      FreeInClearRange(a.bits, last.start, last.end - last.start, MAX_PAGES);
      WrapSmall(a.free + last.end - last.start);
      DisjointSnoc(regions);
      OverlapIffFree(front, last);
    }
  }

  lemma DisjointSnoc(regions: seq<Region>)
    requires regions != []
    ensures var front := regions[..|regions| - 1];
      DisjointSpans(regions) <==>
      (DisjointSpans(front) && forall i :: 0 <= i < |front| ==> Apart(SpanOf(front[i]), SpanOf(regions[|regions| - 1])))
  {
    hide SpanOf, Apart;
    var front := regions[..|regions| - 1];
    assert forall i :: 0 <= i < |front| ==> front[i] == regions[i];
  }

  lemma OverlapIffFree(front: seq<Region>, s: Span)
    requires s.start <= s.end
    ensures FreeIn(InitBitmap(front).bits, s.start, s.end) == 0
            <==> forall i :: 0 <= i < |front| ==> Apart(SpanOf(front[i]), s)
  {
    hide Test, SpanOf, FreeIn, InitBitmap;
    InitBits(front);
    NoneFree(InitBitmap(front).bits, s.start, s.end);
    if p: nat :| s.start <= p < s.end && !Test(InitBitmap(front).bits, p) {
      assert Covered(front, p);
      var i :| 0 <= i < |front| && SpanOf(front[i]).start <= p < SpanOf(front[i]).end;
      assert !Apart(SpanOf(front[i]), s);
    } else {
      forall i | 0 <= i < |front| ensures Apart(SpanOf(front[i]), s) {
        var t := SpanOf(front[i]);
        var p := if t.start < s.start then s.start else t.start;
        assert t.start <= p < t.end ==> Covered(front, p);
      }
    }
  }

  // ---- Reserving ------------------------------------------------------------------

  lemma ReserveSpec(b: Boot, s: Span)
    requires s.end <= MAX_PAGES && FreeIn(b.bits, 0, MAX_PAGES) <= b.free
    ensures var r := Reserve(b, s);
      |r.bits| == |b.bits| && r.highest == b.highest
      && (forall p: nat :: Test(r.bits, p) <==> (s.start <= p < s.end || Test(b.bits, p)))
      && r.free - FreeIn(r.bits, 0, MAX_PAGES) == b.free - FreeIn(b.bits, 0, MAX_PAGES)
  {
    hide Test, FreeIn;
    var r := Reserve(b, s);
    forall p: nat ensures Test(r.bits, p) <==> (s.start <= p < s.end || Test(b.bits, p)) {
      TestSetRange(b.bits, s.start, Size(s), p);
    }
    if s.start < s.end {
      FreeOutside(b.bits, r.bits, s);
      WrapSmall(b.free - FreeIn(b.bits, s.start, s.end));
    } else {
      FreeInSame(b.bits, r.bits, 0, MAX_PAGES);
      NoneFree(b.bits, s.start, s.end);
      WrapSmall(b.free);
    }
  }

  lemma FreeOutside(b: Bits, r: Bits, s: Span)
    requires s.start < s.end <= MAX_PAGES
    requires forall p: nat :: Test(r, p) <==> (s.start <= p < s.end || Test(b, p))
    ensures FreeIn(r, 0, MAX_PAGES) == FreeIn(b, 0, MAX_PAGES) - FreeIn(b, s.start, s.end)
  {
    hide Test, FreeIn;
    FreeInSplit(b, 0, s.start, MAX_PAGES);
    FreeInSplit(b, s.start, s.end, MAX_PAGES);
    FreeInSplit(r, 0, s.start, MAX_PAGES);
    FreeInSplit(r, s.start, s.end, MAX_PAGES);
    FreeInSame(b, r, 0, s.start);
    FreeInSame(b, r, s.end, MAX_PAGES);
    NoneFree(r, s.start, s.end);
  }

  // The map makes some page at or above page k available.
  ghost predicate ReachesUpTo(regions: seq<Region>, k: nat) { exists p: nat :: p >= k && Covered(regions, p) }

  lemma {:induction false} HighestIff(regions: seq<Region>, k: nat)
    requires k > 0
    ensures InitBitmap(regions).highest >= k <==> ReachesUpTo(regions, k)
    decreases |regions|
  {
    hide SpanOf, Covered;
    if regions == [] {
      NothingCovered();
    } else {
      var front, last := regions[..|regions| - 1], SpanOf(regions[|regions| - 1]);
      HighestIff(front, k);
      HighestStep(InitBitmap(front), last);
      assert InitBitmap(regions) == ClearSpan(InitBitmap(front), last);
      hide InitBitmap, ClearSpan;
      if last.start < last.end && k <= last.end - 1 { CoveredSnoc(regions, last.end - 1); }
      if ReachesUpTo(front, k) {
        var p: nat :| p >= k && Covered(front, p);
        CoveredSnoc(regions, p);
      }
      if ReachesUpTo(regions, k) {
        var p: nat :| p >= k && Covered(regions, p);
        CoveredSnoc(regions, p);
      }
    }
  }

  lemma NothingCovered()
    ensures forall p: nat :: !Covered([], p)
  {
  }

  lemma HighestStep(b: Boot, s: Span)
    requires s.start <= s.end <= MAX_PAGES && b.highest < MAX_PAGES
    ensures ClearSpan(b, s).highest == if s.start < s.end && s.end - 1 > b.highest then s.end - 1 else b.highest
  {
    hide ClearRange;
    if s.start < s.end { WrapSmall(s.end - 1); }
  }

  /**
   * Boot establishes every counter exactly if the memory map's available regions share no
   * page and make the last page of the first megabyte, or one above it, available.
   */
  lemma InitEstablishesIff(regions: seq<Region>, kernelStart: Word, kernelEnd: Word)
    requires |regions| <= MAX_REGIONS
    ensures Inv(PmmInit(regions, kernelStart, kernelEnd))
            <==> DisjointSpans(regions) && ReachesUpTo(regions, LOW_PAGES - 1)
  {
    hide Test, FreeIn, InitBitmap, SetupNodes, Reserve, DisjointSpans, Covered, ReachesUpTo;
    HighestIff(regions, LOW_PAGES - 1);
    var b := InitBitmap(regions);
    InitCountIffDisjoint(regions);
    InitBits(regions);
    var low := ReserveSpan(0, 0x100000);
    assert low == Span(0, LOW_PAGES);
    var c := Reserve(b, low);
    ReserveSpec(b, low);
    var d := Reserve(c, ReserveSpan(kernelStart, Wrap(kernelEnd - kernelStart)));
    ReserveSpec(c, ReserveSpan(kernelStart, Wrap(kernelEnd - kernelStart)));
    if b.highest >= LOW_PAGES - 1 {
      SetupSpec(d);
    } else {
      SetupHighest(d);
    }
  }

  lemma SetupHighest(b: Boot)
    ensures SetupNodes(b).highest == b.highest
  {
  }

  lemma SetupSpec(b: Boot)
    requires LOW_PAGES - 1 <= b.highest < MAX_PAGES && |b.bits| == BITMAP_SIZE
    requires forall p: nat :: p < LOW_PAGES || p > b.highest ==> Test(b.bits, p)
    ensures Inv(SetupNodes(b)) <==> b.free == FreeIn(b.bits, 0, MAX_PAGES)
  {
    hide Test, FreeIn, Wrap;
    var edge := LOW_PAGES + (b.highest - LOW_PAGES + 1) / 2;
    WrapSmall(b.highest - LOW_PAGES + 1);
    WrapSmall(edge);
    WrapSmall(b.highest + 1);
    var free0, free1 := FreeIn(b.bits, LOW_PAGES, edge), FreeIn(b.bits, edge, b.highest + 1);
    WrapSmall(free0);
    WrapSmall(free1);
    WrapSmall(edge - LOW_PAGES - free0);
    WrapSmall(b.highest + 1 - edge - free1);
  }

  // The map that pmm_init assumes without multiboot information: 640 KB and 1 MB to 128 MB.
  function FallbackMap(): seq<Region> {
    [Region(0, 640 * 1024, true), Region(0x100000, 128 * 1024 * 1024 - 0x100000, true)]
  }

  lemma FallbackSpans()
    ensures var m := FallbackMap(); SpanOf(m[0]) == Span(0, 160) && SpanOf(m[1]) == Span(256, 32768)
  {
  }

  // It boots into a state with all counters right, wherever the kernel lies.
  lemma FallbackBoots(kernelStart: Word, kernelEnd: Word)
    ensures Inv(PmmInit(FallbackMap(), kernelStart, kernelEnd))
  {
    var m := FallbackMap();
    FallbackSpans();
    hide SpanOf;
    assert DisjointSpans(m);
    hide InitBitmap, DisjointSpans, Inv, PmmInit, Covered;
    FallbackCovers();
    assert Covered(m, 32767);
    hide FallbackMap;
    InitEstablishesIff(m, kernelStart, kernelEnd);
  }

  lemma FallbackHighest()
    ensures InitBitmap(FallbackMap()).highest == 32767
  {
    var m := FallbackMap();
    FallbackSpans();
    hide SpanOf;
    assert m[..1] == [m[0]] && m[..1][..0] == [];
    hide ClearRange, AllUsed;
    assert InitBitmap(m[..1]).highest == 159;
  }

  // ---- Where the counters go wrong ---------------------------------------------------

  // The machine of the fallback map, with no kernel to reserve.
  function Example(): Pmm { PmmInit(FallbackMap(), 0, 0) }

  lemma ExampleBits()
    ensures Inv(Example()) && Example().highest == 32767 && Example().nodes[1].start == 16512
    ensures forall p: nat :: Test(Example().bits, p) <==> !(256 <= p < 32768)
  {
    hide *;
    ExampleIs();
    FallbackBoots(0, 0);
    FallbackHighest();
    FallbackCovers();
    InitBits(FallbackMap());
    FallbackCount();
    ReservedBits(InitBitmap(FallbackMap()));
    SetupKeepsBits(ReserveKernel(InitBitmap(FallbackMap()), 0, 0));
    NodesOf(Example());
  }

  lemma ExampleIs()
    ensures Example() == PmmInit(FallbackMap(), 0, 0) == SetupNodes(ReserveKernel(InitBitmap(FallbackMap()), 0, 0))
  {
  }

  lemma FallbackCount()
    ensures |InitBitmap(FallbackMap()).bits| == BITMAP_SIZE
    ensures FreeIn(InitBitmap(FallbackMap()).bits, 0, MAX_PAGES) <= InitBitmap(FallbackMap()).free
  {
    assert |FallbackMap()| <= MAX_REGIONS;
    hide FallbackMap, InitBitmap, DisjointSpans;
    InitCountIffDisjoint(FallbackMap());
  }

  lemma SetupKeepsBits(b: Boot)
    ensures SetupNodes(b).bits == b.bits && SetupNodes(b).highest == b.highest
  {
  }

  // With no kernel to reserve, the first megabyte is.
  lemma ReservedBits(b: Boot)
    requires FreeIn(b.bits, 0, MAX_PAGES) <= b.free
    ensures var r := ReserveKernel(b, 0, 0);
      r.highest == b.highest && forall p: nat :: Test(r.bits, p) <==> (p < 256 || Test(b.bits, p))
  {
    assert ReserveSpan(0, 0x100000) == Span(0, 256) && ReserveSpan(0, Wrap(0)) == Span(0, 0);
    hide Test, FreeIn, Reserve, ReserveSpan;
    ReserveSpec(b, Span(0, 256));
    ReserveSpec(Reserve(b, Span(0, 256)), Span(0, 0));
  }

  lemma NodesOf(m: Pmm)
    requires Inv(m) && m.highest == 32767
    ensures m.nodes[1].start == 16512
  {
  }

  lemma FallbackCovers()
    ensures forall p: nat :: Covered(FallbackMap(), p) <==> (p < 160 || 256 <= p < 32768)
  {
    var m := FallbackMap();
    FallbackSpans();
    hide SpanOf;
    forall p: nat ensures Covered(m, p) <==> (p < 160 || 256 <= p < 32768) {
      if p < 160 { assert SpanOf(m[0]).start <= p < SpanOf(m[0]).end; }
      if 256 <= p < 32768 { assert SpanOf(m[1]).start <= p < SpanOf(m[1]).end; }
    }
  }

  // 20000 pages from anywhere: the run starts in node 0 and ends in node 1.
  lemma CrossingExample()
    ensures Inv(Example()) && Geometry(Example()) && TakeAnyRun(Example(), 20000).addr != 0 && !Inv(TakeAnyRun(Example(), 20000).m)
  {
    ExampleBits();
    var m := Example();
    hide Example, Test, FreeIn;
    assert RunAt(m.bits, 256, 20000);
    assert FirstRun(m.bits, LOW_PAGES, m.highest + 1, 20000) == 256;
    AnyRunKeepsIff(m, 20000);
  }

  // No node of any machine has 65536 pages: the call never returns.
  lemma EndlessExample(m: Pmm, node: Byte, fuel: nat)
    requires Inv(m) && node != NODE_ANY
    ensures Geometry(m) && AllocPagesWithin(m, 65536, node, fuel) == OutOfFuel
  {
    hide Test, FreeIn, RunAt;
    assert !HasRun(m, 65536);
    hide Inv, AllocPagesWithin, HasRun;
    RunsForEver(m, 65536, node, fuel);
  }

  // The same region twice is counted twice.
  lemma OverlapExample()
    ensures var region := FallbackMap()[1];
      !Inv(PmmInit([region, region], 0, 0))
  {
    var region := FallbackMap()[1];
    assert SpanOf(region) == Span(256, 32768);
    hide Inv, PmmInit, SpanOf, InitBitmap;
    var twice := [region, region];
    assert !Apart(SpanOf(twice[0]), SpanOf(twice[1]));
    InitEstablishesIff(twice, 0, 0);
  }

  function LowMap(): seq<Region> { [Region(0, 640 * 1024, true)] }

  // A map of the low 640 KB only: node 0 comes to 2^31 pages that do not exist.
  lemma LowMemoryExample()
    ensures var m := PmmInit(LowMap(), 0, 0);
      !Inv(m) && m.highest == 159 && m.nodes[0].end == 256 + 0x7FFF_FFD0
  {
    LowHighest();
    hide InitBitmap, ReachesUpTo, Inv, FreeIn, SetupNodes, LowMap, Reserve, ReserveSpan;
    InitEstablishesIff(LowMap(), 0, 0);
    var b := InitBitmap(LowMap());
    ReserveHighest(b, ReserveSpan(0, 0x100000));
    ReserveHighest(Reserve(b, ReserveSpan(0, 0x100000)), ReserveSpan(0, 0));
    WrapSmall(0);
    LowNodes(ReserveKernel(b, 0, 0));
  }

  lemma LowHighest()
    ensures |LowMap()| == 1 && InitBitmap(LowMap()).highest == 159 && !ReachesUpTo(LowMap(), LOW_PAGES - 1)
  {
    assert SpanOf(LowMap()[0]) == Span(0, 160);
    hide SpanOf, AllUsed, ClearSpan;
    assert LowMap()[..0] == [];
    HighestStep(InitBitmap([]), Span(0, 160));
  }

  lemma LowNodes(b: Boot)
    requires b.highest == 159
    ensures SetupNodes(b).highest == 159 && SetupNodes(b).nodes[0].end == 256 + 0x7FFF_FFD0
  {
    hide FreeIn;
  }

  lemma ReserveHighest(b: Boot, s: Span)
    ensures Reserve(b, s).highest == b.highest
  {
  }

  // Reserving one free page after boot, and freeing page 0.
  lemma LateReserveExample()
    ensures !Inv(ReserveLater(Example(), 0x100000, 0x1000))
  {
    OnePageSpan();
    var base: Word, length: Word := 0x100000, 0x1000;
    hide *;
    ExampleBits();
    assert !Test(Example().bits, 256);
    ReserveLaterKeepsIff(Example(), base, length);
  }

  lemma OnePageSpan()
    ensures ReserveSpan(0x100000, 0x1000) == Span(256, 257)
  {
  }

  lemma LowFreeExample()
    ensures Geometry(Example()) && !Inv(FreePage(Example(), 0))
  {
    ExampleBits();
    hide Example, FreePage;
    FreePageKeepsIff(Example(), 0);
  }

  function ReserveLater(m: Pmm, base: Word, length: Word): Pmm {
    var r := Reserve(Boot(m.bits, m.free, m.highest), ReserveSpan(base, length));
    m.(bits := r.bits, free := r.free)
  }

  // Once the nodes exist, a reservation keeps their counters exactly if it takes no free page.
  lemma ReserveLaterKeepsIff(m: Pmm, base: Word, length: Word)
    requires Inv(m)
    ensures var s := ReserveSpan(base, length);
      Inv(ReserveLater(m, base, length)) <==> forall p: nat :: s.start <= p < s.end ==> Test(m.bits, p)
  {
    hide Test, FreeIn, Reserve, ReserveSpan;
    assert ReserveSpan(base, length).end <= MAX_PAGES by { SpanBound(base, length); }
    var s := ReserveSpan(base, length);
    var r := ReserveLater(m, base, length);
    ReserveSpec(Boot(m.bits, m.free, m.highest), s);
    if forall p: nat :: s.start <= p < s.end ==> Test(m.bits, p) {
      FreeInSame(m.bits, r.bits, 0, MAX_PAGES);
      FreeInSame(m.bits, r.bits, m.nodes[0].start, m.nodes[0].end);
      FreeInSame(m.bits, r.bits, m.nodes[1].start, m.nodes[1].end);
    } else if Inv(r) {
      FreeIsSumOfNodes(m);
      FreeIsSumOfNodes(r);
      BitsFromCounters(m, r);
    }
  }

  lemma SpanBound(base: Word, length: Word)
    ensures ReserveSpan(base, length).end <= MAX_PAGES
  {
  }

  // More bits set with the same count of clear ones: nothing changed.
  lemma BitsFromCounters(m: Pmm, r: Pmm)
    requires Inv(m) && Inv(r) && m.free == r.free && m.highest == r.highest
    requires forall p: nat :: Test(m.bits, p) ==> Test(r.bits, p)
    ensures forall p: nat :: Test(r.bits, p) ==> Test(m.bits, p)
  {
    hide Test, FreeIn;
    forall p: nat | Test(r.bits, p) ensures Test(m.bits, p) {
      if p < MAX_PAGES { SameCountSameBit(m.bits, r.bits, MAX_PAGES, p); }
    }
  }

  lemma {:induction false} SameCountSameBit(a: Bits, b: Bits, hi: nat, p: nat)
    requires forall q: nat :: Test(a, q) ==> Test(b, q)
    requires FreeIn(a, 0, hi) == FreeIn(b, 0, hi) && p < hi && Test(b, p)
    ensures Test(a, p)
  {
    hide Test;
    FreeInMonotone(a, b, hi - 1);
    assert Test(a, hi - 1) == Test(b, hi - 1);
    if p < hi - 1 { SameCountSameBit(a, b, hi - 1, p); }
  }

  lemma {:induction false} FreeInMonotone(a: Bits, b: Bits, hi: nat)
    requires forall q: nat :: Test(a, q) ==> Test(b, q)
    ensures FreeIn(b, 0, hi) <= FreeIn(a, 0, hi)
  {
    hide Test;
    if hi > 0 { FreeInMonotone(a, b, hi - 1); }
  }

  // ---- Sequences of requests ----------------------------------------------------

  datatype Request =
    | GetPage(node: Byte)
    | GetRun(count: Word, node: Byte)     // a run of two or more on a named node
    | GetAnyRun(count: Word)              // a run of two or more anywhere
    | PutPage(pfn: nat)
    | PutPages(pfn: nat, count: Word)

  datatype Client = Client(m: Pmm, held: set<nat>)

  function Pages(s: nat, count: nat): (r: set<nat>)
    ensures forall p :: p in r <==> s <= p < s + count
    ensures |r| == count
  {
    if count == 0 then {} else Pages(s, count - 1) + {s + count - 1}
  }

  function Receive(c: Client, r: Allocated, count: nat): Client {
    if r.addr == 0 then Client(r.m, c.held) else Client(r.m, c.held + Pages(r.addr / PAGE_SIZE, count))
  }

  // Requests that would not return (no node has the run), runs across the nodes' boundary and
  // frees of pages not held are not made.
  ghost function Serve(c: Client, q: Request): (d: Client)
    requires Geometry(c.m)
  {
    match q
    case GetPage(node) => Receive(c, AllocPage(c.m, node), 1)
    case GetRun(count, node) =>
      if 2 <= count && node != NODE_ANY && HasRun(c.m, count) then
        match AllocPagesWithin(c.m, count, node, 1)
        case Returned(r) => Receive(c, r, count)
        case OutOfFuel => c
      else c
    case GetAnyRun(count) => ServeAnyRun(c, count)
    case PutPages(pfn, count) =>
      if Pages(pfn, count) <= c.held && pfn * PAGE_SIZE < TWO32
      then Client(FreePages(c.m, pfn * PAGE_SIZE, count), c.held - Pages(pfn, count)) else c
    case PutPage(pfn) =>
      if pfn in c.held && pfn * PAGE_SIZE < TWO32 then Client(FreePage(c.m, pfn * PAGE_SIZE), c.held - {pfn}) else c
  }

  // The leftmost run lies in one node, or there is none.
  predicate RunInOneNode(m: Pmm, count: Word)
    requires Geometry(m)
  {
    var s := FirstRun(m.bits, LOW_PAGES, m.highest + 1, count);
    s + count <= m.nodes[1].start || m.nodes[1].start <= s
  }

  function ServeAnyRun(c: Client, count: Word): Client
    requires Geometry(c.m)
  {
    if 2 <= count && RunInOneNode(c.m, count) then Receive(c, TakeAnyRun(c.m, count), count) else c
  }

  // The pages in use are those of m0 and the held ones, which m0 had free; nothing is lost.
  ghost predicate Conserves(m0: Pmm, c: Client) {
    && Inv(c.m) && c.m.highest == m0.highest
    && (forall p: nat :: Test(c.m.bits, p) <==> (Test(m0.bits, p) || p in c.held))
    && (forall p :: p in c.held ==> !Test(m0.bits, p) && LOW_PAGES <= p <= m0.highest)
    && c.m.free + |c.held| == m0.free
  }

  lemma ReceiveConserves(m0: Pmm, c: Client, r: Allocated, count: nat)
    requires Inv(m0) && Conserves(m0, c) && Granted(c.m, r, count) && 0 < count && r.addr != 0
    ensures Conserves(m0, Receive(c, r, count))
    ensures Pages(r.addr / PAGE_SIZE, count) !! c.held
  {
    hide Test, Inv, Pages;
    var s := r.addr / PAGE_SIZE;
    GrantCounts(c.m, r, count);
    assert forall p :: p in Pages(s, count) ==> !Test(c.m.bits, p);
    DisjointSizes(c.held, Pages(s, count));
  }

  lemma DisjointSizes(a: set<nat>, b: set<nat>)
    requires a !! b
    ensures |a + b| == |a| + |b|
  {
  }

  lemma GrantCounts(m: Pmm, r: Allocated, count: nat)
    requires Inv(m) && Granted(m, r, count)
    ensures r.m.free == m.free - count
  {
    hide Test, FreeIn;
    var s := r.addr / PAGE_SIZE;
    FreeInSetRange(m.bits, 0, MAX_PAGES, s, count);
    forall p: nat ensures Test(SetRange(m.bits, s, count), p) <==> Test(r.m.bits, p) {
      TestSetRange(m.bits, s, count, p);
    }
    FreeInSame(r.m.bits, SetRange(m.bits, s, count), 0, MAX_PAGES);
  }

  lemma PageConserves(m0: Pmm, c: Client, node: Byte)
    requires Inv(m0) && Conserves(m0, c) && Geometry(c.m)
    ensures Conserves(m0, Receive(c, AllocPage(c.m, node), 1))
  {
    hide Test, Inv, Conserves, Granted, AllocPage, FirstIn;
    ConservesInv(m0, c);
    AllocPageSpec(c.m, node);
    var r := AllocPage(c.m, node);
    if r.addr != 0 {
      ReceiveConserves(m0, c, r, 1);
    } else {
      ReceiveNothing(c, r, 1);
    }
  }

  lemma RunConserves(m0: Pmm, c: Client, count: Word, node: Byte)
    requires Inv(m0) && Conserves(m0, c) && Geometry(c.m) && 2 <= count && node != NODE_ANY && HasRun(c.m, count)
    ensures AllocPagesWithin(c.m, count, node, 1).Returned?
    ensures Conserves(m0, Receive(c, AllocPagesWithin(c.m, count, node, 1).r, count))
  {
    hide Test, Inv, Conserves, Granted, AllocPagesWithin, HasRun, RunAt, Receive;
    ConservesInv(m0, c);
    AllocPagesReturnsIffRunExists(c.m, count, node);
    ReceiveConserves(m0, c, AllocPagesWithin(c.m, count, node, 1).r, count);
  }

  lemma ServeConserves(m0: Pmm, c: Client, q: Request)
    requires Inv(m0) && Conserves(m0, c)
    ensures Conserves(m0, Serve(c, q))
  {
    hide Conserves, Inv, Receive, Granted, AllocPage, TakeRun, FreePage, Geometry, HasRun, AllocPagesWithin, ServeAnyRun,
         Pages;
    ConservesInv(m0, c);
    InvGeometry(c.m);
    match q
    case GetPage(node) => PageConserves(m0, c, node);
    case GetRun(count, node) =>
      if 2 <= count && node != NODE_ANY && HasRun(c.m, count) { RunConserves(m0, c, count, node); }
    case GetAnyRun(count) => AnyConserves(m0, c, count);
    case PutPage(pfn) =>
      if pfn in c.held { PutConserves(m0, c, pfn); }
    case PutPages(pfn, count) =>
      if Pages(pfn, count) <= c.held && pfn * PAGE_SIZE < TWO32 { PutAllConserves(m0, c, pfn, count); }
  }

  lemma AnyConserves(m0: Pmm, c: Client, count: Word)
    requires Inv(m0) && Conserves(m0, c) && Geometry(c.m)
    ensures Conserves(m0, ServeAnyRun(c, count))
  {
    if 2 <= count && RunInOneNode(c.m, count) {
      AnyRunServed(c.m, count);
      hide *;
      ConservesInv(m0, c);
      var r := TakeAnyRun(c.m, count);
      if r.addr != 0 {
        ReceiveConserves(m0, c, r, count);
      } else {
        ReceiveNothing(c, r, count);
      }
    }
  }

  lemma ConservesInv(m0: Pmm, c: Client)
    requires Conserves(m0, c)
    ensures Inv(c.m)
  {
  }

  lemma ReceiveNothing(c: Client, r: Allocated, count: nat)
    requires r == Allocated(c.m, 0)
    ensures Receive(c, r, count) == c
  {
  }

  lemma AnyRunServed(m: Pmm, count: Word)
    requires Inv(m) && 2 <= count && RunInOneNode(m, count)
    ensures var r := TakeAnyRun(m, count);
      if r.addr == 0 then r == Allocated(m, 0) else Granted(m, r, count)
  {
    hide Test, FreeIn, Granted, RunAt, TakeAnyRun;
    hide FirstRun;
    AnyRunKeepsIff(m, count);
    if FirstRun(m.bits, LOW_PAGES, m.highest + 1, count) <= m.highest { AnyRunGranted(m, count); }
  }

  lemma PutAllConserves(m0: Pmm, c: Client, pfn: nat, count: Word)
    requires Inv(m0) && Conserves(m0, c) && Pages(pfn, count) <= c.held && pfn * PAGE_SIZE < TWO32 && Geometry(c.m)
    ensures Conserves(m0, Client(FreePages(c.m, pfn * PAGE_SIZE, count), c.held - Pages(pfn, count)))
  {
    hide Test, FreeIn, FreePages, Geometry, Pages;
    if count == 0 {
      FreeNone(c.m, pfn * PAGE_SIZE);
      assert c.held - Pages(pfn, count) == c.held;
    } else {
      var d := Client(FreePages(c.m, pfn * PAGE_SIZE, count), c.held - Pages(pfn, count));
      assert pfn in Pages(pfn, count) && pfn + count - 1 in Pages(pfn, count);
      assert pfn * PAGE_SIZE / PAGE_SIZE == pfn;
      FreePagesKeeps(c.m, pfn * PAGE_SIZE, count);
      assert |d.m.bits| == BITMAP_SIZE by { InvBits(d.m); }
      forall p: nat ensures Test(d.m.bits, p) <==> (Test(m0.bits, p) || p in d.held) { }
      HeldCount(m0, d.m.bits, d.held);
    }
  }

  lemma InvBits(m: Pmm)
    requires Inv(m)
    ensures |m.bits| == BITMAP_SIZE
  {
  }

  lemma FreeNone(m: Pmm, addr: Word)
    requires Geometry(m)
    ensures FreePages(m, addr, 0) == m
  {
  }

  // Held pages and free pages add up, however the bits came about.
  lemma {:induction false} HeldCount(m0: Pmm, b: Bits, held: set<nat>)
    requires Inv(m0) && |b| == BITMAP_SIZE
    requires forall p: nat :: Test(b, p) <==> (Test(m0.bits, p) || p in held)
    requires forall p :: p in held ==> !Test(m0.bits, p) && p <= m0.highest
    ensures FreeIn(b, 0, MAX_PAGES) + |held| == m0.free
    decreases |held|
  {
    hide Test, FreeIn, Clear;
    if held == {} {
      FreeInSame(b, m0.bits, 0, MAX_PAGES);
    } else {
      var p :| p in held;
      forall q: nat ensures Test(Clear(b, p), q) <==> (Test(m0.bits, q) || q in held - {p}) { TestClear(b, p, q); }
      TestClear(b, p, p);
      HeldCount(m0, Clear(b, p), held - {p});
      FreeInClear(b, 0, MAX_PAGES, p);
    }
  }

  lemma PutConserves(m0: Pmm, c: Client, pfn: nat)
    requires Inv(m0) && Conserves(m0, c) && pfn in c.held
    ensures pfn * PAGE_SIZE < 0x1_0000_0000
    ensures Conserves(m0, Client(FreePage(c.m, pfn * PAGE_SIZE), c.held - {pfn}))
  {
    hide Test, FreeIn;
    assert pfn < MAX_PAGES;
    FreePageKeepsIff(c.m, pfn * PAGE_SIZE);
    assert Test(c.m.bits, pfn);
    assert |c.held - {pfn}| == |c.held| - 1;
    WrapSmall(c.m.free + 1);
    FreeInClear(c.m.bits, 0, MAX_PAGES, pfn);
  }

  ghost function ServeAll(m0: Pmm, qs: seq<Request>): (c: Client)
    requires Inv(m0)
    ensures Conserves(m0, c)
    decreases |qs|
  {
    hide Test, FreeIn, Serve;
    if qs == [] then Client(m0, {})
    else
      var before := ServeAll(m0, qs[..|qs| - 1]);
      ServeConserves(m0, before, qs[|qs| - 1]);
      Serve(before, qs[|qs| - 1])
  }

  /**
   * Main theorem: after every run of requests the counters are right, the pages in use are
   * exactly those in use at the start plus the held ones, held and free pages add up to the
   * free pages at the start, and freeing everything held gets back to the very start.
   */
  lemma PagesConserved(m0: Pmm, qs: seq<Request>)
    requires Inv(m0)
    ensures var c := ServeAll(m0, qs);
      Conserves(m0, c) && c.m.free == c.m.nodes[0].free + c.m.nodes[1].free
      && (c.held == {} ==> c.m == m0)
  {
    hide Test, FreeIn, ServeAll;
    var c := ServeAll(m0, qs);
    FreeIsSumOfNodes(c.m);
    if c.held == {} { BitsDetermineState(c.m, m0); }
  }
}
