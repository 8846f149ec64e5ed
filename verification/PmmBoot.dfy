/**
 Which pages boot leaves used, in bytes of the memory map and of the kernel's image
 (kernel/mm/pmm.c), with the 32-bit sums that wrap near 4 GB written out.
 */
module PmmBoot {
  import opened Words
  import opened Bitmap
  import opened PmmSpec
  import opened PmmRuns

  // ---- In bytes ---------------------------------------------------------------------

  // Every byte of page p lies in the region.
  predicate Contains(r: Region, p: nat) { r.base <= 4096 * p && 4096 * p + 4096 <= r.base + r.length }

  // The region reaches into the last page of the 32-bit address space.
  predicate NearTop(r: Region) { r.base > 0xFFFF_F000 || r.base + r.length >= 0x1_0000_0000 }

  // What init_bitmap makes of a region there: rounding its base up gives 0, and its end wraps.
  predicate TopContains(r: Region, p: nat) {
    if r.base + r.length < 0x1_0000_0000 then true
    else r.base > 0xFFFF_F000 && 4096 * p + 4096 <= r.base + r.length - 0x1_0000_0000
  }

  predicate Available(regions: seq<Region>, p: nat) {
    exists i :: 0 <= i < |regions| && Offers(regions[i], p)
  }

  predicate Offers(r: Region, p: nat) {
    r.available && if NearTop(r) then TopContains(r, p) else Contains(r, p)
  }

  // Page p holds a byte of the kernel's image, or the point where an empty one lies.
  predicate HoldsKernel(kernelStart: Word, kernelEnd: Word, p: nat) {
    || (exists a: nat :: kernelStart <= a < kernelEnd && a / 4096 == p)
    || (kernelStart == kernelEnd && kernelStart % 4096 != 0 && kernelStart / 4096 == p)
  }

  // ---- The spans of the code ---------------------------------------------------------

  lemma AlignedDown(a: nat)
    ensures a < TWO32 ==> AlignDown(a) / 4096 == a / 4096
    ensures 4096 * (a / 4096) <= a < 4096 * (a / 4096) + 4096
  {
  }

  lemma AlignedUp(a: Word)
    ensures a <= 0xFFFF_F000 ==> AlignUp(a) / 4096 == (a + 4095) / 4096 && AlignUp(a) % 4096 == 0
    ensures a > 0xFFFF_F000 ==> AlignUp(a) == 0
  {
  }

  lemma SpanOffers(r: Region, p: nat)
    requires p < 65536
    ensures SpanOf(r).start <= p < SpanOf(r).end <==> Offers(r, p)
  {
    AlignedUp(r.base);
    AlignedDown(Wrap(r.base + r.length));
    SumWraps(r);
  }

  lemma SumWraps(r: Region)
    ensures Wrap(r.base + r.length) == if r.base + r.length < 0x1_0000_0000 then r.base + r.length else r.base + r.length - 0x1_0000_0000
  {
  }

  lemma {:induction false} CoveredIsAvailable(regions: seq<Region>, p: nat)
    requires p < 65536
    ensures Covered(regions, p) <==> Available(regions, p)
  {
    hide SpanOf, Offers;
    forall i | 0 <= i < |regions|
      ensures SpanOf(regions[i]).start <= p < SpanOf(regions[i]).end <==> Offers(regions[i], p)
    {
      SpanOffers(regions[i], p);
    }
  }

  lemma KernelSpan(kernelStart: Word, kernelEnd: Word, p: nat)
    requires kernelStart <= kernelEnd && p < 65536
    ensures var s := ReserveSpan(kernelStart, Wrap(kernelEnd - kernelStart));
      s.start <= p < s.end <==> kernelEnd <= 0xFFFF_F000 && HoldsKernel(kernelStart, kernelEnd, p)
  {
    WrapSmall(kernelEnd - kernelStart);
    WrapSmall(kernelEnd);
    AlignedUp(kernelEnd);
    AlignedDown(kernelStart);
    HoldsIff(kernelStart, kernelEnd, p);
    hide AlignUp, AlignDown, HoldsKernel, Wrap;
  }

  // From its first byte's page to its last byte's.
  lemma HoldsIff(kernelStart: Word, kernelEnd: Word, p: nat)
    requires kernelStart <= kernelEnd
    ensures HoldsKernel(kernelStart, kernelEnd, p) <==> kernelStart / 4096 <= p < (kernelEnd + 4095) / 4096
  {
    if kernelStart < kernelEnd && kernelStart / 4096 <= p < (kernelEnd + 4095) / 4096 {
      var a := if kernelStart <= 4096 * p then 4096 * p else kernelStart;
      assert kernelStart <= a < kernelEnd && a / 4096 == p;
    }
  }

  lemma ReserveBits(b: Boot, s: Span, p: nat)
    ensures Test(Reserve(b, s).bits, p) <==> s.start <= p < s.end || Test(b.bits, p)
  {
    hide Test;
    TestSetRange(b.bits, s.start, Size(s), p);
  }

  /**
   * Main theorem: a page is in use after boot exactly if it lies in the first megabyte, holds
   * part of the kernel, or is in no available region whole. A kernel that reaches into the
   * last page below 4 GB is not reserved.
   */
  lemma BootLeavesUsed(regions: seq<Region>, kernelStart: Word, kernelEnd: Word, p: nat)
    requires kernelStart <= kernelEnd && p < 65536
    ensures Test(PmmInit(regions, kernelStart, kernelEnd).bits, p) <==>
      || 4096 * p < 0x10_0000
      || (kernelEnd <= 0xFFFF_F000 && HoldsKernel(kernelStart, kernelEnd, p))
      || !Available(regions, p)
  {
    assert ReserveSpan(0, 0x100000) == Span(0, 256);
    hide Test, InitBitmap, SetupNodes, Reserve, Covered, Available, HoldsKernel, ReserveSpan;
    var b := InitBitmap(regions);
    var low, kernel := Span(0, 256), ReserveSpan(kernelStart, Wrap(kernelEnd - kernelStart));
    InitBits(regions);
    CoveredIsAvailable(regions, p);
    ReserveBits(b, low, p);
    ReserveBits(Reserve(b, low), kernel, p);
    KernelSpan(kernelStart, kernelEnd, p);
    SetupKeepsBits(Reserve(Reserve(b, low), kernel));
  }

  // Pages the bitmap does not cover count as used.
  lemma BeyondIsUsed(regions: seq<Region>, kernelStart: Word, kernelEnd: Word, p: nat)
    requires p >= 65536
    ensures Test(PmmInit(regions, kernelStart, kernelEnd).bits, p)
  {
    hide InitBitmap, SetupNodes, FreeIn, SetRange, ReserveSpan;
    var b := InitBitmap(regions);
    var low, kernel := ReserveSpan(0, 0x100000), ReserveSpan(kernelStart, Wrap(kernelEnd - kernelStart));
    SetupKeepsBits(Reserve(Reserve(b, low), kernel));
    SetRangeLength(b.bits, low.start, Size(low));
    SetRangeLength(Reserve(b, low).bits, kernel.start, Size(kernel));
  }

  lemma {:induction false} SetRangeLength(b: Bits, s: nat, n: nat)
    ensures |SetRange(b, s, n)| == |b|
  {
    hide Set;
    if n > 0 {
      SetRangeLength(b, s, n - 1);
      TestSet(SetRange(b, s, n - 1), s + n - 1, 0);
    }
  }

  /**
   * What is handed out after boot: through every run, the pages held lie whole in available
   * regions above the first megabyte, and none holds part of the kernel.
   */
  lemma GrantsSpareKernel(regions: seq<Region>, kernelStart: Word, kernelEnd: Word, qs: seq<Request>)
    requires kernelStart <= kernelEnd <= 0xFFFF_F000 && Inv(PmmInit(regions, kernelStart, kernelEnd))
    ensures forall p :: p in ServeAll(PmmInit(regions, kernelStart, kernelEnd), qs).held ==>
      4096 * p >= 0x10_0000 && !HoldsKernel(kernelStart, kernelEnd, p) && Available(regions, p)
  {
    hide Inv, PmmInit, ServeAll, HoldsKernel, Available, Test;
    var m := PmmInit(regions, kernelStart, kernelEnd);
    PagesConserved(m, qs);
    forall p | p in ServeAll(m, qs).held
      ensures 4096 * p >= 0x10_0000 && !HoldsKernel(kernelStart, kernelEnd, p) && Available(regions, p)
    {
      if p < 65536 {
        BootLeavesUsed(regions, kernelStart, kernelEnd, p);
      } else {
        BeyondIsUsed(regions, kernelStart, kernelEnd, p);
      }
    }
  }

  /**
   * Near 4 GB the sums wrap: one byte in the last page makes all memory available, a region
   * that ends at 4 GB is lost, and a kernel up there is not reserved.
   */
  lemma TopExamples(p: nat)
    requires 256 <= p < 65536
    ensures !Test(PmmInit([Region(0xFFFF_F001, 1, true)], 0, 0).bits, p)
    ensures Test(PmmInit([Region(0x8000_0000, 0x8000_0000, true)], 0, 0).bits, p)
    ensures !Test(PmmInit([Region(0x10_0000, 0x400_0000, true)], 0x10_0000, 0xFFFF_F001).bits, 256)
    ensures HoldsKernel(0x10_0000, 0xFFFF_F001, 256)
  {
    hide PmmInit, HoldsKernel, Test, Offers;
    OneByteOffers(p);
    HoldsIff(0, 0, p);
    HoldsIff(0x10_0000, 0xFFFF_F001, 256);
    SoleRegion(Region(0xFFFF_F001, 1, true), 0, 0, p);
    SoleRegion(Region(0x8000_0000, 0x8000_0000, true), 0, 0, p);
    SoleRegion(Region(0x10_0000, 0x400_0000, true), 0x10_0000, 0xFFFF_F001, 256);
  }

  lemma OneByteOffers(p: nat)
    requires 256 <= p < 65536
    ensures Offers(Region(0xFFFF_F001, 1, true), p) && !Offers(Region(0x8000_0000, 0x8000_0000, true), p)
    ensures Offers(Region(0x10_0000, 0x400_0000, true), 256)
  {
  }

  lemma SoleRegion(r: Region, kernelStart: Word, kernelEnd: Word, p: nat)
    requires kernelStart <= kernelEnd && p < 65536
    ensures Test(PmmInit([r], kernelStart, kernelEnd).bits, p) <==>
      4096 * p < 0x10_0000 || (kernelEnd <= 0xFFFF_F000 && HoldsKernel(kernelStart, kernelEnd, p)) || !Offers(r, p)
  {
    hide Offers, PmmInit, HoldsKernel, Test;
    BootLeavesUsed([r], kernelStart, kernelEnd, p);
    assert Available([r], p) <==> Offers([r][0], p);
  }
}
