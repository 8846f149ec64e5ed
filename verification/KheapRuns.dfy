/** Whole runs of the kernel heap (kernel/mm/kheap.c) on the level of its block list. */
module KheapRuns {
  import opened Basics
  import opened KheapSpec

  // Allocate anew, then free the block at position i.
  ghost function Moved(bs: seq<Block>, i: nat, want: nat, base: nat, end: nat): (r: seq<Block>)
    requires HeapOk(bs, base, end) && i < |bs| && !bs[i].free && want % 16 == 0
    ensures HeapOk(r, base, end)
  {
    hide HeapOk, Take, Release;
    match FirstFit(bs, want, 0)
    case None => bs
    case Some(k) =>
      TakeKeeps(bs, k, want, base, end);
      ShiftedBy(bs, k, want, i);
      var t := Take(bs, k, want);
      var j := Shifted(|t| - |bs|, k, i);
      ReleaseKeeps(t, j, base, end);
      Release(t, j)
  }

  function Shifted(d: int, k: nat, i: nat): int { if k < i then i + d else i }

  // krealloc on the block at position i: in place, grown into the next block, or moved.
  ghost function Realloc(bs: seq<Block>, i: nat, want: nat, base: nat, end: nat): (r: seq<Block>)
    requires HeapOk(bs, base, end) && i < |bs| && !bs[i].free && want % 16 == 0
    ensures HeapOk(r, base, end)
  {
    hide HeapOk, Grow, Take, Moved;
    if bs[i].size >= want then bs
    else
      GrowKeeps(bs, i, base, end);
      TrimOrMove(Grow(bs, i), i, want, base, end)
  }

  ghost function TrimOrMove(bs: seq<Block>, i: nat, want: nat, base: nat, end: nat): (r: seq<Block>)
    requires HeapOk(bs, base, end) && i < |bs| && !bs[i].free && !FreeRight(bs, i) && want % 16 == 0
    ensures HeapOk(r, base, end)
  {
    hide HeapOk, Take, Moved;
    if bs[i].size >= want then TrimKeeps(bs, i, want, base, end); Take(bs, i, want) else Moved(bs, i, want, base, end)
  }

  // Neither growing in place nor a new block can serve the request.
  predicate ReallocFails(bs: seq<Block>, i: nat, want: nat)
    requires i < |bs|
  {
    var g := Grow(bs, i);
    bs[i].size < want && i < |g| && g[i].size < want && FirstFit(g, want, 0).None?
  }

  // Taking block k leaves block i where it was, up to the one block a split inserts.
  lemma ShiftedBy(bs: seq<Block>, k: nat, want: nat, i: nat)
    requires k < |bs| && i < |bs| && i != k && want <= bs[k].size
    ensures var t := Take(bs, k, want);
      var j := Shifted(|t| - |bs|, k, i);
      |bs| <= |t| && 0 <= j < |t| && t[j] == bs[i]
  {
  }

  datatype Call = Kmalloc(size: nat) | Kfree(i: nat) | Krealloc(i: nat, size: nat)

  // Frees and reallocations name a live block; a size of 0 allocates nothing or frees.
  ghost function Do(bs: seq<Block>, c: Call, base: nat, end: nat): (r: seq<Block>)
    requires HeapOk(bs, base, end)
    ensures HeapOk(r, base, end)
  {
    hide HeapOk, Take, Release;
    match c
    case Kmalloc(size) =>
      if size == 0 || size >= SIZE_LIMIT then bs
      else (match FirstFit(bs, AlignUp(size), 0)
            case None => bs
            case Some(k) => TakeKeeps(bs, k, AlignUp(size), base, end); Take(bs, k, AlignUp(size)))
    case Kfree(i) =>
      if i < |bs| && !bs[i].free then ReleaseKeeps(bs, i, base, end); Release(bs, i) else bs
    case Krealloc(i, size) =>
      if i >= |bs| || bs[i].free || size >= SIZE_LIMIT then bs
      else if size == 0 then ReleaseKeeps(bs, i, base, end); Release(bs, i)
      else Realloc(bs, i, AlignUp(size), base, end)
  }

  ghost function Run(bs: seq<Block>, calls: seq<Call>, base: nat, end: nat): (r: seq<Block>)
    requires HeapOk(bs, base, end)
    ensures HeapOk(r, base, end)
    decreases |calls|
  {
    hide HeapOk;
    if calls == [] then bs else Do(Run(bs, calls[..|calls| - 1], base, end), calls[|calls| - 1], base, end)
  }

  function FreeBytes(bs: seq<Block>): nat {
    if bs == [] then 0 else FreeBytes(bs[..|bs| - 1]) + (if bs[|bs| - 1].free then bs[|bs| - 1].size else 0)
  }

  function LiveBytes(bs: seq<Block>): nat {
    if bs == [] then 0 else LiveBytes(bs[..|bs| - 1]) + (if bs[|bs| - 1].free then 0 else bs[|bs| - 1].size)
  }

  lemma {:induction false} Balance(bs: seq<Block>)
    ensures FreeBytes(bs) + LiveBytes(bs) + HEADER * |bs| == Total(bs)
    decreases |bs|
  {
    if bs != [] { Balance(bs[..|bs| - 1]); }
  }

  /**
   * Every run of kmalloc, kfree and krealloc keeps the block list an exact aligned tiling
   * without adjacent free blocks; payloads stay disjoint and inside the heap; free bytes,
   * live bytes and headers always add up to the heap.
   */
  lemma EveryRunKeeps(bs: seq<Block>, calls: seq<Call>, base: nat, end: nat)
    requires HeapOk(bs, base, end)
    ensures var r := Run(bs, calls, base, end);
      HeapOk(r, base, end)
      && FreeBytes(r) + LiveBytes(r) + HEADER * |r| == end - base
      && forall i, j :: 0 <= i < |r| && 0 <= j < |r| && i != j ==> End(r[i]) <= r[j].addr || End(r[j]) <= r[i].addr
  {
    hide Run, Tiles;
    var r := Run(bs, calls, base, end);
    BytesConserved(r, base, end);
    Balance(r);
    forall i, j | 0 <= i < |r| && 0 <= j < |r| && i != j ensures End(r[i]) <= r[j].addr || End(r[j]) <= r[i].addr {
      PayloadsDisjoint(r, base, end, i, j);
    }
  }

  // ---- What krealloc costs ---------------------------------------------------------------

  lemma {:induction false} FreeAppend(a: seq<Block>, b: seq<Block>)
    ensures FreeBytes(a + b) == FreeBytes(a) + FreeBytes(b)
    decreases |b|
  {
    if b == [] {
      assert a + b == a;
    } else {
      assert (a + b)[..|a + b| - 1] == a + b[..|b| - 1];
      FreeAppend(a, b[..|b| - 1]);
    }
  }

  function FreeSize(b: Block): nat { if b.free then b.size else 0 }

  lemma FreeOne(b: Block)
    ensures FreeBytes([b]) == FreeSize(b)
  {
    assert [b][..0] == [];
  }

  // A stretch of blocks replaced by another changes the free bytes by theirs.
  lemma FreeSplice(bs: seq<Block>, i: nat, j: nat, mid: seq<Block>)
    requires i <= j <= |bs|
    ensures FreeBytes(bs[..i] + mid + bs[j..]) + FreeBytes(bs[i..j]) == FreeBytes(bs) + FreeBytes(mid)
  {
    assert bs == bs[..i] + bs[i..j] + bs[j..];
    FreeAppend(bs[..i] + bs[i..j], bs[j..]);
    FreeAppend(bs[..i], bs[i..j]);
    FreeAppend(bs[..i] + mid, bs[j..]);
    FreeAppend(bs[..i], mid);
  }

  lemma FreeAt(bs: seq<Block>, i: nat, b: Block)
    requires i < |bs|
    ensures FreeBytes(bs[i := b]) + FreeSize(bs[i]) == FreeBytes(bs) + FreeSize(b)
  {
    FreeSplice(bs, i, i + 1, [b]);
    FreeOne(bs[i]);
    FreeOne(b);
    assert bs[..i] + [b] + bs[i + 1..] == bs[i := b] && bs[i..i + 1] == [bs[i]];
  }

  // Carving `want` bytes out of a block costs no more than them, a header and 16 bytes.
  lemma TakeCosts(bs: seq<Block>, i: nat, want: nat)
    requires i < |bs| && want <= bs[i].size
    ensures FreeBytes(Take(bs, i, want)) + want + 64 >= FreeBytes(bs) + (if bs[i].free then 0 else bs[i].size)
  {
    hide FreeBytes, Take;
    var b := bs[i];
    if b.size - want <= HEADER + 16 {
      WholeTaken(bs, i, want);
      FreeAt(bs, i, b.(free := false));
    } else {
      var c, d := b.(size := want, free := false), Block(Payload(b) + want, b.size - want - HEADER, true);
      SplitTaken(bs, i, want);
      TwoForOne(bs, i, c, d);
    }
  }

  lemma WholeTaken(bs: seq<Block>, i: nat, want: nat)
    requires i < |bs| && want <= bs[i].size <= want + HEADER + 16
    ensures Take(bs, i, want) == bs[i := bs[i].(free := false)]
  {
  }

  lemma SplitTaken(bs: seq<Block>, i: nat, want: nat)
    requires i < |bs| && bs[i].size > want + HEADER + 16
    ensures var b := bs[i];
      Take(bs, i, want) == bs[..i] + [b.(size := want, free := false), Block(Payload(b) + want, b.size - want - HEADER, true)] + bs[i + 1..]
  {
  }

  lemma TwoForOne(bs: seq<Block>, i: nat, c: Block, d: Block)
    requires i < |bs|
    ensures FreeBytes(bs[..i] + [c, d] + bs[i + 1..]) + FreeSize(bs[i]) == FreeBytes(bs) + FreeSize(c) + FreeSize(d)
  {
    hide FreeBytes, FreeSize;
    FreeSplice(bs, i, i + 1, [c, d]);
    FreeAppend([c], [d]);
    assert [c] + [d] == [c, d] && bs[i..i + 1] == [bs[i]];
    FreeOne(bs[i]);
    FreeOne(c);
    FreeOne(d);
  }

  lemma AbsorbCosts(bs: seq<Block>, i: nat)
    requires i + 1 < |bs| && bs[i + 1].free
    ensures FreeBytes(Absorb(bs, i)) + bs[i + 1].size
         == FreeBytes(bs) + (if bs[i].free then HEADER + bs[i + 1].size else 0)
  {
    hide FreeBytes;
    OneForTwo(bs, i, bs[i].(size := bs[i].size + HEADER + bs[i + 1].size));
  }

  lemma OneForTwo(bs: seq<Block>, i: nat, b: Block)
    requires i + 1 < |bs|
    ensures FreeBytes(bs[..i] + [b] + bs[i + 2..]) + FreeSize(bs[i]) + FreeSize(bs[i + 1]) == FreeBytes(bs) + FreeSize(b)
  {
    hide FreeBytes, FreeSize;
    FreeSplice(bs, i, i + 2, [b]);
    assert bs[i..i + 2] == [bs[i]] + [bs[i + 1]];
    FreeAppend([bs[i]], [bs[i + 1]]);
    FreeOne(bs[i]);
    FreeOne(bs[i + 1]);
    FreeOne(b);
  }

  lemma ReleaseGains(bs: seq<Block>, i: nat)
    requires NoAdjacentFree(bs) && i < |bs| && !bs[i].free
    ensures FreeBytes(Release(bs, i)) >= FreeBytes(bs) + bs[i].size
  {
    ReleaseIsJoined(bs, i);
    FreeAt(bs, i, bs[i].(free := true));
    var c := SetFree(bs, i, true);
    hide Release, NoAdjacentFree, Absorb;
    if FreeRight(bs, i) { AbsorbCosts(c, i); }
    JoinedRightShape(bs, i);
    var d := JoinedRight(bs, i);
    if FreeLeft(bs, i) { AbsorbCosts(d, i - 1); }
  }

  lemma GrowCosts(bs: seq<Block>, i: nat)
    requires NoAdjacentFree(bs) && i < |bs| && !bs[i].free
    ensures var g := Grow(bs, i);
      i < |g| && FreeBytes(g) + g[i].size >= FreeBytes(bs) + bs[i].size
      && g[i].size == bs[i].size + (if i + 1 < |bs| && bs[i + 1].free then 48 + bs[i + 1].size else 0)
  {
    GrowIs(bs, i);
    if FreeRight(bs, i) { AbsorbCosts(bs, i); }
    hide Grow;
  }

  lemma MoveCosts(bs: seq<Block>, i: nat, want: nat, base: nat, end: nat)
    requires HeapOk(bs, base, end) && i < |bs| && !bs[i].free && want % 16 == 0 && FirstFit(bs, want, 0).Some?
    ensures FreeBytes(Moved(bs, i, want, base, end)) + want + 64 >= FreeBytes(bs) + bs[i].size
  {
    var k := FirstFit(bs, want, 0).value;
    TakeKeeps(bs, k, want, base, end);
    ShiftedBy(bs, k, want, i);
    TakeCosts(bs, k, want);
    hide Take;
    var t := Take(bs, k, want);
    ReleaseGains(t, Shifted(|t| - |bs|, k, i));
  }

  /**
   * A krealloc that succeeds takes no more from the free bytes than the growth asked for, a
   * header and 16 bytes: whatever growing in place swallowed beyond that is given back.
   */
  lemma ReallocCosts(bs: seq<Block>, i: nat, want: nat, base: nat, end: nat)
    requires HeapOk(bs, base, end) && i < |bs| && !bs[i].free && want % 16 == 0 && !ReallocFails(bs, i, want)
    ensures var r := Realloc(bs, i, want, base, end);
      if bs[i].size >= want then r == bs else FreeBytes(r) + want + 64 >= FreeBytes(bs) + bs[i].size
  {
    if bs[i].size < want {
      GrowKeeps(bs, i, base, end);
      GrowCosts(bs, i);
      hide HeapOk, Grow, Take, Moved, FirstFit;
      var g := Grow(bs, i);
      if g[i].size >= want {
        TakeCosts(g, i, want);
      } else {
        MoveCosts(g, i, want, base, end);
      }
    }
  }

  /**
   * Where the next block is free and large enough, krealloc grows in place: what is left
   * beyond a header and 16 bytes is a free block right behind, and all other blocks stay.
   */
  lemma GrownInPlace(bs: seq<Block>, i: nat, want: nat, base: nat, end: nat)
    requires HeapOk(bs, base, end) && i < |bs| && !bs[i].free && want % 16 == 0
    requires bs[i].size < want && i + 1 < |bs| && bs[i + 1].free && want <= bs[i].size + 48 + bs[i + 1].size
    ensures var r, all := Realloc(bs, i, want, base, end), bs[i].size + 48 + bs[i + 1].size;
      && |r| > i && r[..i] == bs[..i] && r[i].addr == bs[i].addr && !r[i].free
      && (if all <= want + 64 then r[i].size == all && r[i + 1..] == bs[i + 2..]
          else r[i].size == want && |r| == |bs| && r[i + 1..] == [Block(End(r[i]), all - want - 48, true)] + bs[i + 2..])
  {
    GrowIs(bs, i);
    GrowKeeps(bs, i, base, end);
    hide HeapOk, Grow, Moved, Coalesce;
    GrownBlocks(bs, i, want);
  }

  lemma GrownBlocks(bs: seq<Block>, i: nat, want: nat)
    requires i + 1 < |bs| && !bs[i].free && bs[i].size < want <= bs[i].size + 48 + bs[i + 1].size
    ensures var all := bs[i].size + 48 + bs[i + 1].size;
      i < |Absorb(bs, i)| && Absorb(bs, i)[i].size == all
      && Take(Absorb(bs, i), i, want)
         == bs[..i] + (if all <= want + 64 then [Block(bs[i].addr, all, false)]
                       else [Block(bs[i].addr, want, false), Block(bs[i].addr + 48 + want, all - want - 48, true)]) + bs[i + 2..]
  {
    var g := Absorb(bs, i);
    assert g[..i] == bs[..i] && g[i + 1..] == bs[i + 2..];
  }
}
