/**
 The kernel heap as the list of blocks it keeps (kernel/mm/kheap.c): what split, first fit,
 coalesce, free and realloc do to the list, and what every sequence of them keeps.
 */
module KheapSpec {
  import opened Basics

  const HEADER: nat := 48                       // sizeof(block_header_t) on x86_64
  const SIZE_LIMIT: nat := 0x1_0000_0000_0000_0000  // size_t is 64 bits wide

  datatype Block = Block(addr: nat, size: nat, free: bool)

  function Payload(b: Block): nat { b.addr + HEADER }

  function End(b: Block): nat { b.addr + HEADER + b.size }

  /** ALIGN_UP(size, 16) in size_t arithmetic. */
  function AlignUp(size: nat): (want: nat)
    requires size < SIZE_LIMIT
    ensures want % 16 == 0
  {
    (size + 15) % SIZE_LIMIT / 16 * 16
  }

  /** Rounding up covers the request unless the sum wraps, when it asks for nothing at all. */
  lemma AlignUpCovers(size: nat)
    requires size < SIZE_LIMIT
    ensures size <= AlignUp(size) <==> size <= SIZE_LIMIT - 16
    ensures size > SIZE_LIMIT - 16 ==> AlignUp(size) == 0
    ensures size <= AlignUp(size) ==> AlignUp(size) < size + 16
  {
  }

  // ----- the list invariant -----

  /** An exact tiling of [base, end) by 16-aligned blocks. */
  ghost predicate Tiles(bs: seq<Block>, base: nat, end: nat) {
    && bs != [] && bs[0].addr == base && End(bs[|bs| - 1]) == end && base % 16 == 0
    && (forall i :: 0 <= i < |bs| ==> bs[i].size % 16 == 0)
    && (forall i :: 0 < i < |bs| ==> bs[i].addr == End(bs[i - 1]))
  }

  ghost predicate NoAdjacentFree(bs: seq<Block>) {
    forall i :: 0 < i < |bs| ==> !(bs[i - 1].free && bs[i].free)
  }

  ghost predicate HeapOk(bs: seq<Block>, base: nat, end: nat) {
    Tiles(bs, base, end) && NoAdjacentFree(bs)
  }

  // ----- operations -----

  /** split_block */
  function Split(bs: seq<Block>, i: nat, want: nat): seq<Block>
    requires i < |bs| && want <= bs[i].size
  {
    var b := bs[i];
    if b.size - want <= HEADER + 16 then bs
    else bs[..i] + [b.(size := want), Block(Payload(b) + want, b.size - want - HEADER, true)] + bs[i + 1..]
  }

  /** The walk of kmalloc: the first free block that is large enough. */
  function FirstFit(bs: seq<Block>, want: nat, i: nat): (r: Option<nat>)
    requires i <= |bs|
    ensures r.Some? ==> i <= r.value < |bs| && bs[r.value].free && bs[r.value].size >= want
    ensures r.Some? ==> forall k :: i <= k < r.value ==> !(bs[k].free && bs[k].size >= want)
    ensures r.None? <==> forall k :: i <= k < |bs| ==> !(bs[k].free && bs[k].size >= want)
    decreases |bs| - i
  {
    if i == |bs| then None
    else if bs[i].free && bs[i].size >= want then Some(i)
    else FirstFit(bs, want, i + 1)
  }

  function SetFree(bs: seq<Block>, i: nat, free: bool): seq<Block>
    requires i < |bs|
  {
    bs[i := bs[i].(free := free)]
  }

  /** kmalloc once a block has been found. */
  function Take(bs: seq<Block>, i: nat, want: nat): seq<Block>
    requires i < |bs| && want <= bs[i].size
  {
    SetFree(Split(bs, i, want), i, false)
  }

  /** A request for 2^64 - 1 bytes is granted, with a block of no bytes. */
  lemma HugeRequestExample()
    ensures var bs := [Block(0, 4096, true)];
            var want := AlignUp(SIZE_LIMIT - 1);
            && want == 0 && FirstFit(bs, want, 0) == Some(0)
            && Take(bs, 0, want)[0] == Block(0, 0, false)
  {
    AlignUpCovers(SIZE_LIMIT - 1);
  }

  /** One round of the forward loop of coalesce. */
  function Absorb(bs: seq<Block>, i: nat): seq<Block>
    requires i + 1 < |bs|
  {
    bs[..i] + [bs[i].(size := bs[i].size + HEADER + bs[i + 1].size)] + bs[i + 2..]
  }

  function MergeForward(bs: seq<Block>, i: nat): (r: seq<Block>)
    requires i < |bs|
    ensures i < |r|
    decreases |bs|
  {
    if i + 1 < |bs| && bs[i + 1].free then MergeForward(Absorb(bs, i), i) else bs
  }

  /** The backward walk of coalesce. */
  function RunStart(bs: seq<Block>, i: nat): (s: nat)
    requires i < |bs|
    ensures s <= i
  {
    if i > 0 && bs[i - 1].free then RunStart(bs, i - 1) else i
  }

  function Coalesce(bs: seq<Block>, i: nat): seq<Block>
    requires i < |bs|
  {
    MergeForward(bs, if bs[i].free then RunStart(bs, i) else i)
  }

  /** kfree of the live block `i`. */
  function Release(bs: seq<Block>, i: nat): seq<Block>
    requires i < |bs|
  {
    Coalesce(SetFree(bs, i, true), i)
  }

  /** The grow-in-place attempt of krealloc: swallow free successors. */
  function Grow(bs: seq<Block>, i: nat): seq<Block>
    requires i < |bs|
  {
    if i + 1 < |bs| && bs[i + 1].free then Coalesce(bs, i) else bs
  }

  // ----- tiling facts -----

  lemma {:induction false} Ordered(bs: seq<Block>, base: nat, end: nat, i: nat, j: nat)
    requires Tiles(bs, base, end) && i < j < |bs|
    ensures End(bs[i]) <= bs[j].addr
    decreases j - i
  {
    if i + 1 < j {
      Ordered(bs, base, end, i + 1, j);
    }
  }

  lemma {:induction false} Aligned(bs: seq<Block>, base: nat, end: nat, i: nat)
    requires Tiles(bs, base, end) && i < |bs|
    ensures bs[i].addr % 16 == 0 && base <= bs[i].addr && End(bs[i]) <= end
    decreases |bs| - i
  {
    AlignedAddr(bs, base, end, i);
    if i + 1 < |bs| {
      Ordered(bs, base, end, i, |bs| - 1);
    }
  }

  lemma {:induction false} AlignedAddr(bs: seq<Block>, base: nat, end: nat, i: nat)
    requires Tiles(bs, base, end) && i < |bs|
    ensures bs[i].addr % 16 == 0 && base <= bs[i].addr
  {
    if i > 0 {
      AlignedAddr(bs, base, end, i - 1);
    }
  }

  /** Live payloads are 16-aligned, inside the heap and pairwise disjoint, and no header lies in
      any of them. */
  lemma PayloadsDisjoint(bs: seq<Block>, base: nat, end: nat, i: nat, j: nat)
    requires Tiles(bs, base, end) && i < |bs| && j < |bs| && i != j
    ensures Payload(bs[i]) % 16 == 0 && base <= Payload(bs[i]) && End(bs[i]) <= end
    ensures End(bs[i]) <= bs[j].addr || End(bs[j]) <= bs[i].addr
  {
    Aligned(bs, base, end, i);
    if i < j {
      Ordered(bs, base, end, i, j);
    } else {
      Ordered(bs, base, end, j, i);
    }
  }

  function Total(bs: seq<Block>): nat {
    if bs == [] then 0 else HEADER + bs[|bs| - 1].size + Total(bs[..|bs| - 1])
  }

  /** Bytes are conserved: headers and payloads add up to the heap. */
  lemma {:induction false} BytesConserved(bs: seq<Block>, base: nat, end: nat)
    requires Tiles(bs, base, end)
    ensures Total(bs) == end - base
  {
    var n := |bs| - 1;
    if n == 0 {
      assert bs[..n] == [];
    } else {
      BytesConserved(bs[..n], base, bs[n].addr);
    }
  }

  // ----- kmalloc -----

  /** Replacing a stretch of blocks by others that cover the same bytes keeps the tiling. */
  lemma SpliceTiles(bs: seq<Block>, i: nat, j: nat, mid: seq<Block>, base: nat, end: nat)
    requires Tiles(bs, base, end) && i < j <= |bs| && mid != []
    requires mid[0].addr == bs[i].addr && End(mid[|mid| - 1]) == End(bs[j - 1])
    requires forall k :: 0 <= k < |mid| ==> mid[k].size % 16 == 0
    requires forall k :: 0 < k < |mid| ==> mid[k].addr == End(mid[k - 1])
    ensures Tiles(bs[..i] + mid + bs[j..], base, end)
  {
    var r := bs[..i] + mid + bs[j..];
    var d := i + |mid|;
    forall k | 0 < k < |r| ensures r[k].addr == End(r[k - 1]) {
      if k <= i {
        assert r[k - 1] == bs[k - 1];
      } else if k < d {
        assert r[k] == mid[k - i] && r[k - 1] == mid[k - i - 1];
      } else {
        assert r[k] == bs[k - d + j];
        assert r[k - 1] == if k == d then mid[|mid| - 1] else bs[k - d + j - 1];
      }
    }
    assert r[|r| - 1] == if j == |bs| then mid[|mid| - 1] else bs[|bs| - 1];
  }

  lemma MultiplesOf16(size: nat, want: nat)
    requires size % 16 == 0 && want % 16 == 0 && size - want > HEADER
    ensures (size - want - HEADER) % 16 == 0
  {
  }

  /** One block replaced by two that cover it. */
  lemma SpliceTwo(bs: seq<Block>, i: nat, b: Block, c: Block, base: nat, end: nat)
    requires Tiles(bs, base, end) && i < |bs|
    requires b.addr == bs[i].addr && c.addr == End(b) && End(c) == End(bs[i])
    requires b.size % 16 == 0 && c.size % 16 == 0
    ensures Tiles(bs[..i] + [b, c] + bs[i + 1..], base, end)
  {
    hide Tiles;
    SpliceTiles(bs, i, i + 1, [b, c], base, end);
  }

  lemma SplitKeeps(bs: seq<Block>, i: nat, want: nat, base: nat, end: nat)
    requires Tiles(bs, base, end) && i < |bs| && want <= bs[i].size && want % 16 == 0
    ensures Tiles(Split(bs, i, want), base, end)
    ensures i < |Split(bs, i, want)|
  {
    var b := bs[i];
    assert b.size % 16 == 0;
    if b.size - want > HEADER + 16 {
      hide Tiles;
      MultiplesOf16(b.size, want);
      SpliceTwo(bs, i, b.(size := want), Block(Payload(b) + want, b.size - want - HEADER, true), base, end);
    }
  }

  lemma SetFreeTiles(bs: seq<Block>, i: nat, free: bool, base: nat, end: nat)
    requires Tiles(bs, base, end) && i < |bs|
    ensures Tiles(SetFree(bs, i, free), base, end)
  {
  }

  lemma TakeApart(bs: seq<Block>, i: nat, want: nat)
    requires NoAdjacentFree(bs) && i < |bs| && bs[i].free && want <= bs[i].size
    ensures NoAdjacentFree(Take(bs, i, want))
  {
  }

  /** kmalloc grants the block first fit found, at least as large as wanted, and changes no
      other live block. */
  lemma TakeKeeps(bs: seq<Block>, i: nat, want: nat, base: nat, end: nat)
    requires HeapOk(bs, base, end) && i < |bs| && bs[i].free && want <= bs[i].size && want % 16 == 0
    ensures var t := Take(bs, i, want);
            && HeapOk(t, base, end) && i < |t| && t[i].addr == bs[i].addr && !t[i].free
            && want <= t[i].size <= want + HEADER + 16
  {
    SplitKeeps(bs, i, want, base, end);
    TakeApart(bs, i, want);
    SetFreeTiles(Split(bs, i, want), i, false, base, end);
    hide Tiles, NoAdjacentFree;
  }

  lemma TakeLive(bs: seq<Block>, i: nat, want: nat, b: Block)
    requires i < |bs| && bs[i].free && want <= bs[i].size && !b.free
    ensures i < |Take(bs, i, want)|
    ensures b in Take(bs, i, want) <==> b in bs || b == Take(bs, i, want)[i]
  {
    var t := Take(bs, i, want);
    if b in bs {
      var k :| 0 <= k < |bs| && bs[k] == b;
      assert t[if k < i then k else k + (|t| - |bs|)] == b;
    }
    if b in t {
      var k :| 0 <= k < |t| && t[k] == b;
      if k < i {
        assert bs[k] == b;
      } else if k > i {
        assert bs[k - (|t| - |bs|)] == b;
      }
    }
  }

  /** kmalloc fails exactly when no free block is large enough. */
  lemma FailsIffNoneFits(bs: seq<Block>, want: nat)
    ensures FirstFit(bs, want, 0).None? <==> forall b :: b in bs && b.free ==> b.size < want
  {
    if FirstFit(bs, want, 0).Some? {
      assert bs[FirstFit(bs, want, 0).value] in bs;
    }
  }

  // ----- kfree -----

  lemma AbsorbKeeps(bs: seq<Block>, i: nat, base: nat, end: nat)
    requires Tiles(bs, base, end) && i + 1 < |bs|
    ensures Tiles(Absorb(bs, i), base, end)
  {
    SpliceTiles(bs, i, i + 2, [bs[i].(size := bs[i].size + HEADER + bs[i + 1].size)], base, end);
  }

  function FreeLeft(bs: seq<Block>, i: nat): bool
    requires i < |bs|
  {
    i > 0 && bs[i - 1].free
  }

  function FreeRight(bs: seq<Block>, i: nat): bool
    requires i < |bs|
  {
    i + 1 < |bs| && bs[i + 1].free
  }

  /** What the two loops of coalesce come to on a list without adjacent free blocks: the freed
      block joins its free neighbours, at most one on each side. */
  function Joined(bs: seq<Block>, i: nat): seq<Block>
    requires i < |bs|
  {
    var d := JoinedRight(bs, i);
    if FreeLeft(bs, i) then Absorb(d, i - 1) else d
  }

  lemma ReleaseIsJoined(bs: seq<Block>, i: nat)
    requires i < |bs| && NoAdjacentFree(bs) && !bs[i].free
    ensures Release(bs, i) == Joined(bs, i)
  {
    var c := SetFree(bs, i, true);
    NeighboursTaken(bs, i);
    hide NoAdjacentFree;
    if FreeLeft(bs, i) {
      assert RunStart(c, i) == i - 1 by {
        assert RunStart(c, i - 1) == i - 1;
      }
      MergeBoth(c, i - 1);
    } else {
      assert RunStart(c, i) == i;
      MergeRight(c, i);
    }
  }

  /** The forward loop swallows the one free block it meets. */
  lemma MergeRight(c: seq<Block>, i: nat)
    requires i < |c| && (FreeRight(c, i) && i + 2 < |c| ==> !c[i + 2].free)
    ensures MergeForward(c, i) == if FreeRight(c, i) then Absorb(c, i) else c
  {
    if FreeRight(c, i) {
      AbsorbShape(c, i);
      var d := Absorb(c, i);
      hide Absorb;
      assert MergeForward(c, i) == MergeForward(d, i) == d;
    }
  }

  /** From the left neighbour it swallows the freed block and then the one behind it. */
  lemma MergeBoth(c: seq<Block>, i: nat)
    requires i + 1 < |c| && c[i + 1].free && (FreeRight(c, i + 1) && i + 3 < |c| ==> !c[i + 3].free)
    ensures MergeForward(c, i) == Absorb(if FreeRight(c, i + 1) then Absorb(c, i + 1) else c, i)
  {
    var d := Absorb(c, i);
    AbsorbShape(c, i);
    if i + 2 < |c| {
      AbsorbTwice(c, i);
    }
    hide Absorb;
    assert MergeForward(c, i) == MergeForward(d, i);
    MergeRight(d, i);
  }

  lemma AbsorbTwice(c: seq<Block>, i: nat)
    requires i + 2 < |c|
    ensures Absorb(Absorb(c, i), i) == Absorb(Absorb(c, i + 1), i)
  {
  }

  lemma ReleaseKeeps(bs: seq<Block>, i: nat, base: nat, end: nat)
    requires HeapOk(bs, base, end) && i < |bs| && !bs[i].free
    ensures HeapOk(Release(bs, i), base, end)
  {
    ReleaseIsJoined(bs, i);
    JoinedTiles(bs, i, base, end);
    JoinedApart(bs, i);
  }

  lemma JoinedTiles(bs: seq<Block>, i: nat, base: nat, end: nat)
    requires Tiles(bs, base, end) && i < |bs|
    ensures Tiles(Joined(bs, i), base, end)
  {
    var c := SetFree(bs, i, true);
    SetFreeTiles(bs, i, true, base, end);
    hide Tiles, Absorb;
    if FreeRight(bs, i) {
      AbsorbKeeps(c, i, base, end);
    }
    if FreeLeft(bs, i) {
      AbsorbKeeps(JoinedRight(bs, i), i - 1, base, end);
    }
  }

  lemma AbsorbShape(bs: seq<Block>, i: nat)
    requires i + 1 < |bs|
    ensures var r := Absorb(bs, i);
            && |r| == |bs| - 1 && r[i].addr == bs[i].addr && r[i].free == bs[i].free
            && (forall k :: 0 <= k < i ==> r[k] == bs[k])
            && (forall k :: i < k < |r| ==> r[k] == bs[k + 1])
  {
  }

  function JoinAt(bs: seq<Block>, i: nat): nat
    requires i < |bs|
  {
    if FreeLeft(bs, i) then i - 1 else i
  }

  /** The list once the freed block has joined its right neighbour. */
  function JoinedRight(bs: seq<Block>, i: nat): seq<Block>
    requires i < |bs|
  {
    if FreeRight(bs, i) then Absorb(SetFree(bs, i, true), i) else SetFree(bs, i, true)
  }

  /** `r` shows the blocks of `bs`, with those from `lo` to `lo + shift` made one. */
  ghost predicate Collapsed(bs: seq<Block>, r: seq<Block>, lo: nat, shift: nat) {
    && lo < |r| && |r| + shift == |bs|
    && r[..lo] == bs[..lo] && r[lo + 1..] == bs[lo + 1 + shift..]
  }

  lemma CollapsedAt(bs: seq<Block>, r: seq<Block>, lo: nat, shift: nat, k: nat)
    requires Collapsed(bs, r, lo, shift) && k < |r| && k != lo
    ensures r[k] == if k < lo then bs[k] else bs[k + shift]
  {
    if k < lo {
      assert r[..lo][k] == bs[..lo][k];
    } else {
      assert r[lo + 1..][k - lo - 1] == bs[lo + 1 + shift..][k - lo - 1];
    }
  }

  lemma CollapsedTwice(bs: seq<Block>, d: seq<Block>, r: seq<Block>, i: nat, shift: nat)
    requires i > 0 && Collapsed(bs, d, i, shift) && Collapsed(d, r, i - 1, 1)
    ensures Collapsed(bs, r, i - 1, shift + 1)
  {
    assert r[..i - 1] == d[..i][..i - 1] == bs[..i][..i - 1];
  }

  lemma AbsorbCollapses(bs: seq<Block>, i: nat)
    requires i + 1 < |bs|
    ensures Collapsed(bs, Absorb(bs, i), i, 1) && Absorb(bs, i)[i].free == bs[i].free
  {
  }

  lemma JoinedRightShape(bs: seq<Block>, i: nat)
    requires i < |bs|
    ensures Collapsed(bs, JoinedRight(bs, i), i, if FreeRight(bs, i) then 1 else 0)
    ensures JoinedRight(bs, i)[i].free
  {
    var c := SetFree(bs, i, true);
    assert c[..i] == bs[..i];
    if FreeRight(bs, i) {
      AbsorbCollapses(c, i);
      assert c[i + 2..] == bs[i + 2..];
    }
  }

  lemma JoinedShape(bs: seq<Block>, i: nat)
    requires i < |bs|
    ensures var r, lo := Joined(bs, i), JoinAt(bs, i);
            && |r| <= |bs| && Collapsed(bs, r, lo, |bs| - |r|) && r[lo].free && lo <= i
            && lo + (|bs| - |r|) == (if FreeRight(bs, i) then i + 1 else i)
  {
    JoinedRightShape(bs, i);
    var d := JoinedRight(bs, i);
    if FreeLeft(bs, i) {
      CollapsedAt(bs, d, i, |bs| - |d|, i - 1);
      AbsorbCollapses(d, i - 1);
      hide Absorb, JoinedRight;
      CollapsedTwice(bs, d, Absorb(d, i - 1), i, |bs| - |d|);
    }
  }

  /** Beyond the free neighbours of a live block there is none. */
  lemma NeighboursTaken(bs: seq<Block>, i: nat)
    requires NoAdjacentFree(bs) && i < |bs|
    ensures FreeRight(bs, i) && i + 2 < |bs| ==> !bs[i + 2].free
    ensures FreeLeft(bs, i) && i > 1 ==> !bs[i - 2].free
  {
  }

  lemma JoinedApart(bs: seq<Block>, i: nat)
    requires NoAdjacentFree(bs) && i < |bs| && !bs[i].free
    ensures NoAdjacentFree(Joined(bs, i))
  {
    NeighboursTaken(bs, i);
    JoinedShape(bs, i);
    hide Joined, NoAdjacentFree, Collapsed;
    CollapsedApart(bs, Joined(bs, i), JoinAt(bs, i), |bs| - |Joined(bs, i)|);
  }

  lemma CollapsedApart(bs: seq<Block>, r: seq<Block>, lo: nat, shift: nat)
    requires NoAdjacentFree(bs) && Collapsed(bs, r, lo, shift)
    requires lo > 0 ==> !bs[lo - 1].free
    requires lo + 1 < |r| ==> !bs[lo + 1 + shift].free
    ensures NoAdjacentFree(r)
  {
    forall k | 0 < k < |r| ensures !(r[k - 1].free && r[k].free) {
      if k != lo {
        CollapsedAt(bs, r, lo, shift, k);
      }
      if k - 1 != lo {
        CollapsedAt(bs, r, lo, shift, k - 1);
      }
    }
  }

  /** kfree removes exactly the freed block from the live ones. */
  lemma ReleaseLive(bs: seq<Block>, i: nat, b: Block, base: nat, end: nat)
    requires HeapOk(bs, base, end) && i < |bs| && !bs[i].free && !b.free
    ensures b in Release(bs, i) <==> b in bs && b != bs[i]
  {
    ReleaseIsJoined(bs, i);
    JoinedShape(bs, i);
    hide Joined, Release, Collapsed;
    var r := Joined(bs, i);
    CollapsedLive(bs, r, i, JoinAt(bs, i), |bs| - |r|, b);
    hide Tiles, NoAdjacentFree;
    if b in r {
      var j :| 0 <= j < |bs| && j != i && bs[j] == b;
      PayloadsDisjoint(bs, base, end, i, j);
    }
  }

  lemma CollapsedLive(bs: seq<Block>, r: seq<Block>, i: nat, lo: nat, shift: nat, b: Block)
    requires Collapsed(bs, r, lo, shift) && r[lo].free && lo <= i <= lo + shift && !b.free
    requires forall k :: lo <= k <= lo + shift && k != i ==> bs[k].free
    ensures b in bs && b != bs[i] ==> b in r
    ensures b in r ==> exists j :: 0 <= j < |bs| && j != i && bs[j] == b
  {
    if b in bs && b != bs[i] {
      var k :| 0 <= k < |bs| && bs[k] == b;
      CollapsedAt(bs, r, lo, shift, if k < lo then k else k - shift);
    }
    if b in r {
      var k :| 0 <= k < |r| && r[k] == b;
      CollapsedAt(bs, r, lo, shift, k);
    }
  }

  /** Freeing what was just allocated restores the list exactly. */
  lemma ReleaseUndoesTake(bs: seq<Block>, i: nat, want: nat, base: nat, end: nat)
    requires HeapOk(bs, base, end) && i < |bs| && bs[i].free && want <= bs[i].size && want % 16 == 0
    ensures i < |Take(bs, i, want)| && Release(Take(bs, i, want), i) == bs
  {
    var t := Take(bs, i, want);
    TakeApart(bs, i, want);
    assert FreeLeft(t, i) == FreeLeft(bs, i) == FreeRight(bs, i) == false;
    hide Tiles, NoAdjacentFree;
    ReleaseIsJoined(t, i);
    hide Release, JoinedRight, Take, Split;
    RejoinSplit(bs, i, want);
  }

  /** The freed block and the rest split from it are the block there was. */
  lemma RejoinSplit(bs: seq<Block>, i: nat, want: nat)
    requires i < |bs| && bs[i].free && want <= bs[i].size
    requires i + 1 < |bs| ==> !bs[i + 1].free
    ensures i < |Take(bs, i, want)| && JoinedRight(Take(bs, i, want), i) == bs
  {
    var t := Take(bs, i, want);
    if bs[i].size - want > HEADER + 16 {
      assert Absorb(SetFree(t, i, true), i) == bs;
    } else {
      assert SetFree(t, i, true) == bs;
    }
  }

  // ----- krealloc -----

  lemma GrowIs(bs: seq<Block>, i: nat)
    requires i < |bs| && NoAdjacentFree(bs) && !bs[i].free
    ensures Grow(bs, i) == if FreeRight(bs, i) then Absorb(bs, i) else bs
  {
    NeighboursTaken(bs, i);
    MergeRight(bs, i);
  }

  lemma GrowKeeps(bs: seq<Block>, i: nat, base: nat, end: nat)
    requires HeapOk(bs, base, end) && i < |bs| && !bs[i].free
    ensures var g := Grow(bs, i);
            && HeapOk(g, base, end) && i < |g| && g[i].addr == bs[i].addr && !g[i].free && bs[i].size <= g[i].size
            && !FreeRight(g, i)
  {
    GrowIs(bs, i);
    if FreeRight(bs, i) {
      AbsorbKeeps(bs, i, base, end);
      AbsorbShape(bs, i);
      hide Absorb, Grow;
      var g := Absorb(bs, i);
      forall k | 0 < k < |g| ensures !(g[k - 1].free && g[k].free) {
        if k > i + 1 {
          assert g[k] == bs[k + 1] && g[k - 1] == bs[k];
        }
      }
    }
  }

  /** Growing keeps every other live block. */
  lemma GrowLive(bs: seq<Block>, i: nat, b: Block)
    requires i < |bs| && NoAdjacentFree(bs) && !bs[i].free && !b.free && b in bs && b != bs[i]
    ensures b in Grow(bs, i)
  {
    GrowIs(bs, i);
    var k :| 0 <= k < |bs| && bs[k] == b;
    if FreeRight(bs, i) {
      AbsorbShape(bs, i);
      assert Grow(bs, i)[if k < i then k else k - 1] == b;
    }
  }

  /** Trimming a live block with no free successor back to `want`. */
  lemma TrimKeeps(bs: seq<Block>, i: nat, want: nat, base: nat, end: nat)
    requires HeapOk(bs, base, end) && i < |bs| && !bs[i].free && !FreeRight(bs, i)
    requires want <= bs[i].size && want % 16 == 0
    ensures var t := Take(bs, i, want);
            && HeapOk(t, base, end) && i < |t| && t[i].addr == bs[i].addr && !t[i].free
            && want <= t[i].size <= want + HEADER + 16
  {
    SplitKeeps(bs, i, want, base, end);
  }

  lemma TrimLive(bs: seq<Block>, i: nat, want: nat, b: Block)
    requires i < |bs| && !bs[i].free && want <= bs[i].size && !b.free && b in bs && b != bs[i]
    ensures b in Take(bs, i, want)
  {
    var t := Take(bs, i, want);
    var k :| 0 <= k < |bs| && bs[k] == b;
    assert t[if k < i then k else k + (|t| - |bs|)] == b;
  }

  /** A live block's payload meets no header of the list. */
  lemma PayloadClear(bs: seq<Block>, base: nat, end: nat, b: Block, j: nat, k: nat)
    requires Tiles(bs, base, end) && b in bs && j < |bs| && Payload(b) <= k < End(b)
    ensures !(bs[j].addr <= k < Payload(bs[j])) && k < end
  {
    var i :| 0 <= i < |bs| && bs[i] == b;
    Aligned(bs, base, end, i);
    if i != j {
      PayloadsDisjoint(bs, base, end, i, j);
    }
  }
}
