/**
 * What pmm_alloc_pages answers to every request (kernel/mm/pmm.c), said of pages and node
 * numbers only.
 */
module PmmAnswers {
  import opened Words
  import opened Bitmap
  import opened PmmSpec

  // s starts the first run of that many free pages between lo and hi.
  predicate Leftmost(m: Pmm, lo: nat, hi: nat, count: nat, s: nat) {
    lo <= s && s + count <= hi && RunAt(m.bits, s, count) && forall t: nat :: lo <= t < s ==> !RunAt(m.bits, t, count)
  }

  predicate NoRun(m: Pmm, lo: nat, hi: nat, count: nat) {
    forall t: nat :: lo <= t && t + count <= hi ==> !RunAt(m.bits, t, count)
  }

  // These pages and no others have come into use, and one counter is down by as many.
  ghost predicate Taken(m: Pmm, r: Allocated, s: nat, count: nat) {
    && r.addr == 4096 * s && r.m.free == m.free - count
    && forall p: nat :: Test(r.m.bits, p) <==> s <= p < s + count || Test(m.bits, p)
  }

  // The node that serves a run of this length: the one asked for if it has one, else the
  // other. Any number but 1 asks for node 0.
  function Server(m: Pmm, count: nat, node: Byte): (n: nat)
    requires Geometry(m)
    ensures n < 2
  {
    var home := if node == 1 then 1 else 0;
    if NoRun(m, m.nodes[home].start, m.nodes[home].end, count) then 1 - home else home
  }

  /**
   * No page: address 0 and nothing changes. One page, or several on a named node: the first
   * run of the node asked for, or else of the other; with neither, one page is refused and
   * several never return. Several with NUMA_NODE_ANY: the first run from 1 MB on, even one
   * that crosses the nodes, or else address 0.
   */
  lemma AllocPagesAnswers(m: Pmm, count: Word, node: Byte, fuel: nat, o: Outcome)
    requires Inv(m) && fuel >= 1 && Geometry(m) && o == AllocPagesWithin(m, count, node, fuel)
    ensures count == 0 ==> o == Returned(Allocated(m, 0))
    ensures count >= 1 && (count == 1 || node != 255) ==>
      var n := m.nodes[Server(m, count, node)];
      if NoRun(m, n.start, n.end, count) then o == if count == 1 then Returned(Allocated(m, 0)) else OutOfFuel
      else o.Returned? && exists s: nat :: Leftmost(m, n.start, n.end, count, s) && Taken(m, o.r, s, count)
    ensures count >= 2 && node == 255 ==>
      if NoRun(m, 256, m.highest + 1, count) then o == Returned(Allocated(m, 0))
      else o.Returned? && exists s: nat :: Leftmost(m, 256, m.highest + 1, count, s) && Taken(m, o.r, s, count)
  {
    hide Inv, Taken, Leftmost, NoRun, AllocPage, TakeRun, TakeAnyRun, RunAt;
    if count == 1 {
      OnePage(m, node, fuel, o);
    } else if count >= 2 && node == 255 {
      AnyRun(m, count);
    } else if count >= 2 {
      NamedRun(m, count, node, fuel, o);
    }
  }

  lemma OnePage(m: Pmm, node: Byte, fuel: nat, o: Outcome)
    requires Inv(m) && Geometry(m) && o == Returned(AllocPage(m, node))
    ensures var n := m.nodes[Server(m, 1, node)];
      if NoRun(m, n.start, n.end, 1) then o == Returned(Allocated(m, 0))
      else exists s: nat :: Leftmost(m, n.start, n.end, 1, s) && Taken(m, o.r, s, 1)
  {
    hide Test, FreeIn, Take, FirstRun, Reserved, NodeCounts;
    PageOfNode(m, 0);
    PageOfNode(m, 1);
    hide Inv, AllocFromNode, Taken, Leftmost, NoRun;
  }

  lemma PageOfNode(m: Pmm, node: nat)
    requires Inv(m) && node < 2
    ensures Geometry(m)
    ensures var n, r := m.nodes[node], AllocFromNode(m, node);
      if NoRun(m, n.start, n.end, 1) then r == Allocated(m, 0)
      else r.addr != 0 && exists s: nat :: Leftmost(m, n.start, n.end, 1, s) && Taken(m, r, s, 1)
  {
    InvGeometry(m);
    SameAsRun(m, node);
    RunOfNode(m, node, 1);
  }

  // One page is a run of one.
  lemma SameAsRun(m: Pmm, node: nat)
    requires Geometry(m) && node < 2
    ensures AllocFromNode(m, node) == TakeRun(m, node, 1)
  {
    hide FirstRun, Take, Geometry;
  }

  lemma RunOfNode(m: Pmm, node: nat, count: nat)
    requires Inv(m) && node < 2 && 0 < count
    ensures Geometry(m)
    ensures var n, r := m.nodes[node], TakeRun(m, node, count);
      if NoRun(m, n.start, n.end, count) then r == Allocated(m, 0)
      else r.addr != 0 && exists s: nat :: Leftmost(m, n.start, n.end, count, s) && Taken(m, r, s, count)
  {
    hide Test, FreeIn, RunAt, Take, Reserved, FirstRun, NodeCounts;
    InvGeometry(m);
    var n, r := m.nodes[node], TakeRun(m, node, count);
    TakeRunSpec(m, node, count);
    var s := r.addr / PAGE_SIZE;
    if r.addr != 0 {
      assert !NoRun(m, n.start, n.end, count);
      FreeAfter(m, r, s, count);
      assert Leftmost(m, n.start, n.end, count, s) && Taken(m, r, s, count);
    } else {
      TookNothing(m, node, count);
    }
  }

  lemma TookNothing(m: Pmm, node: nat, count: nat)
    requires Geometry(m) && node < 2 && 0 < count && TakeRun(m, node, count).addr == 0
    ensures m.nodes[node].start > 0 && TakeRun(m, node, count) == Allocated(m, 0)
  {
    hide Take, FirstRun;
    var n := m.nodes[node];
    FirstRunInside(m, n.start, n.end, count);
  }

  lemma FirstRunInside(m: Pmm, lo: nat, hi: nat, count: nat)
    requires lo <= hi && 0 < count
    ensures FirstRun(m.bits, lo, hi, count) >= lo
  {
    FirstRunIsLeftmost(m.bits, lo, hi, count);
  }

  lemma FreeAfter(m: Pmm, r: Allocated, s: nat, count: nat)
    requires Inv(m) && Granted(m, r, count) && s == r.addr / PAGE_SIZE
    ensures r.m.free == m.free - count && r.addr == 4096 * s
  {
    hide Test, FreeIn, RunAt, NodeCounts;
    FreeInTaken(m, r.m, s, count);
  }

  lemma FreeInTaken(a: Pmm, b: Pmm, s: nat, count: nat)
    requires Geometry(a) && Geometry(b) && RunAt(a.bits, s, count) && s + count <= MAX_PAGES
    requires forall p: nat :: Test(b.bits, p) <==> s <= p < s + count || Test(a.bits, p)
    ensures FreeIn(b.bits, 0, MAX_PAGES) == FreeIn(a.bits, 0, MAX_PAGES) - count
  {
    hide Test, FreeIn;
    FreeInSetRange(a.bits, 0, MAX_PAGES, s, count);
    forall p: nat ensures Test(SetRange(a.bits, s, count), p) <==> Test(b.bits, p) { TestSetRange(a.bits, s, count, p); }
    FreeInSame(SetRange(a.bits, s, count), b.bits, 0, MAX_PAGES);
  }

  lemma NamedRun(m: Pmm, count: Word, node: Byte, fuel: nat, o: Outcome)
    requires Inv(m) && Geometry(m) && 2 <= count && node != 255 && fuel >= 1
    requires o == AllocPagesWithin(m, count, node, fuel)
    ensures var n := m.nodes[Server(m, count, node)];
      if NoRun(m, n.start, n.end, count) then o == OutOfFuel
      else o.Returned? && exists s: nat :: Leftmost(m, n.start, n.end, count, s) && Taken(m, o.r, s, count)
  {
    RunOfNode(m, 0, count);
    RunOfNode(m, 1, count);
    hide Inv, TakeRun, Taken, Leftmost, NoRun, AllocPagesWithin, RunAt;
    var p := Preferred(node);
    Unfolded(m, count, node, fuel);
    if TakeRun(m, p, count).addr == 0 {
      Unfolded(m, count, 1 - p, fuel - 1);
      if TakeRun(m, 1 - p, count).addr == 0 {
        NeitherHas(m, count);
        RunsForEver(m, count, node, fuel);
      }
    }
  }

  lemma Unfolded(m: Pmm, count: Word, node: Byte, fuel: nat)
    requires Geometry(m) && 2 <= count && node != 255
    ensures AllocPagesWithin(m, count, node, fuel) ==
      var p := Preferred(node);
      if TakeRun(m, p, count).addr != 0 then Returned(TakeRun(m, p, count))
      else if fuel == 0 then OutOfFuel else AllocPagesWithin(m, count, 1 - p, fuel - 1)
  {
    hide TakeRun;
  }

  lemma NeitherHas(m: Pmm, count: Word)
    requires Geometry(m)
    requires forall node: nat :: node < 2 ==> NoRun(m, m.nodes[node].start, m.nodes[node].end, count)
    ensures !HasRun(m, count)
  {
    hide RunAt;
  }

  lemma AnyRun(m: Pmm, count: Word)
    requires Inv(m) && Geometry(m) && 2 <= count
    ensures var r := TakeAnyRun(m, count);
      if NoRun(m, 256, m.highest + 1, count) then r == Allocated(m, 0)
      else exists s: nat :: Leftmost(m, 256, m.highest + 1, count, s) && Taken(m, r, s, count)
  {
    hide Test, FreeIn, RunAt, FirstRun, NodeCounts;
    AnyRunKeepsIff(m, count);
    var s, r := FirstRun(m.bits, LOW_PAGES, m.highest + 1, count), TakeAnyRun(m, count);
    FirstRunIsLeftmost(m.bits, LOW_PAGES, m.highest + 1, count);
    if s <= m.highest {
      RunInside(m, s, count);
      TakeBits(m, NodeOf(m, s), s, count);
      TakenFree(m, NodeOf(m, s), s, count);
      assert Leftmost(m, 256, m.highest + 1, count, s) && Taken(m, r, s, count);
    }
  }

  lemma TakenFree(m: Pmm, node: nat, s: nat, count: nat)
    requires Inv(m) && node < 2 && RunAt(m.bits, s, count) && s + count <= MAX_PAGES
    ensures Geometry(m) && Take(m, node, s, count).free == m.free - count
  {
    hide Test, FreeIn, RunAt, SetRange, NodeCounts, Wrap;
    FreeInSetRange(m.bits, 0, MAX_PAGES, s, count);
    WrapSmall(m.free - count);
  }
}
