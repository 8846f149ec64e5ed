/**
 The kernel heap in memory (kernel/mm/kheap.c): headers linked both ways, updated in place, and
 the bytes they are stored among. Every operation is proved to do to the linked headers what
 `KheapSpec` says it does to the block list.
 */
module Kheap {
  import opened Basics
  import opened KheapSpec
  import KheapRuns

  /** block_header_t without its magic; links are addresses, 0 is NULL. */
  datatype Header = Header(free: bool, size: nat, next: nat, prev: nat)

  // ----- headers and the list they spell -----

  function After(order: seq<nat>, i: nat): nat
    requires i < |order|
  {
    if i + 1 < |order| then order[i + 1] else 0
  }

  function Before(order: seq<nat>, i: nat): nat
    requires i < |order|
  {
    if i > 0 then order[i - 1] else 0
  }

  ghost predicate Distinct(order: seq<nat>) {
    && (forall i :: 0 <= i < |order| ==> order[i] > 0)
    && (forall i, j :: 0 <= i < j < |order| ==> order[i] != order[j])
  }

  ghost predicate LinkAt(headers: map<nat, Header>, order: seq<nat>, i: nat)
    requires i < |order| && order[i] in headers
  {
    headers[order[i]].next == After(order, i) && headers[order[i]].prev == Before(order, i)
  }

  /** `next` and `prev` are inverse and spell `order`. */
  ghost predicate Linked(headers: map<nat, Header>, order: seq<nat>) {
    && Distinct(order)
    && (forall i :: 0 <= i < |order| ==> order[i] in headers)
    && (forall i {:trigger LinkAt(headers, order, i)} :: 0 <= i < |order| ==> LinkAt(headers, order, i))
  }

  /** Headers of blocks merged into others are still in memory, and still say free. */
  ghost predicate LeftoversFree(headers: map<nat, Header>, order: seq<nat>) {
    forall a :: a in headers && a !in order ==> headers[a].free
  }

  ghost function BlocksOf(headers: map<nat, Header>, order: seq<nat>): (bs: seq<Block>)
    requires forall i :: 0 <= i < |order| ==> order[i] in headers
    ensures |bs| == |order|
  {
    seq(|order|, i requires 0 <= i < |order| => Block(order[i], headers[order[i]].size, headers[order[i]].free))
  }

  /** The four header writes of split_block. */
  function SplitHeaders(headers: map<nat, Header>, b: nat, want: nat): map<nat, Header>
    requires b in headers && headers[b].size >= want + HEADER
  {
    var h := headers[b];
    var nb := b + HEADER + want;
    var h1 := headers[nb := Header(true, h.size - want - HEADER, h.next, b)];
    var h2 := if h.next != 0 && h.next in h1 then h1[h.next := h1[h.next].(prev := nb)] else h1;
    h2[b := h.(next := nb, size := want)]
  }

  /** The address list after a split, and after a merge. */
  function Inserted(order: seq<nat>, i: nat, nb: nat): seq<nat>
    requires i < |order|
  {
    order[..i + 1] + [nb] + order[i + 1..]
  }

  function Removed(order: seq<nat>, i: nat): seq<nat>
    requires i + 1 < |order|
  {
    order[..i + 1] + order[i + 2..]
  }

  lemma InsertedHas(order: seq<nat>, i: nat, nb: nat, a: nat)
    requires i < |order|
    ensures a in Inserted(order, i, nb) <==> a in order || a == nb
  {
    assert order == order[..i + 1] + order[i + 1..];
  }

  lemma InsertedStart(order: seq<nat>, i: nat, nb: nat)
    requires i < |order|
    ensures var r := Inserted(order, i, nb); |r| == |order| + 1 && r[0] == order[0] && r[i] == order[i]
  {
  }

  lemma RemovedHas(order: seq<nat>, i: nat, a: nat)
    requires i + 1 < |order|
    ensures a in order <==> a in Removed(order, i) || a == order[i + 1]
    ensures order[i] in Removed(order, i)
  {
    assert order == order[..i + 1] + [order[i + 1]] + order[i + 2..];
    assert Removed(order, i)[i] == order[i];
  }

  lemma SplitFresh(headers: map<nat, Header>, order: seq<nat>, i: nat, want: nat, base: nat, end: nat)
    requires Linked(headers, order) && i < |order|
    requires Tiles(BlocksOf(headers, order), base, end)
    requires headers[order[i]].size > want + HEADER + 16
    ensures Distinct(Inserted(order, i, order[i] + HEADER + want))
  {
    var bs := BlocksOf(headers, order);
    var nb := order[i] + HEADER + want;
    forall j | 0 <= j < |order| ensures order[j] != nb {
      if j < i {
        Ordered(bs, base, end, j, i);
      } else if j > i {
        Ordered(bs, base, end, i, j);
      }
    }
  }

  lemma SplitLinkAt(headers: map<nat, Header>, order: seq<nat>, i: nat, want: nat, j: nat)
    requires Linked(headers, order) && i < |order| && headers[order[i]].size > want + HEADER + 16
    requires Distinct(Inserted(order, i, order[i] + HEADER + want)) && j <= |order|
    ensures var order' := Inserted(order, i, order[i] + HEADER + want);
            var headers' := SplitHeaders(headers, order[i], want);
            order'[j] in headers' && LinkAt(headers', order', j)
  {
    var nb := order[i] + HEADER + want;
    var order' := Inserted(order, i, nb);
    assert order'[i] == order[i] && order'[i + 1] == nb;
    assert LinkAt(headers, order, i);
    if j <= i {
      assert order'[j] == order[j];
      assert LinkAt(headers, order, j);
    } else if j > i + 1 {
      assert order'[j] == order[j - 1];
      assert LinkAt(headers, order, j - 1);
    }
  }

  lemma SplitNot(bs: seq<Block>, i: nat, want: nat)
    requires i < |bs| && want <= bs[i].size <= want + HEADER + 16
    ensures Split(bs, i, want) == bs
  {
  }

  /** All that the stores of split_block leave right. */
  lemma SplitFacts(bytes: seq<nat>, headers: map<nat, Header>, order: seq<nat>, i: nat, want: nat, base: nat, end: nat)
    requires Linked(headers, order) && LeftoversFree(headers, order) && i < |order| && want % 16 == 0
    requires Tiles(BlocksOf(headers, order), base, end)
    requires headers[order[i]].size > want + HEADER + 16
    ensures var nb := order[i] + HEADER + want;
            var order' := Inserted(order, i, nb);
            var headers' := SplitHeaders(headers, order[i], want);
            && Linked(headers', order') && LeftoversFree(headers', order')
            && Tiles(BlocksOf(headers', order'), base, end)
            && BlocksOf(headers', order') == Split(BlocksOf(headers, order), i, want)
            && |order'| == |order| + 1 && order'[0] == order[0] && order'[i] == order[i]
            && Kept(bytes, Scribbled(Scribbled2(bytes, nb, headers[order[i]].next), order[i]), order')
    ensures headers[order[i]].next != 0 ==> headers[order[i]].next in headers
  {
    hide Tiles, Kept, Split, SplitHeaders, BlocksOf, LeftoversFree, Inserted, Distinct, Scribbled;
    assert LinkAt(headers, order, i);
    InsertedStart(order, i, order[i] + HEADER + want);
    SplitLeftovers(headers, order, i, want);
    SplitLinks(headers, order, i, want, base, end);
    BlockAt(headers, order, i);
    SplitKeeps(BlocksOf(headers, order), i, want, base, end);
    SplitKept(bytes, order, i, order[i] + HEADER + want);
  }

  lemma SplitLeftovers(headers: map<nat, Header>, order: seq<nat>, i: nat, want: nat)
    requires Linked(headers, order) && LeftoversFree(headers, order) && i < |order|
    requires headers[order[i]].size >= want + HEADER
    ensures LeftoversFree(SplitHeaders(headers, order[i], want), Inserted(order, i, order[i] + HEADER + want))
  {
    hide LinkAt;
    var nb := order[i] + HEADER + want;
    var headers', order' := SplitHeaders(headers, order[i], want), Inserted(order, i, nb);
    forall a | a in headers' && a !in order' ensures headers'[a].free {
      InsertedHas(order, i, nb, a);
      SplitHeaderAt(headers, order[i], want, a);
    }
  }

  lemma SplitLinks(headers: map<nat, Header>, order: seq<nat>, i: nat, want: nat, base: nat, end: nat)
    requires Linked(headers, order) && i < |order|
    requires Tiles(BlocksOf(headers, order), base, end)
    requires headers[order[i]].size > want + HEADER + 16
    ensures var order' := Inserted(order, i, order[i] + HEADER + want);
            var headers' := SplitHeaders(headers, order[i], want);
            && Linked(headers', order')
            && BlocksOf(headers', order') == Split(BlocksOf(headers, order), i, want)
  {
    SplitFresh(headers, order, i, want, base, end);
    hide SplitHeaders, Tiles;
    var order' := Inserted(order, i, order[i] + HEADER + want);
    var headers' := SplitHeaders(headers, order[i], want);
    forall j | 0 <= j < |order'| ensures order'[j] in headers' && LinkAt(headers', order', j) {
      SplitLinkAt(headers, order, i, want, j);
    }
    var bs, bs' := Split(BlocksOf(headers, order), i, want), BlocksOf(headers', order');
    assert |bs| == |bs'|;
    forall j | 0 <= j < |bs'| ensures bs'[j] == bs[j] {
      SplitBlockAt(headers, order, i, want, j);
    }
  }

  /** Size and flag of each header after a split. */
  lemma SplitHeaderAt(headers: map<nat, Header>, b: nat, want: nat, x: nat)
    requires b in headers && headers[b].size >= want + HEADER && want + HEADER > 0
    requires x in headers || x == b + HEADER + want
    ensures var h := SplitHeaders(headers, b, want);
            && x in h
            && (x == b ==> h[x].size == want && h[x].free == headers[b].free)
            && (x == b + HEADER + want ==> h[x].size == headers[b].size - want - HEADER && h[x].free)
            && (x != b && x != b + HEADER + want ==> h[x].size == headers[x].size && h[x].free == headers[x].free)
  {
  }

  lemma SplitBlockAt(headers: map<nat, Header>, order: seq<nat>, i: nat, want: nat, j: nat)
    requires Linked(headers, order) && i < |order| && headers[order[i]].size > want + HEADER + 16
    requires Distinct(Inserted(order, i, order[i] + HEADER + want)) && j <= |order|
    ensures var order' := Inserted(order, i, order[i] + HEADER + want);
            var h := SplitHeaders(headers, order[i], want);
            && order'[j] in h
            && Block(order'[j], h[order'[j]].size, h[order'[j]].free) == Split(BlocksOf(headers, order), i, want)[j]
  {
    hide LinkAt, SplitHeaders;
    var nb := order[i] + HEADER + want;
    var order' := Inserted(order, i, nb);
    var bs := BlocksOf(headers, order);
    assert order'[j] == if j <= i then order[j] else if j == i + 1 then nb else order[j - 1];
    assert j != i ==> order'[j] != order[i] by { assert order'[i] == order[i]; }
    assert j != i + 1 ==> order'[j] != nb by { assert order'[i + 1] == nb; }
    SplitHeaderAt(headers, order[i], want, order'[j]);
    assert Split(bs, i, want)[j] == if j < i then bs[j] else if j == i then bs[i].(size := want)
      else if j == i + 1 then Block(nb, bs[i].size - want - HEADER, true) else bs[j - 1];
  }

  /** The header writes of one forward merge. */
  function AbsorbHeaders(headers: map<nat, Header>, b: nat): map<nat, Header>
    requires b in headers && headers[b].next in headers
  {
    var n := headers[headers[b].next];
    var h1 := headers[b := headers[b].(size := headers[b].size + HEADER + n.size, next := n.next)];
    if n.next != 0 && n.next in h1 then h1[n.next := h1[n.next].(prev := b)] else h1
  }

  lemma AbsorbLinkAt(headers: map<nat, Header>, order: seq<nat>, i: nat, j: nat)
    requires Linked(headers, order) && i + 1 < |order| && j + 1 < |order|
    ensures headers[order[i]].next == order[i + 1]
    ensures var order' := Removed(order, i);
            var headers' := AbsorbHeaders(headers, order[i]);
            order'[j] in headers' && LinkAt(headers', order', j)
  {
    assert LinkAt(headers, order, i) && LinkAt(headers, order, i + 1);
    if j <= i {
      assert LinkAt(headers, order, j);
    } else {
      assert LinkAt(headers, order, j + 1);
    }
  }

  lemma RemovedDistinct(order: seq<nat>, i: nat)
    requires Distinct(order) && i + 1 < |order|
    ensures Distinct(Removed(order, i))
  {
  }

  lemma AbsorbLinks(headers: map<nat, Header>, order: seq<nat>, i: nat)
    requires Linked(headers, order) && i + 1 < |order|
    ensures headers[order[i]].next == order[i + 1]
    ensures var order' := Removed(order, i);
            && Linked(AbsorbHeaders(headers, order[i]), order')
            && BlocksOf(AbsorbHeaders(headers, order[i]), order') == Absorb(BlocksOf(headers, order), i)
  {
    var order' := Removed(order, i);
    AbsorbLinkAt(headers, order, i, 0);
    RemovedDistinct(order, i);
    AbsorbShape(BlocksOf(headers, order), i);
    hide AbsorbHeaders, LinkAt, Distinct, Absorb;
    var headers' := AbsorbHeaders(headers, order[i]);
    forall j | 0 <= j < |order'| ensures order'[j] in headers' && LinkAt(headers', order', j) {
      AbsorbLinkAt(headers, order, i, j);
    }
    var bs, bs' := Absorb(BlocksOf(headers, order), i), BlocksOf(headers', order');
    forall j | 0 <= j < |bs'| ensures bs'[j] == bs[j] {
      AbsorbBlockAt(headers, order, i, j);
    }
  }

  /** All that the stores of one forward merge leave right. */
  lemma AbsorbFacts(bytes: seq<nat>, headers: map<nat, Header>, order: seq<nat>, i: nat, base: nat, end: nat)
    requires Linked(headers, order) && LeftoversFree(headers, order) && i + 1 < |order|
    requires Tiles(BlocksOf(headers, order), base, end) && headers[order[i + 1]].free
    ensures order[i] in headers && headers[order[i]].next == order[i + 1] && order[i + 1] in headers
    ensures var n := headers[order[i + 1]];
            var order' := Removed(order, i);
            var headers' := AbsorbHeaders(headers, order[i]);
            && (n.next != 0 ==> n.next in headers)
            && Linked(headers', order') && LeftoversFree(headers', order')
            && Tiles(BlocksOf(headers', order'), base, end)
            && BlocksOf(headers', order') == Absorb(BlocksOf(headers, order), i)
            && |order'| == |order| - 1 && order'[0] == order[0]
            && Kept(bytes, Scribbled2(bytes, order[i], n.next), order)
  {
    hide Tiles, Kept, Absorb, AbsorbHeaders, BlocksOf, LeftoversFree, Distinct;
    AbsorbLinks(headers, order, i);
    AbsorbLeftovers(headers, order, i);
    AbsorbKeeps(BlocksOf(headers, order), i, base, end);
    assert LinkAt(headers, order, i + 1);
    AbsorbKept(bytes, order, i);
  }

  lemma AbsorbBlockAt(headers: map<nat, Header>, order: seq<nat>, i: nat, j: nat)
    requires Linked(headers, order) && i + 1 < |order| && j + 1 < |order|
    requires headers[order[i]].next == order[i + 1]
    ensures var order' := Removed(order, i);
            var h := AbsorbHeaders(headers, order[i]);
            && order'[j] in h
            && Block(order'[j], h[order'[j]].size, h[order'[j]].free) == Absorb(BlocksOf(headers, order), i)[j]
  {
    assert LinkAt(headers, order, i + 1);
    assert Removed(order, i)[j] == if j <= i then order[j] else order[j + 1];
  }

  lemma AbsorbLeftovers(headers: map<nat, Header>, order: seq<nat>, i: nat)
    requires Linked(headers, order) && LeftoversFree(headers, order) && i + 1 < |order|
    requires headers[order[i]].next == order[i + 1] && headers[order[i + 1]].free
    ensures LeftoversFree(AbsorbHeaders(headers, order[i]), Removed(order, i))
  {
    hide LinkAt;
    var headers', order' := AbsorbHeaders(headers, order[i]), Removed(order, i);
    forall a | a in headers' && a !in order' ensures headers'[a].free {
      RemovedHas(order, i, a);
    }
  }

  // ----- bytes -----

  /** Storing a header overwrites its HEADER bytes; what they become does not matter. */
  function Scribbled(bytes: seq<nat>, a: nat): (r: seq<nat>)
    ensures |r| == |bytes|
  {
    seq(|bytes|, k requires 0 <= k < |bytes| => if a <= k < a + HEADER then 0 else bytes[k])
  }

  /** Byte `k` lies in no header of the list. */
  ghost predicate Clear(order: seq<nat>, k: nat) {
    forall j :: 0 <= j < |order| ==> !(order[j] <= k < order[j] + HEADER)
  }

  ghost predicate Kept(before: seq<nat>, after: seq<nat>, order: seq<nat>) {
    && |after| == |before|
    && forall k :: 0 <= k < |after| && Clear(order, k) ==> after[k] == before[k]
  }

  ghost predicate PayloadKept(before: seq<nat>, after: seq<nat>, b: Block) {
    End(b) <= |before| == |after| && forall k :: Payload(b) <= k < End(b) ==> after[k] == before[k]
  }

  lemma ScribbleKept(before: seq<nat>, bytes: seq<nat>, order: seq<nat>, a: nat)
    requires Kept(before, bytes, order) && a in order
    ensures Kept(before, Scribbled(bytes, a), order)
  {
  }

  /** Writes confined to headers of a tiling spare the payloads of its blocks. */
  lemma KeptSparesPayload(before: seq<nat>, after: seq<nat>, headers: map<nat, Header>, order: seq<nat>, base: nat, end: nat, b: Block)
    requires Linked(headers, order) && Tiles(BlocksOf(headers, order), base, end) && |before| == end
    requires Kept(before, after, order) && b in BlocksOf(headers, order)
    ensures PayloadKept(before, after, b)
  {
    var bs := BlocksOf(headers, order);
    var i :| 0 <= i < |bs| && bs[i] == b;
    Aligned(bs, base, end, i);
    forall k | Payload(b) <= k < End(b) ensures after[k] == before[k] {
      forall j | 0 <= j < |order| ensures !(order[j] <= k < order[j] + HEADER) {
        PayloadClear(bs, base, end, b, j, k);
      }
      assert Clear(order, k);
    }
  }

  lemma KeptSparesAll(before: seq<nat>, after: seq<nat>, headers: map<nat, Header>, order: seq<nat>, base: nat, end: nat)
    requires Linked(headers, order) && Tiles(BlocksOf(headers, order), base, end) && |before| == end
    requires Kept(before, after, order)
    ensures forall b :: b in BlocksOf(headers, order) ==> PayloadKept(before, after, b)
  {
    hide Tiles, Kept, PayloadKept;
    forall b | b in BlocksOf(headers, order) ensures PayloadKept(before, after, b) {
      KeptSparesPayload(before, after, headers, order, base, end, b);
    }
  }

  lemma KeptPrefix(before: seq<nat>, after: seq<nat>, b: Block, n: nat)
    requires PayloadKept(before, after, b) && n <= b.size
    ensures End(b) <= |before| == |after|
    ensures after[Payload(b)..Payload(b) + n] == before[Payload(b)..Payload(b) + n]
  {
  }

  lemma TrimFacts(bs: seq<Block>, i: nat, want: nat, base: nat, end: nat)
    requires HeapOk(bs, base, end) && i < |bs| && !bs[i].free && !FreeRight(bs, i)
    requires want <= bs[i].size && want % 16 == 0
    ensures var t := Take(bs, i, want);
      && HeapOk(t, base, end) && i < |t| && t[i] in t && t[i].addr == bs[i].addr && !t[i].free
      && want <= t[i].size <= want + 64
      && t == SetFree(Split(bs, i, want), i, false)
      && forall b :: b in bs && !b.free && b.addr != bs[i].addr ==> b in t
  {
    hide HeapOk;
    TrimKeeps(bs, i, want, base, end);
    forall b | b in bs && !b.free && b.addr != bs[i].addr ensures b in Take(bs, i, want) {
      TrimLive(bs, i, want, b);
    }
  }

  lemma GrowFacts(bs: seq<Block>, i: nat, base: nat, end: nat)
    requires HeapOk(bs, base, end) && i < |bs| && !bs[i].free
    ensures var g := Grow(bs, i);
      && HeapOk(g, base, end) && i < |g| && g[i] in g && g[i].addr == bs[i].addr && !g[i].free && bs[i].size <= g[i].size
      && !FreeRight(g, i) && g == (if FreeRight(bs, i) then Coalesce(bs, i) else bs)
      && End(g[i]) <= end
      && forall b :: b in bs && !b.free && b.addr != bs[i].addr ==> b in g
  {
    GrowKeeps(bs, i, base, end);
    Aligned(Grow(bs, i), base, end, i);
    forall b | b in bs && !b.free && b.addr != bs[i].addr ensures b in Grow(bs, i) {
      GrowLive(bs, i, b);
    }
  }

  lemma BlockAt(headers: map<nat, Header>, order: seq<nat>, i: nat)
    requires Linked(headers, order) && i < |order|
    ensures order[i] in headers
    ensures BlocksOf(headers, order)[i] == Block(order[i], headers[order[i]].size, headers[order[i]].free)
  {
  }

  lemma IndexUnique(headers: map<nat, Header>, order: seq<nat>, i: nat, j: nat)
    requires Linked(headers, order) && i < |order| && j < |order| && order[i] == order[j]
    ensures i == j
  {
  }

  // ----- the heap -----

  class KernelHeap {
    var headers: map<nat, Header>
    var heapStart: nat
    var heapBase: nat
    var heapEnd: nat
    var bytes: seq<nat>
    ghost var order: seq<nat>

    ghost predicate Shaped()
      reads this
    {
      && Linked(headers, order) && LeftoversFree(headers, order) && |bytes| == heapEnd
      && (heapStart == 0 <==> order == [])
      && (order != [] ==> order[0] == heapStart && Tiles(BlocksOf(headers, order), heapBase, heapEnd))
    }

    ghost function Blocks(): seq<Block>
      requires Shaped()
      reads this
    {
      BlocksOf(headers, order)
    }

    ghost predicate Valid()
      reads this
    {
      Shaped() && NoAdjacentFree(Blocks())
    }

    constructor ()
      ensures Valid() && heapStart == 0
    {
      headers, heapStart, heapBase, heapEnd, bytes, order := map[], 0, 0, 0, [], [];
    }

    /** kheap_init: one free block over the aligned range, unless it is too small. */
    method Init(start: nat, size: nat, memory: seq<nat>)
      requires Valid() && heapStart == 0 && |memory| == (start + size) / 16 * 16
      modifies this
      ensures Valid()
      ensures var base, end := (start + 15) / 16 * 16, (start + size) / 16 * 16;
              if start == 0 || end <= base + HEADER + 16 then heapStart == 0
              else heapBase == base && heapEnd == end && Blocks() == [Block(base, end - base - HEADER, true)]
    {
      if start == 0 {
        return;
      }
      var base, end := (start + 15) / 16 * 16, (start + size) / 16 * 16;
      if end <= base + HEADER + 16 {
        return;
      }
      heapBase, heapEnd, heapStart := base, end, base;
      headers := map[base := Header(true, end - base - HEADER, 0, 0)];
      order := [base];
      bytes := Scribbled(memory, base);
      assert BlocksOf(headers, order) == [Block(base, end - base - HEADER, true)];
    }

    /** The stores of split_block. */
    method StoreSplit(b: nat, want: nat)
      requires b in headers && headers[b].size >= want + HEADER
      requires headers[b].next != 0 ==> headers[b].next in headers
      modifies this`headers, this`bytes
      ensures headers == SplitHeaders(old(headers), b, want)
      ensures bytes == Scribbled(Scribbled2(old(bytes), b + HEADER + want, old(headers[b].next)), b)
    {
      var h := headers[b];
      var nb := b + HEADER + want;
      headers := headers[nb := Header(true, h.size - want - HEADER, h.next, b)];
      bytes := Scribbled(bytes, nb);
      if h.next != 0 {
        headers := headers[h.next := headers[h.next].(prev := nb)];
        bytes := Scribbled(bytes, h.next);
      }
      headers := headers[b := h.(next := nb, size := want)];
      bytes := Scribbled(bytes, b);
    }

    /** split_block */
    method SplitBlock(b: nat, want: nat, ghost i: nat)
      requires Shaped() && i < |order| && order[i] == b && want % 16 == 0 && want <= headers[b].size
      modifies this`headers, this`bytes, this`order
      ensures Shaped() && Blocks() == Split(old(Blocks()), i, want)
      ensures |order| >= old(|order|) && order[i] == b && Kept(old(bytes), bytes, order)
    {
      hide Linked, LeftoversFree, Tiles, Split, BlocksOf, LinkAt, SplitHeaders, Kept, Inserted, Scribbled;
      BlockAt(headers, order, i);
      if headers[b].size - want <= HEADER + 16 {
        SplitNot(Blocks(), i, want);
        KeptSelf(bytes, order);
        return;
      }
      SplitFacts(bytes, headers, order, i, want, heapBase, heapEnd);
      ghost var order' := Inserted(order, i, b + HEADER + want);
      StoreSplit(b, want);
      order := order';
    }

    /** `b->is_free = free` */
    method StoreFree(b: nat, free: bool, ghost i: nat)
      requires Shaped() && i < |order| && order[i] == b
      modifies this`headers, this`bytes
      ensures Shaped() && Blocks() == SetFree(old(Blocks()), i, free)
      ensures Kept(old(bytes), bytes, order)
    {
      FlagLinks(headers, order, i, free);
      ScribbleKept(bytes, bytes, order, b);
      assert Tiles(SetFree(Blocks(), i, free), heapBase, heapEnd);
      hide Linked, LeftoversFree, Tiles, BlocksOf, Kept, Scribbled;
      headers := headers[b := headers[b].(free := free)];
      bytes := Scribbled(bytes, b);
    }

    /** The walk of kmalloc: the address of the first free block large enough, or 0. */
    method FindFit(want: nat) returns (cur: nat, ghost i: nat)
      requires Shaped()
      ensures match FirstFit(Blocks(), want, 0)
              case None => cur == 0
              case Some(k) => k == i && i < |order| && cur == order[i]
    {
      hide Tiles;
      cur, i := heapStart, 0;
      while cur != 0
        invariant i <= |order| && cur == if i < |order| then order[i] else 0
        invariant FirstFit(Blocks(), want, 0) == FirstFit(Blocks(), want, i)
        decreases |order| - i
      {
        assert LinkAt(headers, order, i);
        if headers[cur].free && headers[cur].size >= want {
          return;
        }
        cur, i := headers[cur].next, i + 1;
      }
    }

    /** kmalloc: 0 exactly when nothing is asked for or nothing fits; otherwise the payload of the
        block `Take` grants. Other live payloads are untouched. */
    method Kmalloc(size: nat) returns (p: nat)
      requires Valid() && size < SIZE_LIMIT
      modifies this`headers, this`bytes, this`order
      ensures Valid()
      ensures p == 0 <==> size == 0 || FirstFit(old(Blocks()), AlignUp(size), 0).None?
      ensures p == 0 ==> headers == old(headers) && bytes == old(bytes) && order == old(order)
      ensures p != 0 ==>
        var i := FirstFit(old(Blocks()), AlignUp(size), 0).value;
        Blocks() == Take(old(Blocks()), i, AlignUp(size)) && i < |Blocks()| && p == Payload(Blocks()[i])
      ensures forall b :: b in old(Blocks()) && !b.free ==> b in Blocks() && PayloadKept(old(bytes), bytes, b)
    {
      if heapStart == 0 || size == 0 {
        SameBlocksKept();
        return 0;
      }
      var want := AlignUp(size);
      var cur;
      ghost var i;
      cur, i := FindFit(want);
      if cur == 0 {
        SameBlocksKept();
        return 0;
      }
      Carve(cur, want, i);
      p := cur + HEADER;
    }

    lemma SameBlocksKept()
      requires Valid()
      ensures forall b :: b in Blocks() ==> PayloadKept(bytes, bytes, b)
    {
      forall b | b in Blocks() ensures PayloadKept(bytes, bytes, b) {
        var k :| 0 <= k < |Blocks()| && Blocks()[k] == b;
        Aligned(Blocks(), heapBase, heapEnd, k);
      }
    }

    /** split_block and the flag. */
    method SplitAndMark(b: nat, want: nat, ghost i: nat)
      requires Shaped() && i < |order| && order[i] == b && want % 16 == 0 && want <= headers[b].size
      modifies this`headers, this`bytes, this`order
      ensures Shaped() && Blocks() == Take(old(Blocks()), i, want)
      ensures i < |order| && order[i] == b && Kept(old(bytes), bytes, order)
    {
      hide Split, Tiles, Kept, SetFree;
      ghost var mem := bytes;
      SplitBlock(b, want, i);
      ghost var mid := bytes;
      StoreFree(b, false, i);
      KeptTrans(mem, mid, bytes, order);
    }

    /** Turn a free block into a live one. */
    method Carve(cur: nat, want: nat, ghost i: nat)
      requires Valid() && i < |order| && order[i] == cur && headers[cur].free
      requires want % 16 == 0 && want <= headers[cur].size
      modifies this`headers, this`bytes, this`order
      ensures Valid() && Blocks() == Take(old(Blocks()), i, want)
      ensures i < |order| && order[i] == cur && order != []
      ensures forall b :: b in old(Blocks()) && !b.free ==> b in Blocks() && PayloadKept(old(bytes), bytes, b)
    {
      ghost var before, mem := Blocks(), bytes;
      TakeKeeps(before, i, want, heapBase, heapEnd);
      SplitAndMark(cur, want, i);
      hide Tiles, Kept, PayloadKept, Take;
      KeptSparesAll(mem, bytes, headers, order, heapBase, heapEnd);
      forall b | b in before && !b.free ensures b in Blocks() {
        TakeLive(before, i, want, b);
      }
    }

    /** The stores of one forward merge. */
    method StoreAbsorb(b: nat)
      requires b in headers && headers[b].next in headers
      requires headers[headers[b].next].next != 0 ==> headers[headers[b].next].next in headers
      modifies this`headers, this`bytes
      ensures headers == AbsorbHeaders(old(headers), b)
      ensures bytes == Scribbled2(old(bytes), b, old(headers[headers[b].next].next))
    {
      var h := headers[b];
      var n := headers[h.next];
      headers := headers[b := h.(size := h.size + HEADER + n.size, next := n.next)];
      bytes := Scribbled(bytes, b);
      if n.next != 0 {
        headers := headers[n.next := headers[n.next].(prev := b)];
        bytes := Scribbled(bytes, n.next);
      }
    }

    method AbsorbNext(b: nat, ghost i: nat)
      requires Shaped() && i + 1 < |order| && order[i] == b && headers[order[i + 1]].free
      modifies this`headers, this`bytes, this`order
      ensures Shaped() && Blocks() == Absorb(old(Blocks()), i)
      ensures order == Removed(old(order), i) && Kept(old(bytes), bytes, old(order))
    {
      hide Linked, LeftoversFree, Tiles, BlocksOf, LinkAt, Kept, Scribbled, Absorb, Removed, AbsorbHeaders;
      AbsorbFacts(bytes, headers, order, i, heapBase, heapEnd);
      StoreAbsorb(b);
      order := Removed(order, i);
    }

    /** kheap_free_size */
    method FreeSize() returns (total: nat)
      requires Shaped()
      ensures total == KheapRuns.FreeBytes(Blocks())
    {
      hide Tiles, BlocksOf;
      total := 0;
      var cur := heapStart;
      ghost var i := 0;
      assert Blocks()[..0] == [];
      while cur != 0
        invariant i <= |order| && cur == if i < |order| then order[i] else 0
        invariant total == KheapRuns.FreeBytes(Blocks()[..i])
        decreases |order| - i
      {
        assert LinkAt(headers, order, i);
        BlockAt(headers, order, i);
        assert Blocks()[..i + 1][..i] == Blocks()[..i];
        if headers[cur].free { total := total + headers[cur].size; }
        cur := headers[cur].next;
        i := i + 1;
      }
      assert Blocks()[..i] == Blocks();
    }

    /** The backward walk of coalesce: the first block of the free run. */
    method FindRunStart(b: nat, ghost i: nat) returns (start: nat, ghost k: nat)
      requires Shaped() && i < |order| && order[i] == b
      ensures k == RunStart(Blocks(), i) && start == order[k]
    {
      hide Tiles;
      start, k := b, i;
      assert LinkAt(headers, order, k);
      while headers[start].prev != 0 && headers[headers[start].prev].free
        invariant k <= i && start == order[k] && LinkAt(headers, order, k)
        invariant RunStart(Blocks(), i) == RunStart(Blocks(), k)
        decreases k
      {
        start, k := headers[start].prev, k - 1;
        assert LinkAt(headers, order, k);
      }
    }

    /** The forward loop of coalesce. */
    method MergeNext(b: nat, ghost i: nat)
      requires Shaped() && i < |order| && order[i] == b
      modifies this`headers, this`bytes, this`order
      ensures Shaped() && Blocks() == MergeForward(old(Blocks()), i) && i < |order| && order[i] == b
      ensures Kept(old(bytes), bytes, old(order))
    {
      hide Tiles, Absorb;
      assert LinkAt(headers, order, i);
      while headers[b].next != 0 && headers[headers[b].next].free
        invariant Shaped() && i < |order| && order[i] == b && LinkAt(headers, order, i)
        invariant MergeForward(Blocks(), i) == MergeForward(old(Blocks()), i)
        invariant Kept(old(bytes), bytes, old(order))
        invariant forall k :: 0 <= k < |order| ==> order[k] in old(order)
        decreases |order|
      {
        ghost var mid, was := bytes, order;
        AbsorbNext(b, i);
        KeptWithin(old(bytes), mid, bytes, old(order), was);
        assert LinkAt(headers, order, i);
      }
    }

    /** coalesce */
    method CoalesceAt(b: nat, ghost i: nat)
      requires Shaped() && i < |order| && order[i] == b
      modifies this`headers, this`bytes, this`order
      ensures Shaped() && Blocks() == Coalesce(old(Blocks()), i)
      ensures Kept(old(bytes), bytes, old(order))
    {
      hide Tiles, MergeForward;
      var start := b;
      ghost var k := i;
      if headers[b].free {
        start, k := FindRunStart(b, i);
      }
      MergeNext(start, k);
    }

    /** A payload pointer of the list. */
    ghost predicate Known(ptr: nat)
      reads this
    {
      exists i :: 0 <= i < |order| && ptr == order[i] + HEADER
    }

    /** Its list index. */
    ghost function IndexOf(ptr: nat): (i: nat)
      requires Shaped() && Known(ptr)
      reads this
      ensures i < |order| && ptr == order[i] + HEADER
    {
      var i: nat :| i < |order| && ptr == order[i] + HEADER;
      i
    }

    /** A pointer the heap handed out and has not got back. */
    ghost predicate Live(ptr: nat)
      requires Shaped()
      reads this
    {
      heapBase <= ptr < heapEnd && Known(ptr) && !Blocks()[IndexOf(ptr)].free
    }

    /** kfree: a live block is released. NULL, foreign pointers, pointers into the middle of
        blocks and pointers already freed, merged since or not, change nothing. Every other
        live payload is untouched. */
    method Kfree(ptr: nat)
      requires Valid()
      modifies this`headers, this`bytes, this`order
      ensures Valid()
      ensures if old(Live(ptr)) then Blocks() == Release(old(Blocks()), old(IndexOf(ptr)))
              else headers == old(headers) && bytes == old(bytes) && order == old(order)
      ensures forall b :: b in old(Blocks()) && !b.free && Payload(b) != ptr ==>
                b in Blocks() && PayloadKept(old(bytes), bytes, b)
    {
      SameBlocksKept();
      if ptr < heapBase || ptr >= heapEnd || ptr < heapBase + HEADER {
        BelowFirst(ptr);
        return;
      }
      var h := ptr - HEADER;
      HeaderDecides(ptr);
      if h !in headers || headers[h].free {
        return;
      }
      ReleaseBlock(h, IndexOf(ptr));
    }

    /** The header in front of a pointer, if there is one, says whether it is live. */
    lemma HeaderDecides(ptr: nat)
      requires Shaped() && heapBase + HEADER <= ptr < heapEnd
      ensures Live(ptr) <==> ptr - HEADER in headers && !headers[ptr - HEADER].free
    {
      hide Tiles, LinkAt;
      if ptr - HEADER in headers && !headers[ptr - HEADER].free {
        var i :| 0 <= i < |order| && order[i] == ptr - HEADER;
        assert ptr == order[i] + HEADER;
      }
    }

    lemma BelowFirst(ptr: nat)
      requires Shaped()
      ensures Live(ptr) ==> heapBase + HEADER <= ptr < heapEnd
    {
      if Live(ptr) {
        Aligned(Blocks(), heapBase, heapEnd, IndexOf(ptr));
      }
    }

    /** The flag and coalesce: turn a live block into part of a free one. */
    method ReleaseBlock(h: nat, ghost i: nat)
      requires Valid() && i < |order| && order[i] == h && !headers[h].free
      modifies this`headers, this`bytes, this`order
      ensures Valid() && Blocks() == Release(old(Blocks()), i)
      ensures forall b :: b in old(Blocks()) && !b.free && b.addr != h ==>
                b in Blocks() && PayloadKept(old(bytes), bytes, b)
    {
      ghost var before, mem := Blocks(), bytes;
      ReleaseKeeps(before, i, heapBase, heapEnd);
      forall b | b in before && !b.free && b.addr != h ensures b in Release(before, i) {
        ReleaseLive(before, i, b, heapBase, heapEnd);
      }
      hide Release, Coalesce;
      assert Release(before, i) == Coalesce(SetFree(before, i, true), i) by { ReleaseUnfold(before, i); }
      StoreFree(h, true, i);
      ghost var mid := bytes;
      CoalesceAt(h, i);
      KeptTrans(mem, mid, bytes, old(order));
      forall b | b in before && !b.free && b.addr != h ensures PayloadKept(mem, bytes, b) {
        KeptSparesPayload(mem, bytes, old(headers), old(order), heapBase, heapEnd, b);
      }
    }

    /** Block `b` is live now, and its first `n` payload bytes are those that were at `src`. */
    ghost predicate Carries(b: Block, before: seq<nat>, src: nat, n: nat)
      requires Shaped()
      reads this
    {
      && b in Blocks() && !b.free && n <= b.size && End(b) <= |bytes| && src + n <= |before|
      && bytes[Payload(b)..Payload(b) + n] == before[src..src + n]
    }

    /** Every live block but the one at `h` is still there with its bytes. */
    twostate predicate OthersKept(h: nat)
      requires old(Shaped()) && Shaped()
      reads this
    {
      forall b :: b in old(Blocks()) && !b.free && b.addr != h ==> b in Blocks() && PayloadKept(old(bytes), bytes, b)
    }

    /** The live block `g`, at the address of `b`, has the bytes that `b` had. */
    lemma StillCarries(before: seq<nat>, b: Block, g: Block, n: nat)
      requires Shaped() && PayloadKept(before, bytes, b) && n <= b.size
      requires g in Blocks() && !g.free && g.addr == b.addr && n <= g.size && End(g) <= |bytes|
      ensures Carries(g, before, Payload(b), n)
    {
      KeptPrefix(before, bytes, b, n);
    }

    /** Swallow the free successor, if there is one. */
    method AbsorbSuccessor(h: nat, ghost i: nat)
      requires Valid() && i < |order| && order[i] == h && !headers[h].free
      modifies this`headers, this`bytes, this`order
      ensures Shaped() && Blocks() == Grow(old(Blocks()), i) && Kept(old(bytes), bytes, old(order))
    {
      assert !Blocks()[i].free && LinkAt(headers, order, i);
      assert FreeRight(Blocks(), i) == (headers[h].next != 0 && headers[headers[h].next].free);
      GrowFacts(Blocks(), i, heapBase, heapEnd);
      KeptSelf(bytes, order);
      hide Coalesce, Grow, Tiles, LinkAt, LeftoversFree, NoAdjacentFree, FreeRight, Kept, BlocksOf;
      if headers[h].next != 0 && headers[headers[h].next].free {
        CoalesceAt(h, i);
      }
    }

    /** The grow-in-place attempt. */
    method GrowInPlace(h: nat, ghost i: nat)
      requires Valid() && i < |order| && order[i] == h && !headers[h].free
      modifies this`headers, this`bytes, this`order
      ensures Valid() && Blocks() == Grow(old(Blocks()), i)
      ensures i < |order| && order[i] == h && !headers[h].free && old(headers[h].size) <= headers[h].size
      ensures !FreeRight(Blocks(), i)
      ensures Carries(Blocks()[i], old(bytes), h + HEADER, old(headers[h].size)) && OthersKept(h)
    {
      ghost var before, mem := Blocks(), bytes;
      BlockAt(headers, order, i);
      GrowFacts(before, i, heapBase, heapEnd);
      hide Coalesce, Grow, Tiles, LinkAt, LeftoversFree, NoAdjacentFree, FreeRight, Kept, PayloadKept, BlocksOf, Carries;
      AbsorbSuccessor(h, i);
      KeptSparesAll(mem, bytes, old(headers), old(order), heapBase, heapEnd);
      assert before[i] in before;
      StillCarries(mem, before[i], Blocks()[i], before[i].size);
      BlockAt(headers, order, i);
    }

    /** split_block on a live block that grew beyond what is wanted. */
    method TrimInPlace(h: nat, want: nat, ghost i: nat, ghost n: nat)
      requires Valid() && i < |order| && order[i] == h && !headers[h].free && !FreeRight(Blocks(), i)
      requires want % 16 == 0 && n <= want <= headers[h].size
      modifies this`headers, this`bytes, this`order
      ensures Valid() && Blocks() == Take(old(Blocks()), i, want) && i < |order| && order[i] == h
      ensures want <= Blocks()[i].size <= want + 64
      ensures Carries(Blocks()[i], old(bytes), h + HEADER, n) && OthersKept(h)
    {
      ghost var before, mem := Blocks(), bytes;
      ghost var after := Take(before, i, want);
      assert before[i].addr == h && !before[i].free && before[i].size == headers[h].size;
      TrimFacts(before, i, want, heapBase, heapEnd);
      hide Split, Tiles, Linked, NoAdjacentFree, FreeRight, Kept, Take, SetFree, BlocksOf, PayloadKept, Carries;
      SplitAndMark(h, want, i);
      KeptSparesAll(mem, bytes, headers, order, heapBase, heapEnd);
      StillCarries(mem, after[i], after[i], n);
    }

    /** The copy loop of krealloc. */
    method CopyBytes(dst: nat, src: nat, n: nat)
      requires dst + n <= |bytes| && src + n <= |bytes| && (dst + n <= src || src + n <= dst)
      modifies this`bytes
      ensures |bytes| == old(|bytes|) && bytes[dst..dst + n] == old(bytes[src..src + n])
      ensures forall k :: 0 <= k < |bytes| && !(dst <= k < dst + n) ==> bytes[k] == old(bytes[k])
    {
      var i := 0;
      while i < n
        invariant i <= n && |bytes| == old(|bytes|)
        invariant forall k :: 0 <= k < |bytes| && !(dst <= k < dst + i) ==> bytes[k] == old(bytes[k])
        invariant forall k :: dst <= k < dst + i ==> bytes[k] == old(bytes)[k - dst + src]
      {
        bytes := bytes[dst + i := bytes[src + i]];
        i := i + 1;
      }
    }

    /** Copy the payload of block `b` into that of `g`. */
    method CopyPayload(dst: nat, src: nat, n: nat, ghost g: Block, ghost b: Block)
      requires Valid() && g in Blocks() && b in Blocks() && g != b && b.size <= g.size
      requires dst == Payload(g) && src == Payload(b) && n == b.size
      modifies this`bytes
      ensures Valid() && headers == old(headers) && order == old(order)
      ensures End(g) <= |bytes| && End(b) <= |bytes|
      ensures bytes[dst..dst + n] == old(bytes)[src..src + n]
      ensures forall c :: c in Blocks() && c != g ==> PayloadKept(old(bytes), bytes, c)
    {
      forall c | c in Blocks() && c != g
        ensures End(c) <= g.addr || End(g) <= c.addr
        ensures End(c) <= |bytes| && End(g) <= |bytes|
      {
        BlocksApart(Blocks(), heapBase, heapEnd, c, g);
      }
      CopyBytes(dst, src, n);
    }

    /** Copy into the new block and free the old one. */
    method CopyAndFree(p: nat, h: nat, ghost g: Block, ghost b: Block, ghost i: nat)
      requires Valid() && g in Blocks() && b in Blocks() && !g.free && !b.free && g.addr != b.addr && b.size <= g.size
      requires p == Payload(g) && h == b.addr && h in headers && headers[h].size == b.size
      requires i < |Blocks()| && Blocks()[i] == b && heapBase <= h + HEADER < heapEnd
      modifies this`headers, this`bytes, this`order
      ensures Valid() && Carries(g, old(bytes), Payload(b), b.size)
      ensures Blocks() == Release(old(Blocks()), i)
      ensures forall c :: c in old(Blocks()) && !c.free && c != g && c.addr != h ==>
                c in Blocks() && PayloadKept(old(bytes), bytes, c)
    {
      hide Tiles, Linked, NoAdjacentFree, Release, PayloadKept;
      ghost var blocks, m0 := Blocks(), bytes;
      CopyPayload(p, h + HEADER, headers[h].size, g, b);
      ghost var m1 := bytes;
      Aligned(blocks, heapBase, heapEnd, i);
      assert order[i] == h;
      assert IndexOf(h + HEADER) == i by { IndexUnique(headers, order, IndexOf(h + HEADER), i); }
      Kfree(h + HEADER);
      PayloadSlice(m1, bytes, g, b.size);
      forall c | c in blocks && !c.free && c != g && c.addr != h ensures PayloadKept(m0, bytes, c) {
        PayloadTrans(m0, m1, bytes, c);
      }
    }

    /** The move path of krealloc: allocate, copy, free. */
    method MoveBlock(h: nat, want: nat, ghost i: nat) returns (p: nat, ghost g: Block)
      requires Valid() && i < |order| && order[i] == h && !headers[h].free && headers[h].size < want
      requires want % 16 == 0 && want <= SIZE_LIMIT - 16 && heapBase <= h + HEADER < heapEnd
      modifies this`headers, this`bytes, this`order
      ensures Valid() && OthersKept(h)
      ensures p == 0 ==> headers == old(headers) && bytes == old(bytes) && order == old(order)
      ensures Payload(g) == (if p == 0 then h + HEADER else p) && (p != 0 ==> want <= g.size <= want + 64)
      ensures Carries(g, old(bytes), h + HEADER, old(headers[h].size))
      ensures Blocks() == KheapRuns.Moved(old(Blocks()), i, want, heapBase, heapEnd)
      ensures p == 0 <==> FirstFit(old(Blocks()), want, 0).None?
    {
      hide Tiles, Linked, NoAdjacentFree, Take, PayloadKept, AlignUp, Release;
      ghost var before, mem := Blocks(), bytes;
      ghost var b := before[i];
      assert b in before;
      AlignMultiple(want);
      p := Kmalloc(want);
      g := b;
      PayloadSlice(mem, bytes, b, b.size);
      if p != 0 {
        ghost var k := FirstFit(before, want, 0).value;
        TakeKeeps(before, k, want, heapBase, heapEnd);
        g := Blocks()[k];
        forall c | c in before && !c.free ensures c.addr != g.addr {
          BlocksApart(before, heapBase, heapEnd, c, before[k]);
        }
        SameHeader(b);
        ghost var m1 := bytes;
        KheapRuns.ShiftedBy(before, k, want, i);
        CopyAndFree(p, h, g, b, KheapRuns.Shifted(|Take(before, k, want)| - |before|, k, i));
        forall c | c in before && !c.free && c.addr != h ensures PayloadKept(mem, bytes, c) {
          PayloadTrans(mem, m1, bytes, c);
        }
      }
    }

    /** A block of the list is stored in the header at its address. */
    lemma SameHeader(b: Block)
      requires Shaped() && b in Blocks()
      ensures b.addr in headers && headers[b.addr].size == b.size && headers[b.addr].free == b.free
    {
      var i :| 0 <= i < |Blocks()| && Blocks()[i] == b;
    }

    /** krealloc. Of a live block, `g` is the block that then carries the old bytes: they are at
        the returned address, in place or moved; on failure they are where they were; no other
        live payload changes. Where no header stands in front of the pointer the answer is NULL
        and nothing changes. */
    method Krealloc(ptr: nat, newSize: nat) returns (p: nat, ghost g: Block)
      requires Valid() && newSize < SIZE_LIMIT
      requires ptr == 0 || newSize == 0 || Headless(ptr) || Live(ptr)
      modifies this`headers, this`bytes, this`order
      ensures Valid()
      ensures ptr >= HEADER ==> OthersKept(ptr - HEADER)
      ensures ptr == 0 ==> (p == 0 <==> newSize == 0 || FirstFit(old(Blocks()), AlignUp(newSize), 0).None?)
      ensures ptr == 0 && p != 0 ==> Blocks() == Take(old(Blocks()), FirstFit(old(Blocks()), AlignUp(newSize), 0).value, AlignUp(newSize))
      ensures ptr != 0 && newSize == 0 ==>
        p == 0 && Blocks() == if old(Live(ptr)) then Release(old(Blocks()), old(IndexOf(ptr))) else old(Blocks())
      ensures ptr != 0 && newSize != 0 && old(Headless(ptr)) ==>
        p == 0 && headers == old(headers) && bytes == old(bytes) && order == old(order)
      ensures ptr != 0 && newSize != 0 && old(Live(ptr)) ==>
        && Payload(g) == (if p == 0 then ptr else p)
        && (p != 0 ==> AlignUp(newSize) <= g.size <= Largest(old(Blocks()[IndexOf(ptr)].size), AlignUp(newSize)))
        && Carries(g, old(bytes), ptr, old(Blocks()[IndexOf(ptr)].size))
        && Blocks() == KheapRuns.Realloc(old(Blocks()), old(IndexOf(ptr)), AlignUp(newSize), heapBase, heapEnd)
        && (p == 0 <==> KheapRuns.ReallocFails(old(Blocks()), old(IndexOf(ptr)), AlignUp(newSize)))
    {
      hide KheapRuns.Realloc, KheapRuns.ReallocFails, Tiles, NoAdjacentFree, PayloadKept, Release, FirstFit;
      g := Block(0, 0, true);
      if ptr == 0 {
        p := Kmalloc(newSize);
        return;
      }
      BelowFirst(ptr);
      if newSize == 0 {
        Kfree(ptr);
        p := 0;
        return;
      }
      if ptr < HEADER || ptr - HEADER !in headers {
        SameBlocksKept();
        p := 0;
        return;
      }
      ghost var i := IndexOf(ptr);
      p, g := Resize(ptr - HEADER, AlignUp(newSize), i);
    }

    /** No header stands in front of the pointer. */
    predicate Headless(ptr: nat)
      reads this
    {
      ptr < HEADER || ptr - HEADER !in headers
    }

    /** After growing: trim if that was enough, else move. */
    method TrimOrMove(h: nat, want: nat, ghost i: nat, ghost n: nat) returns (p: nat, ghost g: Block)
      requires Valid() && i < |order| && order[i] == h && !headers[h].free && !FreeRight(Blocks(), i)
      requires want % 16 == 0 && n <= want <= SIZE_LIMIT - 16 && n <= headers[h].size
      requires heapBase <= h + HEADER < heapEnd
      modifies this`headers, this`bytes, this`order
      ensures Valid() && OthersKept(h)
      ensures Payload(g) == (if p == 0 then h + HEADER else p) && (p != 0 ==> want <= g.size <= want + 64)
      ensures Carries(g, old(bytes), h + HEADER, n)
      ensures Blocks() == KheapRuns.TrimOrMove(old(Blocks()), i, want, heapBase, heapEnd)
      ensures p == 0 <==> old(Blocks())[i].size < want && FirstFit(old(Blocks()), want, 0).None?
    {
      hide Tiles, Linked, NoAdjacentFree, PayloadKept, FreeRight, Take, KheapRuns.Moved, BlocksOf, Carries, FirstFit, OthersKept;
      BlockAt(headers, order, i);
      if headers[h].size >= want {
        TrimInPlace(h, want, i, n);
        BlockAt(headers, order, i);
        g := Blocks()[i];
        p := h + HEADER;
      } else {
        ghost var mem, size := bytes, headers[h].size;
        p, g := MoveBlock(h, want, i);
        CarriesLess(g, mem, h + HEADER, size, n);
      }
    }

    lemma CarriesLess(b: Block, before: seq<nat>, src: nat, n: nat, m: nat)
      requires Shaped() && Carries(b, before, src, n) && m <= n
      ensures Carries(b, before, src, m)
    {
      assert bytes[Payload(b)..Payload(b) + m] == bytes[Payload(b)..Payload(b) + n][..m];
      assert before[src..src + m] == before[src..src + n][..m];
    }

    /** krealloc past its argument checks. */
    method Resize(h: nat, want: nat, ghost i: nat) returns (p: nat, ghost g: Block)
      requires Valid() && i < |order| && order[i] == h && !headers[h].free && want % 16 == 0 && want <= SIZE_LIMIT - 16
      requires heapBase <= h + HEADER < heapEnd
      modifies this`headers, this`bytes, this`order
      ensures Valid() && OthersKept(h)
      ensures Payload(g) == (if p == 0 then h + HEADER else p)
      ensures p != 0 ==> want <= g.size <= Largest(old(headers[h].size), want)
      ensures Carries(g, old(bytes), h + HEADER, old(headers[h].size))
      ensures Blocks() == KheapRuns.Realloc(old(Blocks()), i, want, heapBase, heapEnd)
      ensures p == 0 <==> KheapRuns.ReallocFails(old(Blocks()), i, want)
    {
      hide LeftoversFree, Tiles, NoAdjacentFree, PayloadKept, FreeRight, Take, Grow, LinkAt, KheapRuns.TrimOrMove;
      ghost var before, mem, n := Blocks(), bytes, headers[h].size;
      assert before[i].addr == h && before[i].size == n && !before[i].free;
      hide BlocksOf;
      SameBlocksKept();
      if headers[h].size >= want {
        g := Blocks()[i];
        PayloadSlice(bytes, bytes, g, n);
        p := h + HEADER;
        return;
      }
      GrowInPlace(h, i);
      ghost var mid := bytes;
      p, g := TrimOrMove(h, want, i, n);
      forall b | b in before && !b.free && b.addr != h ensures PayloadKept(mem, bytes, b) {
        PayloadTrans(mem, mid, bytes, b);
      }
    }
  }

  /** The largest block krealloc may leave: the old one, or what was asked for, a header and 16 bytes. */
  function Largest(oldSize: nat, want: nat): nat { if oldSize < want then want + 64 else oldSize }

  lemma PayloadTrans(a: seq<nat>, b: seq<nat>, c: seq<nat>, k: Block)
    requires PayloadKept(a, b, k) && PayloadKept(b, c, k)
    ensures PayloadKept(a, c, k)
  {
  }

  lemma PayloadSlice(a: seq<nat>, b: seq<nat>, k: Block, n: nat)
    requires PayloadKept(a, b, k) && n <= k.size
    ensures End(k) <= |a| == |b| && b[Payload(k)..Payload(k) + n] == a[Payload(k)..Payload(k) + n]
  {
  }

  lemma AlignMultiple(want: nat)
    requires want % 16 == 0 && want <= SIZE_LIMIT - 16
    ensures AlignUp(want) == want
  {
    AlignUpCovers(want);
  }

  lemma BlocksApart(bs: seq<Block>, base: nat, end: nat, c: Block, g: Block)
    requires Tiles(bs, base, end) && c in bs && g in bs && c != g
    ensures End(c) <= g.addr || End(g) <= c.addr
    ensures End(c) <= end && End(g) <= end
  {
    var i :| 0 <= i < |bs| && bs[i] == c;
    var j :| 0 <= j < |bs| && bs[j] == g;
    PayloadsDisjoint(bs, base, end, i, j);
    PayloadsDisjoint(bs, base, end, j, i);
  }

  lemma KeptSelf(bytes: seq<nat>, order: seq<nat>)
    ensures Kept(bytes, bytes, order)
  {
  }

  lemma ReleaseUnfold(bs: seq<Block>, i: nat)
    requires i < |bs|
    ensures Release(bs, i) == Coalesce(SetFree(bs, i, true), i)
  {
  }

  lemma AbsorbKept(bytes: seq<nat>, order: seq<nat>, i: nat)
    requires i + 1 < |order|
    ensures Kept(bytes, Scribbled2(bytes, order[i], After(order, i + 1)), order)
  {
    ScribbleKept(bytes, bytes, order, order[i]);
    if i + 2 < |order| {
      ScribbleKept(bytes, Scribbled(bytes, order[i]), order, order[i + 2]);
    }
  }

  lemma KeptWithin(a: seq<nat>, b: seq<nat>, c: seq<nat>, order: seq<nat>, fewer: seq<nat>)
    requires Kept(a, b, order) && Kept(b, c, fewer)
    requires forall k :: 0 <= k < |fewer| ==> fewer[k] in order
    ensures Kept(a, c, order)
  {
    forall k | 0 <= k < |c| && Clear(order, k) ensures c[k] == a[k] {
      assert Clear(fewer, k);
    }
  }

  lemma KeptTrans(a: seq<nat>, b: seq<nat>, c: seq<nat>, order: seq<nat>)
    requires Kept(a, b, order) && Kept(b, c, order)
    ensures Kept(a, c, order)
  {
  }

  lemma FlagLinks(headers: map<nat, Header>, order: seq<nat>, i: nat, free: bool)
    requires Linked(headers, order) && LeftoversFree(headers, order) && i < |order|
    ensures var h := headers[order[i] := headers[order[i]].(free := free)];
            Linked(h, order) && LeftoversFree(h, order) && BlocksOf(h, order) == SetFree(BlocksOf(headers, order), i, free)
  {
    var h := headers[order[i] := headers[order[i]].(free := free)];
    forall j | 0 <= j < |order| ensures LinkAt(h, order, j) {
      assert LinkAt(headers, order, j);
    }
    assert BlocksOf(h, order) == SetFree(BlocksOf(headers, order), i, free);
  }

  function Scribbled2(bytes: seq<nat>, a: nat, next: nat): seq<nat> {
    if next != 0 then Scribbled(Scribbled(bytes, a), next) else Scribbled(bytes, a)
  }

  lemma SplitKept(bytes: seq<nat>, order: seq<nat>, i: nat, nb: nat)
    requires i < |order|
    ensures Kept(bytes, Scribbled(Scribbled2(bytes, nb, After(order, i)), order[i]), Inserted(order, i, nb))
  {
    var order' := Inserted(order, i, nb);
    assert order'[i + 1] == nb && order'[i] == order[i];
    ScribbleKept(bytes, bytes, order', nb);
    var b1 := Scribbled(bytes, nb);
    if i + 1 < |order| && order[i + 1] != 0 {
      assert order'[i + 2] == order[i + 1];
      ScribbleKept(bytes, b1, order', order[i + 1]);
    }
    ScribbleKept(bytes, Scribbled2(bytes, nb, After(order, i)), order', order[i]);
  }
}
