/**
 * Numbers, headers and the slow search of the kernel's blob heap (kernel/ipc/heap.c): which
 * id a blob gets, what is written in front of it, and what a scan for an id looks at.
 */
module BlobIds {
  import opened Words
  import opened Basics
  import opened Bitmap
  import opened BlobSpec

  // ---- Ids ------------------------------------------------------------------------------

  // The blobs that a run is granted, in order.
  function Grants(w: World, qs: seq<Request>): (r: seq<Entry>)
    decreases |qs|
  {
    if qs == [] then []
    else
      var front, q := qs[..|qs| - 1], qs[|qs| - 1];
      Grants(w, front) + GrantOf(ServeAll(w, front), q)
  }

  function GrantOf(w: World, q: Request): seq<Entry> {
    if q.Get? && FindFree(w.h.bits, BlocksFor(q.size)) < MAX_BLOCKS then [NewBlob(w.h, q.size)] else []
  }

  lemma NextAfter(h: Heap, size: Word, n: nat)
    requires h.next == 1 + n % 0xFFFF_FFFF
    ensures Alloc(h, size).h.next == if FindFree(h.bits, BlocksFor(size)) < MAX_BLOCKS then 1 + (n + 1) % 0xFFFF_FFFF else h.next
  {
    hide FindFree, BlocksFor, SetRange;
    OneUp(n);
    assert FindFree(h.bits, BlocksFor(size)) <= MAX_BLOCKS by { FreeBound(h.bits, BlocksFor(size)); }
  }

  lemma OneUp(n: nat)
    ensures (n + 1) % 0xFFFF_FFFF == if n % 0xFFFF_FFFF == 0xFFFF_FFFE then 0 else n % 0xFFFF_FFFF + 1
  {
  }

  lemma FreeBound(b: Bits, count: nat)
    ensures FindFree(b, count) <= MAX_BLOCKS
  {
    FirstRunIsLeftmost(b, 0, MAX_BLOCKS, if count == 0 then 1 else count);
  }

  lemma OnlyGetsCount(w: World, q: Request)
    requires !q.Get?
    ensures Serve(w, q).h.next == w.h.next && GrantOf(w, q) == []
  {
    hide IndexOf, ClearRange, Recorded;
  }

  /** The k-th blob of a run gets the number 1 + k, counted to 2^32 - 1 and cut to 16 bits. */
  lemma {:induction false} IdsCount(qs: seq<Request>)
    ensures var log := Grants(Start(), qs);
      && ServeAll(Start(), qs).h.next == 1 + |log| % 0xFFFF_FFFF
      && forall k :: 0 <= k < |log| ==> log[k].id == (1 + k % 0xFFFF_FFFF) % 0x1_0000
    decreases |qs|
  {
    hide Initial, Alloc, FindFree, BlocksFor, Lost, WriteHeader, Serve;
    if qs == [] {
      InitialTable();
    } else {
      var front, q := qs[..|qs| - 1], qs[|qs| - 1];
      IdsCount(front);
      var w, log := ServeAll(Start(), front), Grants(Start(), front);
      if q.Get? {
        NextAfter(w.h, q.size, |log|);
        GetIsAlloc(w, q);
      } else {
        OnlyGetsCount(w, q);
      }
    }
  }

  lemma GetIsAlloc(w: World, q: Request)
    requires q.Get?
    ensures Serve(w, q).h == Alloc(w.h, q.size).h
  {
    hide Alloc;
  }

  /** No blob is given number 0, the failure code, if and only if there are at most 65535 of them. */
  lemma NoIdZeroIff(qs: seq<Request>)
    ensures var log := Grants(Start(), qs);
      (forall k :: 0 <= k < |log| ==> log[k].id != 0) <==> |log| <= 65535
  {
    hide Grants, Start;
    IdsCount(qs);
    var log := Grants(Start(), qs);
    forall k: nat | k < |log| && k <= 65535 ensures log[k].id == if k == 65535 then 0 else 1 + k { FirstIds(k); }
    if |log| > 65535 { assert log[65535].id == 0; }
  }

  lemma FirstIds(k: nat)
    requires k <= 65535
    ensures (1 + k % 0xFFFF_FFFF) % 0x1_0000 == if k == 65535 then 0 else 1 + k
  {
  }

  // Every blob and every header stems from a grant, and the table names none twice.
  ghost predicate Numbered(w: World, log: seq<Entry>) {
    && w.h.next == 1 + |log| && (forall k :: 0 <= k < |log| ==> log[k].id == 1 + k)
    && (forall e :: e in w.h.table ==> e in log)
    && (forall e :: e in w.lost ==> e in log)
    && (forall p :: p in w.heads ==> EntryAt(w.heads, p) in log)
    && (forall i, j :: 0 <= i < j < |w.h.table| ==> w.h.table[i] != w.h.table[j])
  }

  lemma GetNumbered(w: World, log: seq<Entry>, size: Word, kind: nat)
    requires Numbered(w, log) && |log + GrantOf(w, Get(size, kind))| <= 65535
    ensures Numbered(Serve(w, Get(size, kind)), log + GrantOf(w, Get(size, kind)))
  {
    hide FindFree, BlocksFor, SetRange;
    FreeBound(w.h.bits, BlocksFor(size));
    var v, e := Serve(w, Get(size, kind)), NewBlob(w.h, size);
    if FindFree(w.h.bits, BlocksFor(size)) < MAX_BLOCKS {
      assert e.id == 1 + |log| && e !in log;
      forall p | p in v.heads ensures EntryAt(v.heads, p) in log + [e] {
        if p != e.start { assert EntryAt(v.heads, p) == EntryAt(w.heads, p); }
      }
    }
  }

  lemma PutNumbered(w: World, log: seq<Entry>, id: nat)
    requires Numbered(w, log)
    ensures Numbered(Serve(w, Put(id)), log)
  {
    hide EntryAt, ClearRange;
    var k := IndexOf(w.h.table, id);
    if id != 0 && k < |w.h.table| {
      var t, last := SwapRemove(w.h.table, k), |w.h.table| - 1;
      assert forall i :: 0 <= i < |t| ==> t[i] == w.h.table[if i == k then last else i];
    }
  }

  lemma LookNumbered(w: World, log: seq<Entry>, id: nat)
    requires Numbered(w, log)
    ensures Numbered(Serve(w, Look(id)), log)
  {
    hide EntryAt, Recorded, Without;
    if Recorded(w.h, w.heads, id).Some? {
      WithoutOne(w.lost, Recorded(w.h, w.heads, id).value, 0);
    }
  }

  lemma {:induction false} RunNumbered(qs: seq<Request>)
    requires |Grants(Start(), qs)| <= 65535
    ensures Numbered(ServeAll(Start(), qs), Grants(Start(), qs))
    decreases |qs|
  {
    hide Initial, Serve, Numbered;
    if qs == [] {
      StartNumbered();
    } else {
      var front, q := qs[..|qs| - 1], qs[|qs| - 1];
      var w, log := ServeAll(Start(), front), Grants(Start(), front);
      RunNumbered(front);
      assert log + [] == log;
      match q
      case Get(size, kind) => GetNumbered(w, log, size, kind);
      case Put(id) => PutNumbered(w, log, id);
      case Look(id) => LookNumbered(w, log, id);
    }
  }

  lemma StartNumbered()
    ensures Numbered(Start(), [])
  {
    InitialTable();
    hide Initial;
  }

  /**
   * Main theorem: in every run with at most 65535 grants, lookups of whatever ids included,
   * no two entries of the table share an id and none has id 0, so heap_free frees the blob
   * meant and no other.
   */
  lemma EveryRunAddressable(qs: seq<Request>)
    requires |Grants(Start(), qs)| <= 65535
    ensures Addressable(ServeAll(Start(), qs).h.table)
  {
    hide Grants, ServeAll, Numbered;
    RunNumbered(qs);
    NumbersDiffer(ServeAll(Start(), qs), Grants(Start(), qs));
  }

  lemma NumbersDiffer(w: World, log: seq<Entry>)
    requires Numbered(w, log)
    ensures Addressable(w.h.table)
  {
    hide EntryAt;
    var table := w.h.table;
    forall i | 0 <= i < |table| ensures table[i].id != 0 { assert table[i] in log; }
    forall i, j | 0 <= i < j < |table| ensures table[i].id != table[j].id {
      assert table[i] in log && table[j] in log;
      var a :| 0 <= a < |log| && log[a] == table[i];
      var b :| 0 <= b < |log| && log[b] == table[j];
    }
  }

  // ---- What stands in front of a blob -----------------------------------------------------

  /**
   * heap_alloc writes one header, at the first of the blocks it takes: the id it answers, the
   * kind and size asked for, and where the data begins. If it refuses, it writes none.
   */
  lemma HeaderWritten(h: Heap, lost: seq<Entry>, heads: Headers, size: Word, kind: nat)
    requires Inv(h, lost)
    ensures var s, r, after := FindFree(h.bits, BlocksFor(size)), Alloc(h, size), WriteHeader(h, heads, size, kind);
      if s < MAX_BLOCKS then
        && after.Keys == heads.Keys + {s} && (forall p :: p in heads && p != s ==> after[p] == heads[p])
        && after[s].id == r.id && after[s].kind == kind && after[s].size == size && after[s].offset == 64 * s + 32
        && (forall p: nat :: Test(r.h.bits, p) <==> s <= p < s + BlocksFor(size) || Test(h.bits, p))
        && r.h.table == (if |h.table| < 256 then h.table + [Entry(r.id, s, BlocksFor(size))] else h.table)
      else r.id == 0 && r.h == h && after == heads
  {
    hide Test, FindFree, BlocksFor, Inv, SetRange;
    FreeBound(h.bits, BlocksFor(size));
    var s := FindFree(h.bits, BlocksFor(size));
    forall p: nat ensures Test(SetRange(h.bits, s, BlocksFor(size)), p) <==> s <= p < s + BlocksFor(size) || Test(h.bits, p) {
      TestSetRange(h.bits, s, BlocksFor(size), p);
    }
  }

  // ---- The scan ---------------------------------------------------------------------------

  // Blocks without a header are passed one by one.
  lemma {:induction false} ScanPassesEmpty(heads: Headers, id: nat, p: nat, q: nat)
    requires p <= q <= MAX_BLOCKS && forall r :: p <= r < q ==> r !in heads
    ensures Scan(heads, id, p) == Scan(heads, id, q)
    decreases q - p
  {
    if p < q { ScanPassesEmpty(heads, id, p + 1, q); }
  }

  /**
   * A scan that comes to a header of another id looks at none of that blob's further blocks,
   * whatever they hold, and goes on at the next: no older header inside a blob is taken for a
   * blob.
   */
  lemma ScanJumpsOver(heads: Headers, id: nat, p: nat, q: nat)
    requires p in heads && p < MAX_BLOCKS && heads[p].id != id && heads[p].size + 95 < 0x1_0000_0000
    ensures p < q && 64 * q < 64 * p + heads[p].size + 32 ==> Scan(heads, id, p) != Some(q)
    ensures p < q && 64 * (q - 1) < 64 * p + heads[p].size + 32 <= 64 * q ==> Scan(heads, id, p) == Scan(heads, id, q)
  {
    BlocksCoverIff(heads[p].size);
    hide BlocksFor;
    var r := Scan(heads, id, p + Step(heads[p].size));
  }
}
