/** Page allocation for the x86 kernel heap: mm_alloc_pages over a 1024-bit map whose bits are
    never cleared, because mm_free_pages returns before it touches the map. */
module KernelPages {
  import opened Bitmap

  const KHEAP_VIRTUAL_START := 0xC000_0000
  const PAGE := 0x1000
  const MAP_BYTES := 128

  /** mm_alloc_pages. The search must find room inside the map. */
  method MmAllocPages(kheap: array<bv8>, pages: nat) returns (addr: nat)
    requires kheap.Length == MAP_BYTES && exists s: nat :: Vacant(AsWritten, kheap[..], s, pages)
    modifies kheap
    ensures exists start: nat ::
              && LeastVacant(AsWritten, old(kheap[..]), start, pages)
              && (pages == 0 ==> start == 0)
              && kheap[..] == SetRun(old(kheap[..]), start, pages)
              && addr == KHEAP_VIRTUAL_START + start * PAGE
  {
    var start := BitmapFindZero(AsWritten, kheap, pages);
    addr := KHEAP_VIRTUAL_START + start * PAGE;
  }

  /** mm_free_pages: returns at once. */
  method MmFreePages(kheap: array<bv8>, ptr: nat, pages: nat) returns (r: int)
    ensures r == 0
  {
    return 0;
  }

  // ---- One request ---------------------------------------------------------------------------------

  /** Where a request lands on a bitmap whose first n bytes are in use. */
  function StartFor(n: nat, nr: nat): nat {
    if nr == 1 then 0 else 8 * n
  }

  /** The bytes in use afterwards. */
  function UsedAfter(n: nat, nr: nat): nat {
    if nr == 1 then (if n == 0 then 1 else n) else n + (nr + 7) / 8
  }

  predicate Room(n: nat, nr: nat) {
    1 <= nr && (nr == 1 || 8 * n + nr <= 8 * MAP_BYTES)
  }

  lemma UsedBound(n: nat, nr: nat)
    requires Room(n, nr)
    ensures StartFor(n, nr) + nr <= 8 * UsedAfter(n, nr) < StartFor(n, nr) + nr + 8 || nr == 1
    ensures StartFor(n, nr) + nr <= 8 * UsedAfter(n, nr)
    ensures n <= UsedAfter(n, nr)
    ensures n <= MAP_BYTES ==> UsedAfter(n, nr) <= MAP_BYTES
  {
  }

  lemma Marks(b: seq<bv8>, n: nat, nr: nat, i: nat)
    requires |b| == MAP_BYTES && Marked(b, n) && Room(n, nr) && i < UsedAfter(n, nr) <= MAP_BYTES
    requires StartFor(n, nr) + nr <= 8 * MAP_BYTES
    ensures SetRun(b, StartFor(n, nr), nr)[i] & 1 != 0
  {
    hide SetRun;
    UsedBound(n, nr);
    SetRunBits(b, StartFor(n, nr), nr, 8 * i);
    assert (8 * i) / 8 == i && (8 * i) % 8 == 0;
    assert Mask(0) == 1;
    if i < n { assert b[i] & 1 != 0; }
  }

  lemma LeavesZero(b: seq<bv8>, n: nat, nr: nat, i: nat)
    requires |b| == MAP_BYTES && Marked(b, n) && Room(n, nr) && UsedAfter(n, nr) <= i < MAP_BYTES
    requires StartFor(n, nr) + nr <= 8 * MAP_BYTES
    ensures SetRun(b, StartFor(n, nr), nr)[i] == 0
  {
    hide SetRun;
    UsedBound(n, nr);
    var c := SetRun(b, StartFor(n, nr), nr);
    forall k | 0 <= k < 8 ensures c[i] & Mask(k) != 0 <==> 0 & Mask(k) != 0 {
      assert (8 * i + k) / 8 == i && (8 * i + k) % 8 == k;
      SetRunBits(b, StartFor(n, nr), nr, 8 * i + k);
      ZeroByte(k);
    }
    SameByte(c[i], 0);
  }

  lemma GrantMarked(b: seq<bv8>, n: nat, nr: nat)
    requires |b| == MAP_BYTES && Marked(b, n) && Room(n, nr)
    ensures forall start: nat :: LeastVacant(AsWritten, b, start, nr) <==> start == StartFor(n, nr)
    ensures StartFor(n, nr) + nr <= 8 * MAP_BYTES
    ensures Marked(SetRun(b, StartFor(n, nr), nr), UsedAfter(n, nr))
  {
    hide SetRun; hide LeastVacant;
    UsedBound(n, nr);
    forall start: nat ensures LeastVacant(AsWritten, b, start, nr) <==> start == StartFor(n, nr) {
      if nr == 1 { OnePageIsZero(b, start); } else { MarkedStart(b, n, nr, start); }
    }
    var c := SetRun(b, StartFor(n, nr), nr);
    forall i | 0 <= i < UsedAfter(n, nr) ensures c[i] & 1 != 0 { Marks(b, n, nr, i); }
    forall i | UsedAfter(n, nr) <= i < |c| ensures c[i] == 0 { LeavesZero(b, n, nr, i); }
  }

  // ---- Any sequence of requests ----------------------------------------------------------------------

  /** Bytes in use after the first `i` requests. */
  function Used(reqs: seq<nat>, i: nat): nat
    requires i <= |reqs|
  {
    if i == 0 then 0 else UsedAfter(Used(reqs, i - 1), reqs[i - 1])
  }

  /** Every request asks for at least a page and the map has room for it. */
  predicate AllFit(reqs: seq<nat>) {
    forall i :: 0 <= i < |reqs| ==> Room(Used(reqs, i), reqs[i])
  }

  /** `starts` are the answers of mm_alloc_pages, in pages, to `reqs` from an empty map. */
  ghost predicate Answers(reqs: seq<nat>, starts: seq<nat>, maps: seq<seq<bv8>>) {
    && |starts| == |reqs| && |maps| == |reqs| + 1
    && maps[0] == seq(MAP_BYTES, _ => 0)
    && forall i :: 0 <= i < |reqs| ==> Answer(maps[i], reqs[i], starts[i], maps[i + 1])
  }

  ghost predicate Answer(b: seq<bv8>, nr: nat, start: nat, c: seq<bv8>) {
    LeastVacant(AsWritten, b, start, nr) && c == SetRun(b, start, nr)
  }

  lemma ZeroMarked()
    ensures Marked(seq(MAP_BYTES, _ => 0), 0)
  {
  }

  lemma {:induction false} AnswersMarked(reqs: seq<nat>, starts: seq<nat>, maps: seq<seq<bv8>>, i: nat)
    requires AllFit(reqs) && Answers(reqs, starts, maps) && i <= |reqs|
    ensures |maps[i]| == MAP_BYTES && Marked(maps[i], Used(reqs, i))
    ensures i > 0 ==> starts[i - 1] == StartFor(Used(reqs, i - 1), reqs[i - 1])
  {
    hide Marked; hide LeastVacant; hide SetRun; hide UsedAfter; hide StartFor;
    if i == 0 {
      ZeroMarked();
    } else {
      AnswersMarked(reqs, starts, maps, i - 1);
      assert Answer(maps[i - 1], reqs[i - 1], starts[i - 1], maps[i]);
      assert Room(Used(reqs, i - 1), reqs[i - 1]);
      GrantMarked(maps[i - 1], Used(reqs, i - 1), reqs[i - 1]);
    }
  }

  predicate Disjoint(s: nat, n: nat, s': nat, n': nat) {
    s + n <= s' || s' + n' <= s
  }

  ghost predicate PairwiseDisjoint(reqs: seq<nat>, starts: seq<nat>)
    requires |reqs| == |starts|
  {
    forall i, j :: 0 <= i < j < |reqs| ==> Disjoint(starts[i], reqs[i], starts[j], reqs[j])
  }

  lemma {:induction false} UsedGrows(reqs: seq<nat>, i: nat, j: nat)
    requires AllFit(reqs) && i < j <= |reqs|
    ensures StartFor(Used(reqs, i), reqs[i]) + reqs[i] <= 8 * Used(reqs, j)
    ensures Used(reqs, i) <= Used(reqs, j)
  {
    hide UsedAfter; hide StartFor;
    assert Room(Used(reqs, j - 1), reqs[j - 1]);
    UsedBound(Used(reqs, j - 1), reqs[j - 1]);
    if i + 1 < j {
      UsedGrows(reqs, i, j - 1);
    }
  }

  /** The pages handed out never overlap if, and only if, no request after the first is for a
      single page; the heap asks for 16 or more at a time. */
  lemma DisjointIffNoLateSingle(reqs: seq<nat>, starts: seq<nat>, maps: seq<seq<bv8>>)
    requires AllFit(reqs) && Answers(reqs, starts, maps)
    ensures PairwiseDisjoint(reqs, starts) <==> forall i :: 1 <= i < |reqs| ==> reqs[i] >= 2
  {
    hide Marked; hide LeastVacant; hide SetRun; hide UsedAfter;
    forall i | 0 <= i < |reqs|
      ensures starts[i] == StartFor(Used(reqs, i), reqs[i]) && reqs[i] >= 1
    {
      AnswersMarked(reqs, starts, maps, i + 1);
      assert Room(Used(reqs, i), reqs[i]);
    }
    if forall i :: 1 <= i < |reqs| ==> reqs[i] >= 2 {
      forall i, j | 0 <= i < j < |reqs| ensures Disjoint(starts[i], reqs[i], starts[j], reqs[j]) {
        UsedGrows(reqs, i, j);
      }
    } else {
      var j :| 1 <= j < |reqs| && reqs[j] == 1;
      assert starts[0] == 0 && starts[j] == 0;
      assert !Disjoint(starts[0], reqs[0], starts[j], reqs[j]);
    }
  }

  /** `start` is the first bit of the first byte of the map that is zero. */
  ghost predicate OnFirstZeroByte(b: seq<bv8>, start: nat) {
    start % 8 == 0 && start / 8 < |b| && b[start / 8] == 0 && forall m :: 0 <= m < start / 8 ==> b[m] != 0
  }

  lemma RunOnFirstZeroByte(b: seq<bv8>, n: nat, nr: nat, start: nat)
    requires |b| == MAP_BYTES && Marked(b, n) && nr >= 2 && LeastVacant(AsWritten, b, start, nr)
    ensures OnFirstZeroByte(b, start)
  {
    if start < 8 * n { NoPairInUse(b, n, start, nr); }
    MarkedStart(b, n, nr, start);
  }

  /** In every sequence of requests, each run of two or more pages starts on the first byte of the
      map that is still zero. */
  lemma StartsOnFirstZeroByte(reqs: seq<nat>, starts: seq<nat>, maps: seq<seq<bv8>>)
    requires AllFit(reqs) && Answers(reqs, starts, maps)
    ensures forall i :: 0 <= i < |reqs| && reqs[i] >= 2 ==> OnFirstZeroByte(maps[i], starts[i])
  {
    hide Marked; hide LeastVacant; hide SetRun; hide OnFirstZeroByte;
    forall i | 0 <= i < |reqs| && reqs[i] >= 2 ensures OnFirstZeroByte(maps[i], starts[i]) {
      AnswersMarked(reqs, starts, maps, i);
      assert Answer(maps[i], reqs[i], starts[i], maps[i + 1]);
      RunOnFirstZeroByte(maps[i], Used(reqs, i), reqs[i], starts[i]);
    }
  }
}
