/** The kernel heap end to end on x86: liballoc over mm_alloc_pages over the heap bitmap, the
    probe as written. The page hook keeps the promise the allocator relies on. */
module KernelHeap {
  import opened HeapLayout
  import opened HeapSteps
  import opened HeapRuns
  import Bitmap
  import KernelPages

  const WINDOW := KernelPages.KHEAP_VIRTUAL_START

  datatype Kernel = Kernel(heap: Point, kheap: seq<bv8>)

  /** The address mm_alloc_pages computes from a page number. */
  function PageAt(start: nat): nat {
    WINDOW + start * PAGE_SIZE
  }

  /** malloc that finds room, and leaves the bitmap alone. */
  ghost predicate MallocInside(s: Kernel, req: nat, t: Kernel) {
    && Search(s.heap.layout, StartOf(s.heap.layout, s.heap.bet, req + PAD), req + PAD).Some?
    && MallocStep(s.heap.layout, s.heap.bet, req, 0, t.heap.layout, t.heap.bet, false)
    && t.kheap == s.kheap
  }

  /** malloc that asks mm_alloc_pages, which answers from the bitmap. */
  ghost predicate MallocGrowing(s: Kernel, req: nat, start: nat, t: Kernel) {
    && MallocStep(s.heap.layout, s.heap.bet, req, PageAt(start), t.heap.layout, t.heap.bet, true)
    && KernelPages.Answer(s.kheap, PagesFor(req + PAD), start, t.kheap)
  }

  /** free; mm_free_pages does nothing. */
  ghost predicate Freeing(s: Kernel, a: nat, released: seq<(nat, nat)>, t: Kernel) {
    Freed(s.heap, a, released, t.heap) && t.kheap == s.kheap
  }

  ghost predicate Shrinking(s: Kernel, k: nat, j: nat, req: nat, t: Kernel) {
    ShrunkTo(s.heap, k, j, req, t.heap) && t.kheap == s.kheap
  }

  ghost predicate KernelStep(s: Kernel, t: Kernel) {
    || (exists req :: MallocInside(s, req, t))
    || (exists req, start :: MallocGrowing(s, req, start, t))
    || (exists a, released :: Freeing(s, a, released, t))
    || (exists k, j, req :: Shrinking(s, k, j, req, t))
  }

  ghost predicate KernelRun(run: seq<Kernel>) {
    && run != [] && run[0] == Kernel(Point([], 0), seq(KernelPages.MAP_BYTES, _ => 0))
    && forall i :: 0 <= i < |run| - 1 ==> KernelStep(run[i], run[i + 1])
  }

  /** Every listed run was cut from the first n bytes of the bitmap. */
  ghost predicate Within(L: Layout, n: nat) {
    forall i :: 0 <= i < |L| ==> WINDOW <= L[i].addr && L[i].addr + Bytes(L[i]) <= PageAt(8 * n)
  }

  ghost predicate Sound(s: Kernel, n: nat) {
    && Good(s.heap) && Within(s.heap.layout, n)
    && |s.kheap| == KernelPages.MAP_BYTES && Bitmap.Marked(s.kheap, n)
  }

  /** The answer mm_alloc_pages gives is a run apart from every run still listed. */
  lemma HookKept(s: Kernel, n: nat, size: nat, start: nat, kheap: seq<bv8>) returns (n': nat)
    requires Sound(s, n) && KernelPages.Answer(s.kheap, PagesFor(size), start, kheap)
    ensures n <= n' && start == 8 * n && 8 * n + PagesFor(size) <= 8 * n'
    ensures |kheap| == KernelPages.MAP_BYTES && Bitmap.Marked(kheap, n')
    ensures HookOk(s.heap.layout, PageAt(start), size)
  {
    hide Good; hide Bitmap.Marked;
    var pages := PagesFor(size);
    FreshFits(0, size);
    if start < 8 * n { Bitmap.NoPairInUse(s.kheap, n, start, pages); }
    KernelPages.GrantMarked(s.kheap, n, pages);
    KernelPages.UsedBound(n, pages);
    n' := KernelPages.UsedAfter(n, pages);
    FreshFits(PageAt(start), size);
  }

  lemma WithinGrown(L: Layout, L': Layout, n: nat, n': nat)
    requires Within(L, n) && n <= n'
    requires forall i :: 0 <= i < |L'| ==>
               (exists k :: 0 <= k < |L| && L[k].addr == L'[i].addr && L[k].pages == L'[i].pages) ||
               (WINDOW <= L'[i].addr && L'[i].addr + Bytes(L'[i]) <= PageAt(8 * n'))
    ensures Within(L', n')
  {
    forall i | 0 <= i < |L'| ensures WINDOW <= L'[i].addr && L'[i].addr + Bytes(L'[i]) <= PageAt(8 * n') {
      if k :| 0 <= k < |L| && L[k].addr == L'[i].addr && L[k].pages == L'[i].pages {
        assert Bytes(L[k]) == Bytes(L'[i]);
      }
    }
  }

  lemma GrowingSound(s: Kernel, n: nat, req: nat, start: nat, t: Kernel) returns (n': nat)
    requires Sound(s, n) && MallocGrowing(s, req, start, t)
    ensures Sound(t, n')
  {
    var size := req + PAD;
    n' := HookKept(s, n, size, start, t.kheap);
    assert Malloced(s.heap, req, PageAt(start), true, t.heap);
    StepGood(s.heap, t.heap);
    var L, L' := s.heap.layout, t.heap.layout;
    assert L' == Grown(L, PageAt(start), size, req);
    WithinGrown(L, L', n, n');
  }

  lemma InsideSound(s: Kernel, n: nat, req: nat, t: Kernel)
    requires Sound(s, n) && MallocInside(s, req, t)
    ensures Sound(t, n)
  {
    assert Malloced(s.heap, req, 0, false, t.heap);
    StepGood(s.heap, t.heap);
    SearchComplete(s.heap.layout, StartOf(s.heap.layout, s.heap.bet, req + PAD), req + PAD);
    WithinGrown(s.heap.layout, t.heap.layout, n, n);
  }

  lemma FreeingSound(s: Kernel, n: nat, a: nat, released: seq<(nat, nat)>, t: Kernel)
    requires Sound(s, n) && Freeing(s, a, released, t)
    ensures Sound(t, n)
  {
    FreeHintListed(s.heap, a, released, t.heap);
    var L := s.heap.layout;
    var k, j :| At(L, k, j) && L[k].blocks[j].addr == a;
    FreeAtIs(L, k, j);
    forall i | 0 <= i < |t.heap.layout|
      ensures exists m :: 0 <= m < |L| && L[m].addr == t.heap.layout[i].addr && L[m].pages == t.heap.layout[i].pages
    {
      var m := if |L[k].blocks| == 1 && i >= k then i + 1 else i;
      assert L[m].addr == t.heap.layout[i].addr;
    }
    WithinGrown(L, t.heap.layout, n, n);
  }

  lemma ShrinkingSound(s: Kernel, n: nat, k: nat, j: nat, req: nat, t: Kernel)
    requires Sound(s, n) && Shrinking(s, k, j, req, t)
    ensures Sound(t, n)
  {
    StepGood(s.heap, t.heap);
    WithinGrown(s.heap.layout, t.heap.layout, n, n);
  }

  lemma KernelStepSound(s: Kernel, n: nat, t: Kernel) returns (n': nat)
    requires Sound(s, n) && KernelStep(s, t)
    ensures Sound(t, n')
  {
    hide Sound; hide MallocInside; hide MallocGrowing; hide Freeing; hide Shrinking;
    n' := n;
    if req :| MallocInside(s, req, t) {
      InsideSound(s, n, req, t);
    } else if req, start :| MallocGrowing(s, req, start, t) {
      n' := GrowingSound(s, n, req, start, t);
    } else if a, released :| Freeing(s, a, released, t) {
      FreeingSound(s, n, a, released, t);
    } else {
      var k, j, req :| Shrinking(s, k, j, req, t);
      ShrinkingSound(s, n, k, j, req, t);
    }
  }

  lemma {:induction false} KernelRunsSound(run: seq<Kernel>, i: nat) returns (n: nat)
    requires KernelRun(run) && i < |run|
    ensures Sound(run[i], n)
  {
    if i == 0 {
      n := 0;
      KernelPages.ZeroMarked();
    } else {
      n := KernelRunsSound(run, i - 1);
      n := KernelStepSound(run[i - 1], n, run[i]);
    }
  }

  /** In every state of every run of the kernel heap: the layout is well formed, so all live blocks
      are pairwise disjoint, and every block lies in the 4 MiB heap window. */
  lemma KernelHeapSafe(run: seq<Kernel>, i: nat, k: nat, j: nat)
    requires KernelRun(run) && i < |run| && At(run[i].heap.layout, k, j)
    ensures Good(run[i].heap)
    ensures var b := run[i].heap.layout[k].blocks[j]; 0xC000_0000 < b.addr && b.addr + 24 + b.size <= 0xC040_0000
    ensures forall k', j' :: At(run[i].heap.layout, k', j') && (k' != k || j' != j) ==>
              var b, c := run[i].heap.layout[k].blocks[j], run[i].heap.layout[k'].blocks[j'];
              b.addr + 24 + b.size <= c.addr || c.addr + 24 + c.size <= b.addr
  {
    var n := KernelRunsSound(run, i);
    var L := run[i].heap.layout;
    BlockInside(L[k], j);
    forall k', j' | At(L, k', j') && (k' != k || j' != j) ensures BlocksApart(L[k].blocks[j], L[k'].blocks[j']) {
      LiveBlocksApart(L, k, j, k', j');
    }
  }
}
