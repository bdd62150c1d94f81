/** The kernel heap as it runs: liballoc's own headers and mm_alloc_pages on the bitmap array. Any
    sequence of malloc, free and realloc is a run in the sense of KernelHeap. */
module KernelHeapRuns {
  import opened Memory
  import opened HeapLayout
  import opened HeapSteps
  import opened HeapRuns
  import opened HeapState
  import opened KernelHeap
  import opened LibAlloc
  import Bitmap
  import KernelPages
  import HeapLinks

  ghost function View(h: Heap, kheap: array<bv8>): Kernel
    reads h, kheap
  {
    Kernel(Point(h.layout, h.bestBet), kheap[..])
  }

  /** States of the kernel heap, each a step from the one before. */
  ghost predicate Path(path: seq<Kernel>, s: Kernel, t: Kernel) {
    && path != [] && path[0] == s && path[|path| - 1] == t
    && forall i :: 0 <= i < |path| - 1 ==> KernelStep(path[i], path[i + 1])
  }

  lemma NoStep(s: Kernel) returns (path: seq<Kernel>)
    ensures Path(path, s, s)
  {
    path := [s];
  }

  lemma OneStep(s: Kernel, t: Kernel) returns (path: seq<Kernel>)
    requires KernelStep(s, t)
    ensures Path(path, s, t)
  {
    path := [s, t];
  }

  lemma PathConcat(p: seq<Kernel>, q: seq<Kernel>, r: Kernel, s: Kernel, t: Kernel)
    requires Path(p, r, s) && Path(q, s, t)
    ensures Path(p + q[1..], r, t)
  {
    hide KernelStep;
    var c := p + q[1..];
    forall i | 0 <= i < |c| - 1 ensures KernelStep(c[i], c[i + 1]) {
      if i >= |p| - 1 {
        var k := i - (|p| - 1);
        assert c[i] == q[k] && c[i + 1] == q[k + 1];
      } else {
        assert c[i] == p[i] && c[i + 1] == p[i + 1];
      }
    }
  }

  // ---- The page hook on the array -----------------------------------------------------------------------

  /** The map has a run for a request of this size. */
  predicate HasRoom(b: seq<bv8>, size: nat) {
    exists s :: 0 <= s < 8 * |b| && Bitmap.Vacant(Bitmap.AsWritten, b, s, PagesFor(size))
  }

  /** What mm_alloc_pages would answer; 0 if the map has no such run. */
  method Peek(kheap: array<bv8>, size: nat) returns (page: nat, ghost start: nat)
    requires kheap.Length == KernelPages.MAP_BYTES
    ensures page == 0 <==> !HasRoom(kheap[..], size)
    ensures page != 0 ==> page == PageAt(start) && Bitmap.LeastVacant(Bitmap.AsWritten, kheap[..], start, PagesFor(size))
  {
    page, start := 0, 0;
    if HasRoom(kheap[..], size) {
      var s := Bitmap.FindVacant(Bitmap.AsWritten, kheap, PagesFor(size));
      page, start := PageAt(s), s;
    }
  }

  /** mm_alloc_pages, where the answer is already known. */
  method Commit(kheap: array<bv8>, size: nat, ghost start: nat)
    requires kheap.Length == KernelPages.MAP_BYTES
    requires Bitmap.LeastVacant(Bitmap.AsWritten, kheap[..], start, PagesFor(size))
    modifies kheap
    ensures KernelPages.Answer(old(kheap[..]), PagesFor(size), start, kheap[..])
  {
    hide Bitmap.SetRun;
    ghost var b := kheap[..];
    assert Bitmap.Vacant(Bitmap.AsWritten, b, start, PagesFor(size));
    var addr := KernelPages.MmAllocPages(kheap, PagesFor(size));
    ghost var s: nat :| Bitmap.LeastVacant(Bitmap.AsWritten, b, s, PagesFor(size)) &&
                        kheap[..] == Bitmap.SetRun(b, s, PagesFor(size));
    Bitmap.LeastUnique(Bitmap.AsWritten, b, PagesFor(size), s, start);
  }

  /** The answer peeked at keeps the promise liballoc relies on. */
  lemma PeekKept(s: Kernel, n: nat, size: nat, page: nat, start: nat)
    requires Sound(s, n)
    requires page != 0 ==> page == PageAt(start) && Bitmap.LeastVacant(Bitmap.AsWritten, s.kheap, start, PagesFor(size))
    ensures HookOk(s.heap.layout, page, size)
  {
    if page != 0 {
      Inside(s.kheap, start, PagesFor(size));
      var n' := HookKept(s, n, size, start, Bitmap.SetRun(s.kheap, start, PagesFor(size)));
    }
  }

  lemma Inside(b: seq<bv8>, start: nat, pages: nat)
    requires Bitmap.LeastVacant(Bitmap.AsWritten, b, start, pages)
    ensures start + pages <= 8 * |b|
  {
  }

  // ---- malloc ---------------------------------------------------------------------------------------------

  /** A call of malloc and, if it asked, the answer of the map, are one step. */
  lemma MallocIsStep(s: Kernel, req: nat, page: nat, start: nat, t: Kernel)
    requires MallocStep(s.heap.layout, s.heap.bet, req, page, t.heap.layout, t.heap.bet, Asks(s.heap.layout, s.heap.bet, req) != [])
    requires if Asks(s.heap.layout, s.heap.bet, req) == [] then t.kheap == s.kheap
             else page == PageAt(start) && KernelPages.Answer(s.kheap, PagesFor(req + PAD), start, t.kheap)
    ensures KernelStep(s, t)
  {
    hide KernelPages.Answer; hide Search; hide StartOf; hide Passes;
    if Asks(s.heap.layout, s.heap.bet, req) == [] {
      assert MallocInside(s, req, t);
    } else {
      assert MallocGrowing(s, req, start, t);
    }
  }

  /** malloc over the bitmap; the map must have room if liballoc has none. */
  method Malloc(h: Heap, kheap: array<bv8>, req: nat, ghost n: nat) returns (p: nat, ghost path: seq<Kernel>)
    requires h.Valid() && Sound(View(h, kheap), n) && req + PAD + 2 * HEADER < ADDRESS_SPACE
    requires HasRoom(kheap[..], req + PAD) || !NoRoom(h.layout, req + PAD)
    modifies h, kheap
    ensures h.Valid() && p != 0 && Path(path, old(View(h, kheap)), View(h, kheap))
  {
    hide HasRoom; hide KernelStep; hide KernelPages.Answer; hide Bitmap.LeastVacant; hide MallocStep; hide HeaderFor;
    hide Delivered; hide SameOutside; hide NoRoom;
    ghost var s := View(h, kheap);
    ghost var start;
    var page;
    page, start := Peek(kheap, req + PAD);
    PeekKept(s, n, req + PAD, page, start);
    assert HeaderFor(h.layout, h.bestBet, req, page) != 0 by { NullIff(h.layout, h.bestBet, req, page); }
    hide Sound;
    var asked := |h.requests|;
    assert Asks(h.layout, h.bestBet, req) != [] ==> page != 0 by { AsksIff(h.layout, h.bestBet, req); }
    p := h.Malloc(req, page);
    if |h.requests| != asked {
      Commit(kheap, req + PAD, start);
    }
    MallocIsStep(s, req, page, start, View(h, kheap));
    path := OneStep(s, View(h, kheap));
  }

  lemma AsksIff(L: Layout, bet: nat, req: nat)
    requires WfOpen(L)
    ensures Asks(L, bet, req) != [] <==> NoRoom(L, req + PAD)
  {
    SearchComplete(L, StartOf(L, bet, req + PAD), req + PAD);
  }

  // ---- free and realloc -------------------------------------------------------------------------------------

  method Free(h: Heap, kheap: array<bv8>, p: nat) returns (ghost path: seq<Kernel>)
    requires h.Valid() && h.Known(p)
    modifies h
    ensures h.Valid() && Path(path, old(View(h, kheap)), View(h, kheap))
  {
    hide FreeStep; hide KernelStep;
    ghost var s, released := View(h, kheap), h.releases;
    ghost var live := p != 0 && h.minors[HeaderOf(h.mem, p)].magic == HeapLinks.MAGIC;
    ghost var a := if p != 0 then HeaderOf(h.mem, p) else 0;
    h.Free(p);
    if live {
      FreeIsStep(s, a, h.releases[|released|..], View(h, kheap));
      path := OneStep(s, View(h, kheap));
    } else {
      path := NoStep(s);
    }
  }

  lemma FreeIsStep(s: Kernel, a: nat, released: seq<(nat, nat)>, t: Kernel)
    requires FreeStep(s.heap.layout, s.heap.bet, a, t.heap.layout, t.heap.bet, released) && t.kheap == s.kheap
    ensures KernelStep(s, t)
  {
    hide FreeStep;
    assert Freeing(s, a, released, t);
  }

  lemma ShrinkIsStep(s: Kernel, a: nat, req: nat, t: Kernel)
    requires WfOpen(s.heap.layout) && Live(s.heap.layout, a) && t == s.(heap := Point(ShrunkAt(s.heap.layout, a, req), s.heap.bet))
    requires forall k, j :: At(s.heap.layout, k, j) && s.heap.layout[k].blocks[j].addr == a ==> req <= s.heap.layout[k].blocks[j].req
    ensures KernelStep(s, t)
  {
    var L := s.heap.layout;
    var k, j :| At(L, k, j) && L[k].blocks[j].addr == a;
    ShrunkAtIs(L, k, j, req);
    assert Shrinking(s, k, j, req, t);
  }

  /** What realloc is given: a pointer it can look at, a size that fits, and a map with room. */
  predicate CanRealloc(h: Heap, kheap: array<bv8>, p: nat, size: nat)
    reads h, kheap
  {
    && h.Known(p) && size + PAD + 2 * HEADER < ADDRESS_SPACE && HasRoom(kheap[..], size + PAD)
    && (p != 0 && h.minors[HeaderOf(h.mem, p)].magic == HeapLinks.MAGIC ==> p == PtrOf(HeaderOf(h.mem, p)))
  }

  /** The steps a call of realloc is made of. */
  lemma ReallocPath(s: Kernel, size: nat, page: nat, start: nat, a: nat, released: seq<(nat, nat)>, t: Kernel)
    returns (path: seq<Kernel>)
    requires page == PageAt(start)
    requires if Asks(s.heap.layout, s.heap.bet, size) == [] then t.kheap == s.kheap
             else KernelPages.Answer(s.kheap, PagesFor(size + PAD), start, t.kheap)
    requires FreeStep(AfterMalloc(s.heap.layout, s.heap.bet, size, page), MallocHint(s.heap.layout, s.heap.bet, size, page),
                      a, t.heap.layout, t.heap.bet, released)
    ensures Path(path, s, t)
  {
    var mid := Kernel(Point(AfterMalloc(s.heap.layout, s.heap.bet, size, page), MallocHint(s.heap.layout, s.heap.bet, size, page)), t.kheap);
    assert MallocStep(s.heap.layout, s.heap.bet, size, page, mid.heap.layout, mid.heap.bet, Asks(s.heap.layout, s.heap.bet, size) != []);
    hide MallocStep; hide FreeStep; hide KernelStep; hide AfterMalloc; hide MallocHint; hide KernelPages.Answer; hide Asks;
    MallocIsStep(s, size, page, start, mid);
    FreeIsStep(mid, a, released, t);
    path := [s, mid, t];
  }

  /** realloc over the bitmap. */
  method Realloc(h: Heap, kheap: array<bv8>, p: nat, size: nat, ghost n: nat) returns (q: nat, ghost path: seq<Kernel>)
    requires h.Valid() && Sound(View(h, kheap), n) && CanRealloc(h, kheap, p, size)
    modifies h, kheap
    ensures h.Valid() && Path(path, old(View(h, kheap)), View(h, kheap))
  {
    hide HasRoom; hide KernelStep; hide KernelPages.Answer; hide Bitmap.LeastVacant; hide MallocStep; hide HeaderFor;
    hide Delivered; hide SameOutside; hide SameBlock; hide FreeStep; hide AfterMalloc; hide MallocHint; hide Asks; hide NoRoom;
    ghost var s, before := View(h, kheap), h.releases;
    ghost var start;
    var page;
    page, start := Peek(kheap, size + PAD);
    PeekKept(s, n, size + PAD, page, start);
    assert HeaderFor(h.layout, h.bestBet, size, page) != 0 by { NullIff(h.layout, h.bestBet, size, page); }
    if p != 0 && h.minors[HeaderOf(h.mem, p)].magic == HeapLinks.MAGIC { LiveReq(h.Now(), HeaderOf(h.mem, p)); }
    hide Sound; hide Consistent; hide Wf; hide WfOpen; hide Live; hide FreeAt; hide ShrunkAt; hide HookOk; hide TakesTail;
    hide SameBytes; hide HeaderOf; hide PtrOf; hide Path;
    ghost var a := if p != 0 then HeaderOf(h.mem, p) else 0;
    ghost var live := p != 0 && h.minors[a].magic == HeapLinks.MAGIC;
    ghost var had := if live then h.minors[a].req else 0;
    var asked := |h.requests|;
    q := h.Realloc(p, size, page);
    if |h.requests| != asked {
      Commit(kheap, size + PAD, start);
    }
    ghost var t := View(h, kheap);
    if size != 0 && p == 0 {
      MallocFromHint(s, size, page, start, t);
      path := OneStep(s, t);
    } else if !live {
      path := NoStep(s);
    } else if size == 0 {
      FreeIsStep(s, a, h.releases[|before|..], t);
      path := OneStep(s, t);
    } else if size <= had {
      ShrinkIsStep(s, a, size, t);
      path := OneStep(s, t);
    } else {
      path := ReallocPath(s, size, page, start, a, h.releases[|before|..], t);
    }
  }

  /** The header of a live block records its request. */
  lemma LiveReq(s: Snap, a: nat)
    requires Consistent(s) && a in s.minors && s.minors[a].magic == HeapLinks.MAGIC
    ensures WfOpen(s.layout)
    ensures forall k, j :: At(s.layout, k, j) && s.layout[k].blocks[j].addr == a ==> s.layout[k].blocks[j].req == s.minors[a].req
  {
    forall k, j | At(s.layout, k, j) && s.layout[k].blocks[j].addr == a ensures s.layout[k].blocks[j].req == s.minors[a].req {
      LiveIn(s, k, j);
    }
  }

  lemma MallocFromHint(s: Kernel, req: nat, page: nat, start: nat, t: Kernel)
    requires page == PageAt(start)
    requires t.heap == Point(AfterMalloc(s.heap.layout, s.heap.bet, req, page), MallocHint(s.heap.layout, s.heap.bet, req, page))
    requires if Asks(s.heap.layout, s.heap.bet, req) == [] then t.kheap == s.kheap
             else KernelPages.Answer(s.kheap, PagesFor(req + PAD), start, t.kheap)
    ensures KernelStep(s, t)
  {
    hide AfterMalloc; hide MallocHint; hide KernelPages.Answer; hide KernelStep;
    MallocIsStep(s, req, page, start, t);
  }

  // ---- Any sequence of calls ----------------------------------------------------------------------------------

  datatype Call = DoMalloc(req: nat) | DoFree(p: nat) | DoRealloc(p: nat, size: nat)

  predicate Allowed(h: Heap, kheap: array<bv8>, call: Call)
    reads h, kheap
  {
    match call
    case DoMalloc(req) => req + PAD + 2 * HEADER < ADDRESS_SPACE && HasRoom(kheap[..], req + PAD)
    case DoFree(p) => h.Known(p)
    case DoRealloc(p, size) => CanRealloc(h, kheap, p, size)
  }

  method Perform(h: Heap, kheap: array<bv8>, call: Call, ghost n: nat) returns (ghost path: seq<Kernel>)
    requires h.Valid() && Sound(View(h, kheap), n) && Allowed(h, kheap, call)
    modifies h, kheap
    ensures h.Valid() && Path(path, old(View(h, kheap)), View(h, kheap))
  {
    hide Path; hide Sound; hide HasRoom;
    match call {
      case DoMalloc(req) => var p; p, path := Malloc(h, kheap, req, n);
      case DoFree(p) => path := Free(h, kheap, p);
      case DoRealloc(p, size) => var q; q, path := Realloc(h, kheap, p, size, n);
    }
  }

  lemma PathRun(run: seq<Kernel>)
    requires run != []
    ensures KernelRun(run) <==> run[0] == Empty() && Path(run, Empty(), run[|run| - 1])
  {
    hide KernelStep;
  }

  ghost function Empty(): Kernel {
    Kernel(Point([], 0), seq(KernelPages.MAP_BYTES, _ => 0))
  }

  /** Any calls in any order, from an empty heap and map, up to the first that is not allowed. */
  method Session(calls: seq<Call>) returns (h: Heap, kheap: array<bv8>, done: nat, ghost run: seq<Kernel>)
    ensures h.Valid() && done <= |calls| && (done < |calls| ==> !Allowed(h, kheap, calls[done]))
    ensures KernelRun(run) && run[|run| - 1] == View(h, kheap)
  {
    h := new Heap();
    kheap := new bv8[KernelPages.MAP_BYTES](_ => 0);
    done, run := 0, [View(h, kheap)];
    assert kheap[..] == seq(KernelPages.MAP_BYTES, _ => 0);
    assert KernelRun(run);
    hide KernelRun; hide Path; hide Sound; hide HasRoom; hide Allowed;
    while done < |calls|
      invariant 0 <= done <= |calls| && h.Valid() && fresh(h) && fresh(kheap)
      invariant run != [] && KernelRun(run) && run[|run| - 1] == View(h, kheap)
    {
      if !Allowed(h, kheap, calls[done]) {
        return;
      }
      ghost var n := KernelRunsSound(run, |run| - 1);
      ghost var path := Perform(h, kheap, calls[done], n);
      ghost var last := run[|run| - 1];
      PathRun(run);
      PathConcat(run, path, Empty(), last, View(h, kheap));
      run := Longer(run, path, last, View(h, kheap));
      done := done + 1;
    }
  }

  ghost function Longer(run: seq<Kernel>, path: seq<Kernel>, s: Kernel, t: Kernel): (r: seq<Kernel>)
    requires run != [] && path != [] && Path(run + path[1..], Empty(), t)
    ensures r != [] && KernelRun(r) && r[|r| - 1] == t
  {
    PathRun(run + path[1..]);
    run + path[1..]
  }
}
