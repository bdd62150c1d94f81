/** The liballoc allocator of the kernel, statement by statement over headers addressed by
    pointer, proved against the layout steps. Calls are sequential, as under the heap's lock. */
module LibAlloc {
  import opened Memory
  import opened HeapLayout
  import opened HeapSteps
  import opened HeapLinks
  import opened HeapState

  class Heap {
    var majors: Majors
    var minors: Minors
    var memRoot: nat
    var bestBet: nat
    var held: int                   // l_allocated
    var inuse: int                  // l_inuse
    var warnings: nat
    var errors: nat
    var overruns: nat
    var mem: seq<byte>

    var requests: seq<nat>          // page counts passed to liballoc_alloc, in order
    var releases: seq<(nat, nat)>   // (address, pages) passed to liballoc_free, in order

    ghost var layout: Layout

    ghost function Now(): Snap
      reads this
    {
      Snap(majors, minors, memRoot, bestBet, held, inuse, mem, layout)
    }

    ghost predicate Inv()
      reads this
    {
      Consistent(Now())
    }

    /** Holds between calls. */
    ghost predicate Valid()
      reads this
    {
      Inv() && Wf(layout)
    }

    constructor ()
      ensures Valid() && layout == [] && memRoot == 0 && bestBet == 0 && held == 0 && inuse == 0
      ensures requests == [] && releases == []
    {
      majors, minors, memRoot, bestBet := map[], map[], 0, 0;
      held, inuse, warnings, errors, overruns := 0, 0, 0, 0, 0;
      mem := seq(ADDRESS_SPACE, _ => 0);
      requests, releases := [], [];
      layout := [];
    }

    // ---- ALIGN and memset ------------------------------------------------------------------

    method Memset(p: nat, n: nat)
      requires p + n <= |mem|
      modifies `mem
      ensures SameOutside(old(mem), mem, p, p + n)
      ensures forall x :: p <= x < p + n ==> mem[x] == 0
    {
      var i := 0;
      while i < n
        invariant i <= n
        invariant SameOutside(old(mem), mem, p, p + i)
        invariant forall x :: p <= x < p + i ==> mem[x] == 0
      {
        mem := mem[p + i := 0];
        i := i + 1;
      }
    }

    /** ALIGN on the first byte behind the header at `a`, then, if asked, memset of the payload. */
    method Deliver(a: nat, size: nat, req: nat, clear: bool) returns (p: nat)
      requires a + HEADER + size <= |mem| && req + PAD <= size
      modifies `mem
      ensures p == PtrOf(a)
      ensures SameOutside(old(mem), mem, a + HEADER, a + HEADER + size)
      ensures Stamped(mem, a)
      ensures Delivered(old(mem), mem, p, req, clear)
    {
      p := a + HEADER;
      p := p + ALIGN_INFO;
      var diff := p % ALIGNMENT;
      if diff != 0 {
        diff := ALIGNMENT - diff;
        p := p + diff;
      }
      mem := mem[p - ALIGN_INFO := diff + ALIGN_INFO];
      if clear {
        Memset(p, req);
      }
    }

    // ---- The four placements: linking the new header -------------------------------------------

    /** CASE 2: the run has no block yet. */
    method LinkFirst(maj: nat, size: nat, req: nat, ghost r: Run) returns (a: nat)
      requires maj == r.addr && maj in majors && r.blocks == []
      modifies `majors, `minors
      ensures a == Lo(r, 0)
      ensures minors == Linked(old(minors), r, 0, size, req)
      ensures majors == Charged(old(majors), maj, 0, size)
    {
      a := maj + HEADER;
      majors := majors[maj := majors[maj].(first := a)];
      minors := Wipe(minors, a, a + HEADER + size)[a := Minor(0, 0, maj, MAGIC, size, req)];
      majors := majors[maj := majors[maj].(usage := majors[maj].usage + size + HEADER)];
    }

    /** CASE 3: in front of the first block. */
    method LinkFront(maj: nat, size: nat, req: nat, ghost r: Run) returns (a: nat)
      requires maj == r.addr && maj in majors && r.blocks != [] && majors[maj].first == r.blocks[0].addr
      requires Room(minors, r, 0, size)
      modifies `majors, `minors
      ensures a == Lo(r, 0)
      ensures minors == Linked(old(minors), r, 0, size, req)
      ensures majors == Charged(old(majors), maj, 0, size)
    {
      a := maj + HEADER;
      var first := majors[maj].first;
      minors := Wipe(minors, a, a + HEADER + size);
      minors := minors[first := minors[first].(prev := a)];
      minors := minors[a := Minor(0, first, maj, MAGIC, size, req)];
      majors := majors[maj := majors[maj].(first := a)];
      majors := majors[maj := majors[maj].(usage := majors[maj].usage + size + HEADER)];
    }

    /** CASE 4.1: behind the last block. */
    method LinkTail(maj: nat, min: nat, size: nat, req: nat, ghost r: Run) returns (a: nat)
      requires maj == r.addr && maj in majors && r.blocks != [] && min == r.blocks[|r.blocks| - 1].addr
      requires Room(minors, r, |r.blocks|, size)
      modifies `majors, `minors
      ensures a == Lo(r, |r.blocks|)
      ensures minors == Linked(old(minors), r, |r.blocks|, size, req)
      ensures majors == Charged(old(majors), maj, |r.blocks|, size)
    {
      a := min + HEADER + minors[min].size;
      minors := Wipe(minors, a, a + HEADER + size);
      minors := minors[min := minors[min].(next := a)];
      minors := minors[a := Minor(min, 0, maj, MAGIC, size, req)];
      majors := majors[maj := majors[maj].(usage := majors[maj].usage + size + HEADER)];
    }

    /** CASE 4.2: between two blocks. */
    method LinkInner(maj: nat, min: nat, size: nat, req: nat, ghost r: Run, ghost g: nat) returns (a: nat)
      requires maj == r.addr && maj in majors && 0 < g < |r.blocks| && min == r.blocks[g - 1].addr
      requires Room(minors, r, g, size)
      modifies `majors, `minors
      ensures a == Lo(r, g)
      ensures minors == Linked(old(minors), r, g, size, req)
      ensures majors == Charged(old(majors), maj, g, size)
    {
      InnerLinked(minors, r, g, size, req);
      hide Linked; hide Wipe; hide Room; hide Lo;
      a := min + HEADER + minors[min].size;
      var next := minors[min].next;
      minors := Wipe(minors, a, a + HEADER + size);
      minors := minors[a := Minor(min, next, maj, MAGIC, size, req)];
      minors := minors[next := minors[next].(prev := a)];
      minors := minors[min := minors[min].(next := a)];
      majors := majors[maj := majors[maj].(usage := majors[maj].usage + size + HEADER)];
    }

    /** The end of every placement: the byte counter, ALIGN and, except in CASE 4.1, the memset. */
    method Settle(a: nat, size: nat, req: nat, clear: bool, ghost s: Snap, ghost k: nat, ghost g: nat)
      returns (p: nat)
      requires Consistent(s) && FitsAt(s.layout, k, g, size) && req + PAD <= size && a == Lo(s.layout[k], g)
      requires Room(s.minors, s.layout[k], g, size) && s.layout[k].addr in s.majors
      requires a + HEADER + size <= ADDRESS_SPACE && clear == !Behind(s.layout[k], g)
      requires Now() == s.(majors := Charged(s.majors, s.layout[k].addr, g, size),
                           minors := Linked(s.minors, s.layout[k], g, size, req))
      modifies `inuse, `mem, `layout
      ensures Placed(s, Now(), k, g, size, req, p)
    {
      inuse := inuse + size;
      p := Deliver(a, size, req, clear);
      layout := Inserted(layout, k, g, size, req);
      PlacedConsistent(s, Now(), k, g, size, req);
    }
  
    // ---- Obtaining pages -------------------------------------------------------------------------

    /** allocate_new_page: `page` is what liballoc_alloc answers, 0 for failure. */
    method AllocateNewPage(size: nat, page: nat) returns (maj: nat)
      requires 0 !in majors
      modifies `majors, `minors, `held, `requests, `warnings
      ensures maj == page && 0 !in majors
      ensures requests == old(requests) + [PagesFor(size)]
      ensures page == 0 ==> warnings == old(warnings) + 1
      ensures page == 0 ==> majors == old(majors) && minors == old(minors) && held == old(held)
      ensures page != 0 ==> warnings == old(warnings)
      ensures page != 0 ==> majors == old(majors)[page := Major(0, 0, PagesFor(size), PagesFor(size) * PAGE_SIZE, HEADER, 0)]
      ensures page != 0 ==> minors == Wipe(old(minors), page, page + PagesFor(size) * PAGE_SIZE)
      ensures page != 0 ==> held == old(held) + PagesFor(size) * PAGE_SIZE
    {
      var st := size + HEADER;
      st := st + HEADER;
      if st % PAGE_SIZE == 0 {
        st := st / PAGE_SIZE;
      } else {
        st := st / PAGE_SIZE + 1;
      }
      if st < PAGE_COUNT {
        st := PAGE_COUNT;
      }
      requests := requests + [st];
      maj := page;
      if maj == 0 {
        warnings := warnings + 1;
        return;
      }
      minors := Wipe(minors, maj, maj + st * PAGE_SIZE);
      majors := majors[maj := Major(0, 0, st, st * PAGE_SIZE, HEADER, 0)];
      held := held + majors[maj].size;
    }

    /** Chains a new run behind `maj`, or makes it the root if there is none. */
    method ChainRun(maj: nat, size: nat, page: nat, ghost L: Layout) returns (got: nat)
      requires 0 !in majors && maj == RunAddr(L, |L| - 1)
      requires if L == [] then memRoot == 0 else maj in majors && majors[maj].next == 0 && maj != page && maj != 0
      modifies `majors, `minors, `memRoot, `held, `requests, `warnings
      ensures got == page
      ensures requests == old(requests) + [PagesFor(size)]
      ensures page == 0 ==> majors == old(majors) && minors == old(minors) && held == old(held)
      ensures page == 0 ==> memRoot == old(memRoot) && warnings == old(warnings) + 1
      ensures page != 0 ==> majors == Appended(old(majors), L, Fresh(page, size))
      ensures page != 0 ==> minors == Wipe(old(minors), page, page + PagesFor(size) * PAGE_SIZE)
      ensures page != 0 ==> held == old(held) + PagesFor(size) * PAGE_SIZE
      ensures page != 0 ==> memRoot == (if L == [] then page else old(memRoot)) && warnings == old(warnings)
    {
      got := AllocateNewPage(size, page);
      if maj == 0 {
        memRoot := got;
        return;
      }
      majors := majors[maj := majors[maj].(next := got)];
      if got == 0 {
        assert majors == old(majors);
        return;
      }
      majors := majors[got := majors[got].(prev := maj)];
    }

    method Grow(maj: nat, size: nat, page: nat) returns (got: nat)
      requires Inv() && HookOk(layout, page, size) && maj == RunAddr(layout, |layout| - 1)
      modifies `majors, `minors, `memRoot, `held, `requests, `warnings, `layout
      ensures Inv() && got == page
      ensures requests == old(requests) + [PagesFor(size)]
      ensures page == 0 ==> Now() == old(Now()) && warnings == old(warnings) + 1
      ensures page != 0 ==> layout == old(layout) + [Fresh(page, size)] && warnings == old(warnings)
    {
      ghost var s := Now();
      LastRun(s, page, size);
      got := ChainRun(maj, size, page, layout);
      if got != 0 {
        layout := layout + [Fresh(page, size)];
        GrownConsistent(s, Now(), page, size);
      }
    }

    // ---- malloc -------------------------------------------------------------------------------------

    /** CASE 4: walks the blocks of a run looking for room behind one of them. */
    method ScanMinors(maj: nat, size: nat, ghost r: Run) returns (min: nat, found: bool, ghost g: nat)
      requires maj == r.addr && RunListed(majors, minors, r) && r.blocks != []
      requires !Fits(r, 0, size)
      ensures found <==> FitGap(r, 0, size) <= |r.blocks|
      ensures found ==> g == FitGap(r, 0, size) && 0 < g && min == r.blocks[g - 1].addr
    {
      LastIffNoNext(majors, minors, r, 0);
      min := majors[maj].first;
      found := false;
      g := 1;
      while min != 0
        invariant 1 <= g <= |r.blocks| + 1
        invariant min == BlockAddr(r, g - 1) && (min == 0 <==> g == |r.blocks| + 1)
        invariant FitGap(r, 0, size) == FitGap(r, g, size)
        decreases |r.blocks| + 1 - g
      {
        LastIffNoNext(majors, minors, r, g - 1);
        if minors[min].next == 0 {
          var diff := maj + majors[maj].size;
          diff := diff - min;
          diff := diff - HEADER;
          diff := diff - minors[min].size;
          if diff >= size + HEADER {
            found := true;
            return;
          }
        }
        if minors[min].next != 0 {
          var diff := minors[min].next;
          diff := diff - min;
          diff := diff - HEADER;
          diff := diff - minors[min].size;
          if diff >= size + HEADER {
            found := true;
            return;
          }
        }
        min := minors[min].next;
        g := g + 1;
      }
    }

    method PlaceFirst(maj: nat, size: nat, req: nat, ghost k: nat) returns (p: nat)
      requires Inv() && k < |layout| && layout[k].addr == maj && layout[k].blocks == []
      requires FitsAt(layout, k, 0, size) && req + PAD <= size
      modifies `majors, `minors, `inuse, `mem, `layout
      ensures Placed(old(Now()), Now(), k, 0, size, req, p)
    {
      ghost var s := Now();
      assert MajorOk(majors, layout, k);
      RoomInGap(minors, layout, k, 0, size);
      var a := LinkFirst(maj, size, req, layout[k]);
      p := Settle(a, size, req, true, s, k, 0);
    }

    method PlaceFront(maj: nat, size: nat, req: nat, ghost k: nat) returns (p: nat)
      requires Inv() && k < |layout| && layout[k].addr == maj && layout[k].blocks != []
      requires FitsAt(layout, k, 0, size) && req + PAD <= size
      modifies `majors, `minors, `inuse, `mem, `layout
      ensures Placed(old(Now()), Now(), k, 0, size, req, p)
    {
      ghost var s := Now();
      assert MajorOk(majors, layout, k);
      RoomInGap(minors, layout, k, 0, size);
      var a := LinkFront(maj, size, req, layout[k]);
      p := Settle(a, size, req, true, s, k, 0);
    }

    method PlaceBehind(maj: nat, min: nat, size: nat, req: nat, ghost k: nat, ghost g: nat) returns (p: nat)
      requires Inv() && k < |layout| && layout[k].addr == maj && 0 < g <= |layout[k].blocks|
      requires min == layout[k].blocks[g - 1].addr
      requires FitsAt(layout, k, g, size) && req + PAD <= size
      modifies `majors, `minors, `inuse, `mem, `layout
      ensures Placed(old(Now()), Now(), k, g, size, req, p)
    {
      ghost var s := Now();
      BehindReady(s, k, g, size);
      hide Consistent; hide FitsAt; hide Placed; hide Linked; hide Charged;
      if minors[min].next == 0 {
        var a := LinkTail(maj, min, size, req, layout[k]);
        p := Settle(a, size, req, false, s, k, g);
      } else {
        var a := LinkInner(maj, min, size, req, layout[k], g);
        p := Settle(a, size, req, true, s, k, g);
      }
    }

    /** CASES 2 to 4 on one run: place the block in its first fitting gap, if it has one. */
    method TryRun(maj: nat, size: nat, req: nat, ghost k: nat) returns (p: nat, ghost g: nat)
      requires Inv() && k < |layout| && layout[k].addr == maj && req + PAD <= size
      requires layout[k].blocks == [] ==> Fits(layout[k], 0, size)
      modifies `majors, `minors, `inuse, `mem, `layout
      ensures g == FitGap(old(layout)[k], 0, size)
      ensures p != 0 ==> g <= |old(layout)[k].blocks| && Placed(old(Now()), Now(), k, g, size, req, p)
      ensures p == 0 ==> g > |old(layout)[k].blocks| && Now() == old(Now())
    {
      FirstIs(Now(), k);
      RunView(Now(), k);
      g := FitGap(layout[k], 0, size);
      FitGapFirst(layout[k], 0, size);
      hide Consistent; hide Placed; hide RunListed; hide FitGap;
      if majors[maj].first == 0 {
        p := PlaceFirst(maj, size, req, k);
        return;
      }
      var diff := majors[maj].first;
      diff := diff - maj;
      diff := diff - HEADER;
      if diff >= size + HEADER {
        p := PlaceFront(maj, size, req, k);
        return;
      }
      var min, found, _ := ScanMinors(maj, size, layout[k]);
      if found {
        p := PlaceBehind(maj, min, size, req, k, g);
        return;
      }
      p := 0;
    }

    /** The run malloc looks at first, and the free bytes of the hinted run. */
    method ChooseStart(size: nat, ghost q: Quest) returns (maj: nat, startedBet: bool, bestSize: int, ghost k: nat)
      requires Inv() && WfOpen(q.L) && size == q.Size() && bestBet == q.bet
      requires (layout == q.L && layout != []) || (q.L == [] && q.bet == 0 && q.page != 0 && layout == q.Bigger())
      ensures bestSize == FreeOf(layout, bestBet) && (startedBet <==> bestSize > size + HEADER)
      ensures maj == if startedBet then bestBet else memRoot
      ensures k < |layout| && layout[k].addr == maj
      ensures Searching(q.(betFirst := startedBet), layout, startedBet, k, bestBet, bestSize)
    {
      hide Searching; hide FreeOf; hide HintSoFar;
      maj, startedBet, bestSize, k := memRoot, false, 0, 0;
      if bestBet != 0 {
        ghost var b :| 0 <= b < |layout| && layout[b].addr == bestBet;
        assert MajorOk(majors, layout, b);
        bestSize := majors[bestBet].size - majors[bestBet].usage;
        if bestSize > size + HEADER {
          maj := bestBet;
          startedBet := true;
          k := b;
        }
        StartWithHint(q.(betFirst := startedBet), b);
      } else {
        StartAtRoot(q.(betFirst := false), layout);
      }
    }

    /** The start of the loop body: the hint moves to a roomier run. */
    method NoteBest(maj: nat, best: int, ghost q: Quest, ghost k: nat, ghost started: bool)
      returns (diff: int, bestSize: int)
      requires Inv() && Wf(q.L) && (q.bet == 0 || Listed(q.L, q.bet))
      requires k < |layout| && layout[k].addr == maj && Searching(q, layout, started, k, bestBet, best)
      modifies `bestBet
      ensures Inv() && diff == FreeBytes(layout[k])
      ensures if layout == q.L then Seeing(q, started, k, bestBet, bestSize) else Serving(q, bestBet) && layout == q.Bigger() && k == |q.L|
    {
      ghost var s := Now();
      assert MajorOk(majors, layout, k);
      diff := majors[maj].size - majors[maj].usage;
      bestSize := best;
      NoteRun(q, layout, started, k, bestBet, bestSize);
      if bestSize < diff {
        bestBet := maj;
        bestSize := diff;
        assert Now() == s.(bestBet := maj);
        HintMoved(s, maj);
      }
    }

    /** CASES 2 to 4, and the end of the call if they succeed. A fresh run always does. */
    method Attempt(maj: nat, req: nat, ghost q: Quest, ghost k: nat, ghost started: bool, ghost best: int)
      returns (p: nat)
      requires Inv() && Wf(q.L) && q.req == req && k < |layout| && layout[k].addr == maj
      requires if layout == q.L then Seeing(q, started, k, bestBet, best)
               else Serving(q, bestBet) && layout == q.Bigger() && k == |q.L|
      modifies `majors, `minors, `inuse, `mem, `layout
      ensures p != 0 ==> Inv() && Outcome(q, old(mem), Now(), old(layout) != q.L, p)
      ensures p == 0 ==> Now() == old(Now()) && layout == q.L && FitGap(q.L[k], 0, q.Size()) > |q.L[k].blocks|
    {
      hide Consistent; hide Placed; hide HintSoFar; hide Outcome;
      ghost var s := Now();
      FreshFits(q.page, q.Size());
      ghost var g;
      p, g := TryRun(maj, req + PAD, req, k);
      if p != 0 {
        if s.layout == q.L {
          FoundOutcome(q, s, Now(), started, k, best, p);
        } else {
          FreshOutcome(q, s, Now(), p);
        }
        PlacedInv(s, Now(), k, g, req + PAD, req, p);
      }
    }

    /** No room in run k: on to the next run, back to the root after a hinted start, or a new run. */
    method Advance(maj: nat, startedBet: bool, size: nat, page: nat, ghost q: Quest, ghost k: nat, ghost best: int)
      returns (to: nat, started: bool, grew: bool, ghost k': nat)
      requires Inv() && Wf(q.L) && q.Size() == size && q.page == page && HookOk(q.L, page, size)
      requires layout == q.L && k < |layout| && layout[k].addr == maj
      requires Seeing(q, startedBet, k, bestBet, best) && FitGap(q.L[k], 0, size) > |q.L[k].blocks|
      modifies `majors, `minors, `memRoot, `held, `requests, `warnings, `layout
      ensures Inv()
      ensures to == 0 ==> Outcome(q, mem, Now(), true, 0) && warnings == old(warnings) + 1
      ensures to != 0 ==> warnings == old(warnings) && k' < |layout| && layout[k'].addr == to
      ensures to != 0 && !grew ==> Searching(q, layout, started, k', bestBet, best)
      ensures to != 0 && grew ==> Arrived(q, bestBet, best) && k' == |q.L| == k + 1 && !started
      ensures to == 0 || grew ==> requests == old(requests) + [PagesFor(size)]
      ensures to != 0 && grew ==> layout == q.Bigger() && layout != q.L
      ensures to != 0 && !grew ==> Now() == old(Now()) && requests == old(requests) &&
                                   (started == startedBet ==> k < k') && (started ==> startedBet)
    {
      ghost var s := Now();
      assert MajorOk(majors, layout, k);
      NextRun(q, startedBet, k, bestBet, best);
      to, started, grew, k' := majors[maj].next, startedBet, false, k + 1;
      if k' < |layout| { assert WfRun(layout[k']); }
      if to != 0 {
        return;
      }
      if startedBet {
        assert WfRun(layout[0]);
        to, started, k' := memRoot, false, 0;
        return;
      }
      to := Grow(maj, size, page);
      if to == 0 {
        NullOutcome(q, s, k, best);
        return;
      }
      grew := true;
      AppendedWf(q.L, page, size);
      NewRun(q, k, bestBet, best);
      assert |layout| == |q.L| + 1;
    }

    /** One round of the outer loop of malloc, at run k. */
    method Round(maj: nat, startedBet: bool, best: int, req: nat, page: nat, ghost q: Quest, ghost k: nat)
      returns (p: nat, to: nat, started: bool, bestSize: int, ghost asked: bool, ghost k': nat)
      requires Inv() && q.req == req && q.page == page
      requires layout == q.L || layout == q.Bigger()
      requires Wf(q.L) && HookOk(q.L, page, q.Size()) && (q.bet == 0 || Listed(q.L, q.bet))
      requires k < |layout| && layout[k].addr == maj && Searching(q, layout, startedBet, k, bestBet, best)
      modifies `majors, `minors, `memRoot, `bestBet, `held, `inuse, `mem, `requests, `warnings, `layout
      ensures Inv()
      ensures to == 0 ==> Outcome(q, old(mem), Now(), asked, p) && warnings == old(warnings) + if p == 0 then 1 else 0
      ensures to == 0 ==> requests == old(requests) + if asked && old(layout) == q.L then [PagesFor(q.Size())] else []
      ensures to == 0 && !asked ==> old(layout) == q.L
      ensures to != 0 ==> mem == old(mem) && warnings == old(warnings) && k' < |layout| && layout[k'].addr == to &&
                          Searching(q, layout, started, k', bestBet, bestSize)
      ensures to != 0 ==> if layout == old(layout) then requests == old(requests) && (started == startedBet ==> k < k')
                          else layout == q.Bigger() && old(layout) == q.L && requests == old(requests) + [PagesFor(q.Size())]
      ensures to != 0 && started ==> startedBet
    {
      hide Consistent; hide Searching; hide Seeing; hide Serving; hide Arrived; hide Outcome; hide WfOpen; hide Wf;
      hide HookOk; hide FitGap; hide PagesFor; hide FreeBytes;
      var size := req + PAD;
      var diff, grew;
      to, started, k' := maj, startedBet, k;
      diff, bestSize := NoteBest(maj, best, q, k, startedBet);
      if diff < size + HEADER {
        SkipSafe(q, Now(), k);
        to, started, grew, k' := Advance(maj, startedBet, size, page, q, k, bestSize);
        if to == 0 || !grew {
          p, asked := 0, true;
          return;
        }
        NewRunHint(q, bestBet, bestSize);
      }
      asked := layout != q.L;
      p := Attempt(to, req, q, k', started, bestSize);
      if p != 0 {
        to := 0;
        return;
      }
      asked := true;
      to, started, grew, k' := Advance(to, started, size, page, q, k', bestSize);
      if to != 0 && grew { NewRunHint(q, bestBet, bestSize); }
    }

    /** The outer loop of malloc, over the runs. */
    method SearchRuns(start: nat, bet: bool, best: int, req: nat, page: nat, ghost q: Quest, ghost k0: nat)
      returns (p: nat, ghost asked: bool)
      requires Inv() && q.req == req && q.page == page
      requires layout == q.L || layout == q.Bigger()
      requires Wf(q.L) && HookOk(q.L, page, q.Size()) && (q.bet == 0 || Listed(q.L, q.bet))
      requires k0 < |layout| && layout[k0].addr == start && Searching(q, layout, bet, k0, bestBet, best)
      modifies `majors, `minors, `memRoot, `bestBet, `held, `inuse, `mem, `requests, `warnings, `layout
      ensures Inv()
      ensures Outcome(q, old(mem), Now(), asked, p) && warnings == old(warnings) + if p == 0 then 1 else 0
      ensures requests == old(requests) + if asked && old(layout) == q.L then [PagesFor(q.Size())] else []
    {
      hide Searching; hide Outcome;
      assert |q.Bigger()| == |q.L| + 1;
      var maj, startedBet, bestSize := start, bet, best;
      ghost var k: nat := k0;
      assert WfRun(layout[k]);
      p, asked := 0, false;
      while maj != 0
        invariant Inv()
        invariant maj == 0 ==> Outcome(q, old(mem), Now(), asked, p) && warnings == old(warnings) + if p == 0 then 1 else 0
        invariant maj == 0 ==> requests == old(requests) + if asked && old(layout) == q.L then [PagesFor(q.Size())] else []
        invariant maj != 0 ==> mem == old(mem) && warnings == old(warnings) && k < |layout| && layout[k].addr == maj &&
                               Searching(q, layout, startedBet, k, bestBet, bestSize)
        invariant maj != 0 ==> (layout == q.L || layout == q.Bigger()) &&
                               requests == old(requests) + if layout != old(layout) then [PagesFor(q.Size())] else []
        invariant maj != 0 && old(layout) == q.Bigger() ==> layout == old(layout)
        decreases maj != 0, startedBet, |q.L| + 1 - |layout|, |layout| - k
      {
        p, maj, startedBet, bestSize, asked, k := Round(maj, startedBet, bestSize, req, page, q, k);
      }
    }
  
    /** malloc. `page` is the answer of the page hook if it is asked; the request must be small
        enough for the 32-bit size computations not to wrap. */
    method Malloc(req: nat, page: nat) returns (p: nat)
      requires Valid() && HookOk(layout, page, req + PAD)
      requires req + PAD + 2 * HEADER < ADDRESS_SPACE
      modifies `majors, `minors, `memRoot, `bestBet, `held, `inuse, `mem, `requests, `warnings, `layout
      ensures Valid()
      ensures MallocStep(old(layout), old(bestBet), req, page, layout, bestBet,
                         Asks(old(layout), old(bestBet), req) != [])
      ensures requests == old(requests) + Asks(old(layout), old(bestBet), req)
      ensures p == PtrFor(HeaderFor(old(layout), old(bestBet), req, page))
      ensures p == 0 ==> mem == old(mem)
      ensures p != 0 ==> SameOutside(old(mem), mem, HeaderFor(old(layout), old(bestBet), req, page) + HEADER,
                                     HeaderFor(old(layout), old(bestBet), req, page) + HEADER + req + PAD)
      ensures p != 0 ==> Delivered(old(mem), mem, p, req, !TakesTail(old(layout), old(bestBet), req))
      ensures p != 0 ==> NewPayload(old(mem), mem, layout, p, req)
      ensures warnings == old(warnings) + if p == 0 then 1 else 0
    {
      var size := req + PAD;
      hide Searching; hide Outcome; hide MallocStep; hide HeaderFor; hide TakesTail; hide SameOutside; hide Delivered; hide Asks;
      ghost var q := Quest(layout, bestBet, req, page, false);
      assert |q.Bigger()| == |q.L| + 1;
      if memRoot == 0 {
        EmptyHeap(Now());
        EmptyAsks(bestBet, req);
        var got := Grow(0, size, page);
        if got == 0 {
          EmptyOutcome(q, Now());
          OutcomeIs(q, mem, Now(), true, 0);
          return 0;
        }
      }
      var maj, startedBet, bestSize;
      ghost var k, asked;
      maj, startedBet, bestSize, k := ChooseStart(size, q);
      q := q.(betFirst := startedBet);
      p, asked := SearchRuns(maj, startedBet, bestSize, req, page, q, k);
      OutcomeIs(q, old(mem), Now(), asked, p);
      if p != 0 { NewPayloadIs(q, old(mem), Now(), asked, p); }
    }
  
    // ---- free -------------------------------------------------------------------------------------

    /** Takes a block out of the list of its run and out of the counters. */
    method Unlink(min: nat, ghost r: Run, ghost j: nat) returns (maj: nat)
      requires j < |r.blocks| && r.blocks[j].addr == min && MinorOk(minors, r, j)
      requires j > 0 ==> MinorListed(minors, r, j - 1) && r.blocks[j - 1].addr != min
      requires j + 1 < |r.blocks| ==> MinorListed(minors, r, j + 1) && r.blocks[j + 1].addr != min
      requires 0 < j < |r.blocks| - 1 ==> r.blocks[j - 1].addr != r.blocks[j + 1].addr
      requires r.addr in majors && majors[r.addr].usage == Usage(r) && majors[r.addr].first == r.blocks[0].addr
      requires Usage(Delete(r, j)) == Usage(r) - r.blocks[j].size - HEADER
      modifies `majors, `minors, `inuse
      ensures maj == r.addr
      ensures minors == Unlinked(old(minors), r, j)
      ensures majors == Discharged(old(majors), r, j)
      ensures inuse == old(inuse) - r.blocks[j].size
    {
      maj := minors[min].block;
      inuse := inuse - minors[min].size;
      majors := majors[maj := majors[maj].(usage := majors[maj].usage - (minors[min].size + HEADER))];
      minors := minors[min := minors[min].(magic := DEAD)];
      var next, prev := minors[min].next, minors[min].prev;
      if next != 0 {
        minors := minors[next := minors[next].(prev := prev)];
      }
      if prev != 0 {
        minors := minors[prev := minors[prev].(next := next)];
      }
      if prev == 0 {
        majors := majors[maj := majors[maj].(first := next)];
      }
    }
  
    /** Joins the neighbours of the run at `maj` in the list of majors. */
    method SpliceOut(maj: nat)
      requires maj in majors && 0 !in majors
      requires majors[maj].prev != 0 ==> majors[maj].prev in majors && majors[maj].prev != maj
      requires majors[maj].next != 0 ==> majors[maj].next in majors && majors[maj].next != maj
      modifies `majors
      ensures maj in majors && majors[maj] == old(majors)[maj]
      ensures majors - {maj} == Spliced(old(majors), old(majors)[maj].prev, old(majors)[maj].next, maj)
    {
      var before, after := majors[maj].prev, majors[maj].next;
      if before != 0 {
        majors := majors[before := majors[before].(next := after)];
      }
      if after != 0 {
        majors := majors[after := majors[after].(prev := before)];
      }
    }

    /** The run at `maj` has no block left: out of the list and back to the page hook. */
    method ReleaseRun(maj: nat, ghost prev: nat, ghost next: nat)
      requires maj in majors && majors[maj].prev == prev && majors[maj].next == next && 0 !in majors
      requires prev != 0 ==> prev in majors && prev != maj
      requires next != 0 ==> next in majors && next != maj
      modifies `majors, `minors, `memRoot, `bestBet, `held, `releases
      ensures majors == Spliced(old(majors), prev, next, maj)
      ensures minors == Wipe(old(minors), maj, maj + old(majors)[maj].size)
      ensures memRoot == if old(memRoot) == maj then next else old(memRoot)
      ensures bestBet == if old(bestBet) == maj then 0 else old(bestBet)
      ensures held == old(held) - old(majors)[maj].size
      ensures releases == old(releases) + [(maj, old(majors)[maj].pages)]
    {
      if memRoot == maj {
        memRoot := majors[maj].next;
      }
      if bestBet == maj {
        bestBet := 0;
      }
      SpliceOut(maj);
      held := held - majors[maj].size;
      releases := releases + [(maj, majors[maj].pages)];
      minors := Wipe(minors, maj, maj + majors[maj].size);
      majors := majors - {maj};
    }

    /** The run keeps other blocks: it becomes the hint if it is now roomier than the hinted run. */
    method RaiseHint(maj: nat, ghost k: nat)
      requires Inv() && k < |layout| && layout[k].addr == maj
      modifies `bestBet
      ensures Inv()
      ensures bestBet == if old(bestBet) != 0 && ToInt32(FreeOf(layout, maj)) > ToInt32(FreeOf(layout, old(bestBet)))
                         then maj else old(bestBet)
    {
      if bestBet != 0 {
        ghost var s := Now();
        ghost var b :| 0 <= b < |layout| && layout[b].addr == bestBet;
        hide Consistent; hide FreeOf;
        HeaderFree(s, b);
        HeaderFree(s, k);
        var bestSize := ToInt32(majors[bestBet].size - majors[bestBet].usage);
        var majSize := ToInt32(majors[maj].size - majors[maj].usage);
        if majSize > bestSize {
          bestBet := maj;
          assert Now() == s.(bestBet := maj);
          HintMoved(s, maj);
        }
      }
    }

    /** The part of free behind the checks, for the block with header `min`. */
    method Release(min: nat, ghost k: nat, ghost j: nat)
      requires Valid() && At(layout, k, j) && layout[k].blocks[j].addr == min
      modifies `majors, `minors, `memRoot, `bestBet, `held, `inuse, `releases, `layout
      ensures Valid() && layout == Removed(old(layout), k, j)
      ensures old(releases) <= releases
      ensures FreeStep(old(layout), old(bestBet), min, layout, bestBet, releases[|old(releases)|..])
    {
      hide Consistent; hide Wf; hide WfOpen; hide MajorsOk; hide MinorsOk;
      ghost var s := Now();
      ghost var r := layout[k];
      FreeAtHere(s, k, j);
      UnlinkReady(s, k, j);
      var maj := Unlink(min, r, j);
      if majors[maj].first == 0 {
        FirstZero(s, k, j);
        SpliceReady(s, k);
        ReleaseRun(maj, RunAddr(s.layout, k - 1), RunAddr(s.layout, k + 1));
        layout := Removed(layout, k, j);
        DroppedRunConsistent(s, Now(), k);
      } else {
        layout := Removed(layout, k, j);
        KeptRunConsistent(s, Now(), k, j);
        RaiseHint(maj, k);
      }
    }
  
    /** The reaction of free and realloc to a header without the magic number. */
    method BadHeader(magic: nat)
      modifies `errors, `overruns
      ensures errors == old(errors) + 1
      ensures overruns == old(overruns) + if LowBytesMagic(magic) then 1 else 0
    {
      errors := errors + 1;
      if magic % 0x100_0000 == MAGIC % 0x100_0000 || magic % 0x1_0000 == MAGIC % 0x1_0000 || magic % 0x100 == MAGIC % 0x100 {
        overruns := overruns + 1;
      }
    }

    /** A pointer free and realloc can be given: null, or one whose header bytes are still intact. */
    predicate Known(ptr: nat)
      reads this
    {
      ptr != 0 ==> ALIGN_INFO <= ptr < |mem| + ALIGN_INFO && HeaderOf(mem, ptr) in minors
    }

    method Free(ptr: nat)
      requires Valid() && Known(ptr)
      modifies `majors, `minors, `memRoot, `bestBet, `held, `inuse, `warnings, `errors, `overruns, `releases, `layout
      ensures Valid() && old(releases) <= releases
      ensures ptr == 0 ==> Now() == old(Now()) && releases == old(releases) && warnings == old(warnings) + 1
      ensures ptr != 0 ==> warnings == old(warnings)
      ensures ptr != 0 && old(minors)[HeaderOf(mem, ptr)].magic != MAGIC ==>
                Now() == old(Now()) && releases == old(releases) && errors == old(errors) + 1 &&
                overruns == old(overruns) + if LowBytesMagic(old(minors)[HeaderOf(mem, ptr)].magic) then 1 else 0
      ensures ptr == 0 || old(minors)[HeaderOf(mem, ptr)].magic == MAGIC ==>
                errors == old(errors) && overruns == old(overruns)
      ensures ptr != 0 && old(minors)[HeaderOf(mem, ptr)].magic == MAGIC ==>
                FreeStep(old(layout), old(bestBet), HeaderOf(mem, ptr), layout, bestBet, releases[|old(releases)|..])
    {
      hide Consistent; hide Wf; hide FreeStep;
      if ptr == 0 {
        warnings := warnings + 1;
        return;
      }
      var min := HeaderOf(mem, ptr);
      if minors[min].magic != MAGIC {
        BadHeader(minors[min].magic);
        return;
      }
      LiveHeader(Now(), min);
      ghost var k, j :| At(layout, k, j) && layout[k].blocks[j].addr == min;
      Release(min, k, j);
    }

    // ---- realloc ------------------------------------------------------------------------------------

    /** liballoc_memcpy: whole words first, then the remaining bytes. */
    method Memcpy(d: nat, s: nat, n: nat)
      requires d + n <= |mem| && s + n <= |mem| && (d <= s || s + n <= d)
      modifies `mem
      ensures SameOutside(old(mem), mem, d, d + n)
      ensures forall x :: d <= x < d + n ==> mem[x] == old(mem)[x - d + s]
    {
      var i := 0;
      while n - i >= 4
        invariant i <= n
        invariant SameOutside(old(mem), mem, d, d + i)
        invariant forall x :: d <= x < d + i ==> mem[x] == old(mem)[x - d + s]
      {
        var w0, w1, w2, w3 := mem[s + i], mem[s + i + 1], mem[s + i + 2], mem[s + i + 3];
        mem := mem[d + i := w0][d + i + 1 := w1][d + i + 2 := w2][d + i + 3 := w3];
        i := i + 4;
      }
      while i < n
        invariant i <= n
        invariant SameOutside(old(mem), mem, d, d + i)
        invariant forall x :: d <= x < d + i ==> mem[x] == old(mem)[x - d + s]
      {
        mem := mem[d + i := mem[s + i]];
        i := i + 1;
      }
    }
  
    /** The block is large enough: only the recorded request changes. */
    method Shrink(min: nat, size: nat, ghost k: nat, ghost j: nat)
      requires Valid() && At(layout, k, j) && layout[k].blocks[j].addr == min && size <= layout[k].blocks[j].req
      modifies `minors, `layout
      ensures Valid() && layout == ShrunkAt(old(layout), min, size)
      ensures min in old(minors) && minors == old(minors)[min := old(minors)[min].(req := size)]
    {
      ghost var s := Now();
      LiveIn(s, k, j);
      ShrunkAtIs(layout, k, j, size);
      minors := minors[min := minors[min].(req := size)];
      layout := Shrunk(layout, k, j, size);
      ShrunkConsistent(s, Now(), k, j, size);
    }

    /** Copies the first n bytes of the old block into the new one. */
    method CopyInto(q: nat, p: nat, n: nat, ghost k: nat, ghost j: nat)
      requires Valid() && At(layout, k, j) && q == PtrOf(layout[k].blocks[j].addr) && n <= layout[k].blocks[j].req
      requires p + n <= |mem| && q + n <= |mem| && (p + n <= q || q + n <= p)
      modifies `mem
      ensures Valid()
      ensures SameOutside(old(mem), mem, q, q + n)
      ensures forall x :: q <= x < q + n ==> mem[x] == old(mem)[x - q + p]
      ensures forall k', j' :: At(layout, k', j') && (k' != k || j' != j) ==> SameBlock(old(mem), mem, layout[k'].blocks[j'])
    {
      ghost var s := Now();
      LiveIn(s, k, j);
      PtrInside(layout[k].blocks[j]);
      Memcpy(q, p, n);
      PayloadWritten(s, mem, k, j);
    }
  
    /** A new block with the old bytes copied over; the old block stays for now. */
    method CopyToNew(p: nat, had: nat, size: nat, page: nat, ghost k: nat, ghost j: nat)
      returns (q: nat, ghost k': nat, ghost j': nat)
      requires Valid() && At(layout, k, j) && p == PtrOf(layout[k].blocks[j].addr) && layout[k].blocks[j].req == had < size
      requires HookOk(layout, page, size + PAD) && size + PAD + 2 * HEADER < ADDRESS_SPACE
      requires HeaderFor(layout, bestBet, size, page) != 0
      modifies `majors, `minors, `memRoot, `bestBet, `held, `inuse, `mem, `requests, `warnings, `layout
      ensures Valid() && q == PtrOf(HeaderFor(old(layout), old(bestBet), size, page))
      ensures layout == AfterMalloc(old(layout), old(bestBet), size, page)
      ensures bestBet == MallocHint(old(layout), old(bestBet), size, page)
      ensures requests == old(requests) + Asks(old(layout), old(bestBet), size)
      ensures At(layout, k', j') && layout[k'].blocks[j'] == old(layout)[k].blocks[j]
      ensures q + had <= |mem| == |old(mem)| && p + had <= |mem|
      ensures forall x :: q <= x < q + had ==> mem[x] == old(mem)[x - q + p]
      ensures forall k', j' :: At(old(layout), k', j') ==> SameBlock(old(mem), mem, old(layout)[k'].blocks[j'])
    {
      hide Consistent; hide Wf; hide AfterMalloc; hide HeaderFor; hide MallocHint;
      ghost var L, bet := layout, bestBet;
      LiveIn(Now(), k, j);
      PtrInside(layout[k].blocks[j]);
      q := Malloc(size, page);
      ghost var t := Now();
      ghost var n, m := NewRunIndex(L, bet, size), NewBlockIndex(L, bet, size);
      k', j' := MovedBlocks(L, bet, size, page, k, j, old(mem), t);
      LiveIn(t, n, m);
      PtrInside(t.layout[n].blocks[m]);
      hide SameOutside; hide MallocStep;
      CopyInto(q, p, had, n, m);
      BytesThroughCopy(L, bet, size, page, old(mem), t.mem, mem);
    }

    /** Growth: a new block, the old bytes copied over, the old block freed. */
    method Move(p: nat, min: nat, had: nat, size: nat, page: nat, ghost k: nat, ghost j: nat) returns (q: nat)
      requires Valid() && At(layout, k, j) && layout[k].blocks[j].addr == min && layout[k].blocks[j].req == had < size
      requires p == PtrOf(min) && HookOk(layout, page, size + PAD) && size + PAD + 2 * HEADER < ADDRESS_SPACE
      requires HeaderFor(layout, bestBet, size, page) != 0
      modifies `majors, `minors, `memRoot, `bestBet, `held, `inuse, `mem, `requests, `warnings, `errors, `overruns, `releases, `layout
      ensures Valid()
      ensures q == PtrOf(HeaderFor(old(layout), old(bestBet), size, page))
      ensures Live(AfterMalloc(old(layout), old(bestBet), size, page), min)
      ensures layout == FreeAt(AfterMalloc(old(layout), old(bestBet), size, page), min)
      ensures old(releases) <= releases && FreeStep(AfterMalloc(old(layout), old(bestBet), size, page),
                MallocHint(old(layout), old(bestBet), size, page), min, layout, bestBet, releases[|old(releases)|..])
      ensures requests == old(requests) + Asks(old(layout), old(bestBet), size)
      ensures q + had <= |mem| == |old(mem)| && p + had <= |mem|
      ensures forall x :: q <= x < q + had ==> mem[x] == old(mem)[x - q + p]
      ensures forall k', j' :: At(old(layout), k', j') ==> SameBlock(old(mem), mem, old(layout)[k'].blocks[j'])
    {
      hide Consistent; hide Wf; hide FreeStep; hide AfterMalloc; hide HeaderFor; hide SameBlock;
      ghost var k', j';
      q, k', j' := CopyToNew(p, had, size, page, k, j);
      ghost var t := Now();
      LiveIn(t, k', j');
      PtrInside(layout[k'].blocks[j']);
      UnalignExact(mem, min);
      Free(p);
      FreeStepIs(t.layout, t.bestBet, min, layout, bestBet, releases[|old(releases)|..]);
    }

    /** realloc. If the block has to grow, the malloc inside must succeed: its result is used
        unchecked. A live pointer must be the one handed out. */
    method Realloc(p: nat, size: nat, page: nat) returns (q: nat)
      requires Valid() && Known(p) && HookOk(layout, page, size + PAD) && size + PAD + 2 * HEADER < ADDRESS_SPACE
      requires p != 0 && minors[HeaderOf(mem, p)].magic == MAGIC ==> p == PtrOf(HeaderOf(mem, p))
      requires p != 0 && minors[HeaderOf(mem, p)].magic == MAGIC && minors[HeaderOf(mem, p)].req < size ==>
                 HeaderFor(layout, bestBet, size, page) != 0
      modifies `majors, `minors, `memRoot, `bestBet, `held, `inuse, `mem, `requests, `warnings, `errors, `overruns, `releases, `layout
      ensures Valid()
      ensures requests == old(requests) +
                if size != 0 && (p == 0 || (old(minors)[HeaderOf(old(mem), p)].magic == MAGIC &&
                                            old(minors)[HeaderOf(old(mem), p)].req < size))
                then Asks(old(layout), old(bestBet), size) else []
      // no size: free
      ensures size == 0 ==> q == 0 && mem == old(mem) && (p == 0 ==> Now() == old(Now()))
      ensures size == 0 && p != 0 && old(minors)[HeaderOf(old(mem), p)].magic == MAGIC ==>
                Live(old(layout), HeaderOf(old(mem), p)) && layout == FreeAt(old(layout), HeaderOf(old(mem), p)) &&
                old(releases) <= releases &&
                FreeStep(old(layout), old(bestBet), HeaderOf(old(mem), p), layout, bestBet, releases[|old(releases)|..])
      // no pointer: malloc
      ensures size != 0 && p == 0 ==> layout == AfterMalloc(old(layout), old(bestBet), size, page) &&
                                      bestBet == MallocHint(old(layout), old(bestBet), size, page) &&
                                      q == PtrFor(HeaderFor(old(layout), old(bestBet), size, page)) &&
                                      (q == 0 ==> mem == old(mem)) &&
                                      (q != 0 ==> Delivered(old(mem), mem, q, size, !TakesTail(old(layout), old(bestBet), size)))
      ensures size != 0 && p == 0 ==>
                forall k, j :: At(old(layout), k, j) ==> SameBlock(old(mem), mem, old(layout)[k].blocks[j])
      // not a live block: nothing but the error counters
      ensures p != 0 && old(minors)[HeaderOf(old(mem), p)].magic != MAGIC ==>
                q == 0 && Now() == old(Now()) && errors == old(errors) + 1
      // the block is large enough
      ensures p != 0 && old(minors)[HeaderOf(old(mem), p)].magic == MAGIC && 0 < size <= old(minors)[HeaderOf(old(mem), p)].req ==>
                q == p && mem == old(mem) && bestBet == old(bestBet) &&
                minors == old(minors)[HeaderOf(old(mem), p) := old(minors)[HeaderOf(old(mem), p)].(req := size)] &&
                Live(old(layout), HeaderOf(old(mem), p)) && layout == ShrunkAt(old(layout), HeaderOf(old(mem), p), size)
      // the block moves
      ensures p != 0 && old(minors)[HeaderOf(old(mem), p)].magic == MAGIC && size > old(minors)[HeaderOf(old(mem), p)].req ==>
                q == PtrOf(HeaderFor(old(layout), old(bestBet), size, page)) &&
                Live(AfterMalloc(old(layout), old(bestBet), size, page), HeaderOf(old(mem), p)) &&
                layout == FreeAt(AfterMalloc(old(layout), old(bestBet), size, page), HeaderOf(old(mem), p)) &&
                old(releases) <= releases &&
                FreeStep(AfterMalloc(old(layout), old(bestBet), size, page), MallocHint(old(layout), old(bestBet), size, page),
                         HeaderOf(old(mem), p), layout, bestBet, releases[|old(releases)|..]) &&
                SameBytes(old(mem), p, mem, q, old(minors)[HeaderOf(old(mem), p)].req) &&
                forall k, j :: At(old(layout), k, j) ==> SameBlock(old(mem), mem, old(layout)[k].blocks[j])
    {
      hide Consistent; hide Wf; hide AfterMalloc; hide HeaderFor; hide SameBlock; hide FreeStep; hide MallocHint; hide SameOutside; hide Delivered;
      if size == 0 {
        ghost var s := Now();
        Free(p);
        if p != 0 && s.minors[HeaderOf(mem, p)].magic == MAGIC {
          FreeStepIs(s.layout, s.bestBet, HeaderOf(mem, p), layout, bestBet, releases[|old(releases)|..]);
        }
        return 0;
      }
      if p == 0 {
        q := Malloc(size, page);
        MallocBytes(old(layout), old(bestBet), size, page, old(mem), Now(), q);
        return;
      }
      var min := HeaderOf(mem, p);
      if minors[min].magic != MAGIC {
        BadHeader(minors[min].magic);
        return 0;
      }
      LiveHeader(Now(), min);
      ghost var k, j :| At(layout, k, j) && layout[k].blocks[j].addr == min;
      LiveIn(Now(), k, j);
      var had := minors[min].req;
      if had >= size {
        Shrink(min, size, k, j);
        return p;
      }
      q := Move(p, min, had, size, page, k, j);
    }
  }
}
