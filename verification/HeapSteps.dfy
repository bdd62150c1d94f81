/** What malloc, free and realloc do to a whole heap layout, and the laws of those steps: each
    keeps the layout well formed and the totals exact, the search misses no gap, free undoes
    malloc, and freeing everything empties the heap. */
module HeapSteps {
  import opened HeapLayout

  // ---- Blocks of one layout never overlap --------------------------------------------------

  predicate BlocksApart(a: Block, b: Block) {
    End(a) <= b.addr || End(b) <= a.addr
  }

  lemma LiveBlocksApart(L: Layout, k: nat, j: nat, k': nat, j': nat)
    requires WfOpen(L) && At(L, k, j) && At(L, k', j')
    requires k != k' || j != j'
    ensures BlocksApart(L[k].blocks[j], L[k'].blocks[j'])
  {
    if k == k' {
      if j < j' { BlocksAscend(L[k], j, j'); } else { BlocksAscend(L[k], j', j); }
    } else {
      BlockInside(L[k], j);
      BlockInside(L[k'], j');
      assert if k < k' then Apart(L[k], L[k']) else Apart(L[k'], L[k]);
    }
  }

  /** A gap overlaps no block and no major header. */
  lemma GapApart(L: Layout, k: nat, g: nat, k': nat, j': nat)
    requires WfOpen(L) && k < |L| && g <= |L[k].blocks| && At(L, k', j')
    ensures End(L[k'].blocks[j']) <= Lo(L[k], g) || Hi(L[k], g) <= L[k'].blocks[j'].addr
  {
    GapInside(L[k], g);
    if k == k' {
      if j' < g { BlocksAscend(L[k], j', g); }
      else if g < j' { BlocksAscend(L[k], g, j'); }
    } else {
      BlockInside(L[k'], j');
      assert if k < k' then Apart(L[k], L[k']) else Apart(L[k'], L[k]);
    }
  }

  lemma LiveUnique(L: Layout, k: nat, j: nat, k': nat, j': nat)
    requires WfOpen(L) && At(L, k, j) && At(L, k', j')
    requires L[k].blocks[j].addr == L[k'].blocks[j'].addr
    ensures k == k' && j == j'
  {
    if k != k' || j != j' {
      LiveBlocksApart(L, k, j, k', j');
    }
  }

  ghost predicate RunsDistinct(L: Layout) {
    forall i, k :: 0 <= i < k < |L| ==> L[i].addr != L[k].addr
  }

  lemma RunsDiffer(L: Layout)
    requires WfOpen(L)
    ensures RunsDistinct(L)
  {
    forall i, k | 0 <= i < k < |L| ensures L[i].addr != L[k].addr {
      GapInside(L[i], 0);
      GapInside(L[k], 0);
      assert Apart(L[i], L[k]);
    }
  }

  // ---- Totals ---------------------------------------------------------------------------

  lemma {:induction false} TotalsConcat(a: Layout, b: Layout)
    ensures TotalBytes(a + b) == TotalBytes(a) + TotalBytes(b)
    ensures TotalInUse(a + b) == TotalInUse(a) + TotalInUse(b)
    ensures TotalBlocks(a + b) == TotalBlocks(a) + TotalBlocks(b)
  {
    if a == [] {
      assert a + b == b;
    } else {
      assert (a + b)[1..] == a[1..] + b;
      TotalsConcat(a[1..], b);
    }
  }

  lemma TotalsOne(r: Run)
    ensures TotalBytes([r]) == Bytes(r)
    ensures TotalInUse([r]) == Payload(r.blocks)
    ensures TotalBlocks([r]) == |r.blocks|
  {
    assert [r][1..] == [];
  }

  lemma TotalsSplit(L: Layout, k: nat)
    requires k < |L|
    ensures TotalBytes(L) == TotalBytes(L[..k]) + Bytes(L[k]) + TotalBytes(L[k + 1..])
    ensures TotalInUse(L) == TotalInUse(L[..k]) + Payload(L[k].blocks) + TotalInUse(L[k + 1..])
    ensures TotalBlocks(L) == TotalBlocks(L[..k]) + |L[k].blocks| + TotalBlocks(L[k + 1..])
  {
    assert L == L[..k] + ([L[k]] + L[k + 1..]);
    TotalsConcat(L[..k], [L[k]] + L[k + 1..]);
    TotalsConcat([L[k]], L[k + 1..]);
    TotalsOne(L[k]);
  }

  lemma TotalsUpdate(L: Layout, k: nat, r: Run)
    requires k < |L|
    ensures TotalBytes(L[k := r]) == TotalBytes(L) - Bytes(L[k]) + Bytes(r)
    ensures TotalInUse(L[k := r]) == TotalInUse(L) - Payload(L[k].blocks) + Payload(r.blocks)
    ensures TotalBlocks(L[k := r]) == TotalBlocks(L) - |L[k].blocks| + |r.blocks|
  {
    TotalsSplit(L, k);
    TotalsSplit(L[k := r], k);
    assert L[k := r][..k] == L[..k];
    assert L[k := r][k + 1..] == L[k + 1..];
  }

  // ---- Each operation keeps the invariant and the totals -----------------------------------

  lemma UpdateWfOpen(L: Layout, k: nat, r: Run)
    requires WfOpen(L) && k < |L| && WfRun(r)
    requires r.addr == L[k].addr && r.pages == L[k].pages
    ensures WfOpen(L[k := r])
  {
    var M := L[k := r];
    forall i, i' | 0 <= i < i' < |M| ensures Apart(M[i], M[i']) {
      assert Apart(L[i], L[i']);
    }
  }

  lemma InsertedWf(L: Layout, k: nat, g: nat, size: nat, req: nat)
    requires WfOpen(L) && FitsAt(L, k, g, size) && req + PAD <= size
    ensures WfOpen(Inserted(L, k, g, size, req))
    ensures TotalBytes(Inserted(L, k, g, size, req)) == TotalBytes(L)
    ensures TotalInUse(Inserted(L, k, g, size, req)) == TotalInUse(L) + size
  {
    InsertWf(L[k], g, size, req);
    UpdateWfOpen(L, k, Insert(L[k], g, size, req));
    TotalsUpdate(L, k, Insert(L[k], g, size, req));
  }

  lemma AppendedWf(L: Layout, page: nat, size: nat)
    requires WfOpen(L) && page != 0 && HookOk(L, page, size)
    ensures WfOpen(L + [Fresh(page, size)])
    ensures TotalBytes(L + [Fresh(page, size)]) == TotalBytes(L) + PagesFor(size) * PAGE_SIZE
    ensures TotalInUse(L + [Fresh(page, size)]) == TotalInUse(L)
  {
    TotalsConcat(L, [Fresh(page, size)]);
    TotalsOne(Fresh(page, size));
  }

  lemma GrownWf(L: Layout, page: nat, size: nat, req: nat)
    requires WfOpen(L) && page != 0 && HookOk(L, page, size) && req + PAD <= size
    ensures WfOpen(Grown(L, page, size, req))
  {
    var M := L + [Fresh(page, size)];
    AppendedWf(L, page, size);
    FreshFits(page, size);
    InsertedWf(M, |L|, 0, size, req);
    assert Grown(L, page, size, req) == Inserted(M, |L|, 0, size, req);
  }

  lemma DroppedWf(L: Layout, k: nat)
    requires Wf(L) && k < |L|
    ensures Wf(L[..k] + L[k + 1..])
  {
    var M := L[..k] + L[k + 1..];
    forall i | 0 <= i < |M| ensures WfRun(M[i]) && M[i].blocks != [] {
      assert M[i] == if i < k then L[i] else L[i + 1];
    }
    forall i, i' | 0 <= i < i' < |M| ensures Apart(M[i], M[i']) {
      var h := if i < k then i else i + 1;
      var h' := if i' < k then i' else i' + 1;
      assert M[i] == L[h] && M[i'] == L[h'];
      assert Apart(L[h], L[h']);
    }
  }

  lemma RemovedWf(L: Layout, k: nat, j: nat)
    requires Wf(L) && At(L, k, j)
    ensures Wf(Removed(L, k, j))
    ensures TotalInUse(Removed(L, k, j)) == TotalInUse(L) - L[k].blocks[j].size
    ensures TotalBytes(Removed(L, k, j)) == TotalBytes(L) - if |L[k].blocks| == 1 then Bytes(L[k]) else 0
    ensures TotalBlocks(Removed(L, k, j)) == TotalBlocks(L) - 1
  {
    if |L[k].blocks| == 1 {
      DroppedWf(L, k);
      TotalsSplit(L, k);
      TotalsConcat(L[..k], L[k + 1..]);
      PayloadOne(L[k].blocks[0]);
      assert L[k].blocks == [L[k].blocks[0]];
    } else {
      DeleteWf(L[k], j);
      UpdateWfOpen(L, k, Delete(L[k], j));
      TotalsUpdate(L, k, Delete(L[k], j));
    }
  }

  lemma ShrinkKeepsPayload(bs: seq<Block>, j: nat, req: nat)
    requires j < |bs|
    ensures Payload(bs[j := bs[j].(req := req)]) == Payload(bs)
  {
    var cs := bs[j := bs[j].(req := req)];
    assert bs == bs[..j] + ([bs[j]] + bs[j + 1..]);
    assert cs == bs[..j] + ([cs[j]] + bs[j + 1..]);
    PayloadConcat(bs[..j], [bs[j]] + bs[j + 1..]);
    PayloadConcat([bs[j]], bs[j + 1..]);
    PayloadConcat(bs[..j], [cs[j]] + bs[j + 1..]);
    PayloadConcat([cs[j]], bs[j + 1..]);
    PayloadOne(bs[j]);
    PayloadOne(cs[j]);
  }

  lemma ShrunkWf(L: Layout, k: nat, j: nat, req: nat)
    requires Wf(L) && At(L, k, j) && req <= L[k].blocks[j].req
    ensures Wf(Shrunk(L, k, j, req))
    ensures TotalInUse(Shrunk(L, k, j, req)) == TotalInUse(L)
    ensures TotalBytes(Shrunk(L, k, j, req)) == TotalBytes(L)
  {
    var r := Shrunk(L, k, j, req)[k];
    ShrinkKeepsPayload(L[k].blocks, j, req);
    forall i | 0 <= i <= |r.blocks| ensures Lo(r, i) <= Hi(r, i) {
      assert Lo(r, i) == Lo(L[k], i) && Hi(r, i) == Hi(L[k], i);
    }
    UpdateWfOpen(L, k, r);
    TotalsUpdate(L, k, r);
  }

  // ---- The search ---------------------------------------------------------------------------

  lemma {:induction false} FitGapFirst(r: Run, j: nat, size: nat)
    requires j <= |r.blocks| + 1
    ensures j <= FitGap(r, j, size)
    ensures forall g :: j <= g < FitGap(r, j, size) ==> !Fits(r, g, size)
    ensures FitGap(r, j, size) <= |r.blocks| ==> Fits(r, FitGap(r, j, size), size)
    decreases |r.blocks| + 1 - j
  {
    if j != |r.blocks| + 1 && !Fits(r, j, size) {
      FitGapFirst(r, j + 1, size);
    }
  }

  /** FitFrom returns the first fitting gap, in run order then address order, if there is one. */
  lemma {:induction false} FitFromFirst(L: Layout, i: nat, size: nat)
    requires i <= |L|
    ensures FitFrom(L, i, size) == None ==> forall k, g :: i <= k ==> !FitsAt(L, k, g, size)
    ensures FitFrom(L, i, size).Some? ==>
              var Some(k0, g0) := FitFrom(L, i, size);
              && i <= k0 && FitsAt(L, k0, g0, size)
              && forall k, g :: i <= k < k0 || (k == k0 && g < g0) ==> !FitsAt(L, k, g, size)
    decreases |L| - i
  {
    if i < |L| {
      FitGapFirst(L[i], 0, size);
      FitFromFirst(L, i + 1, size);
    }
  }

  /** No front, inner or tail gap of any run is wide enough. */
  ghost predicate NoRoom(L: Layout, size: nat) {
    forall k, g :: !FitsAt(L, k, g, size)
  }

  /** The search fails exactly when no front, inner or tail gap of any run is wide enough;
      starting at the hinted run changes only which gap is taken. */
  lemma SearchComplete(L: Layout, start: nat, size: nat)
    requires start <= |L|
    ensures Search(L, start, size) == None <==> NoRoom(L, size)
    ensures Search(L, start, size).Some? ==> FitsAt(L, Search(L, start, size).run, Search(L, start, size).gap, size)
  {
    FitFromFirst(L, start, size);
    FitFromFirst(L, 0, size);
    if !NoRoom(L, size) {
      var k, g :| FitsAt(L, k, g, size);
    }
  }

  /** Which gap the search takes: in the first run with one, counting from the start, and only if there
      is none from there on, counting from the root; and the lowest of that run. */
  lemma SearchOrder(L: Layout, start: nat, size: nat)
    requires start <= |L| && Search(L, start, size).Some?
    ensures var k, g := Search(L, start, size).run, Search(L, start, size).gap;
            && k < |L| && g <= |L[k].blocks| && Hi(L[k], g) - Lo(L[k], g) >= size + 24
            && (forall h :: 0 <= h < g ==> Hi(L[k], h) - Lo(L[k], h) < size + 24)
            && (k >= start ==> forall i, h :: start <= i < k && 0 <= h <= |L[i].blocks| ==> Hi(L[i], h) - Lo(L[i], h) < size + 24)
            && (k < start ==> forall i, h :: (start <= i < |L| || 0 <= i < k) && 0 <= h <= |L[i].blocks| ==>
                                Hi(L[i], h) - Lo(L[i], h) < size + 24)
  {
    FitFromFirst(L, start, size);
    FitFromFirst(L, 0, size);
    var k, g := Search(L, start, size).run, Search(L, start, size).gap;
    forall i, h | 0 <= i < |L| && 0 <= h <= |L[i].blocks| && !FitsAt(L, i, h, size)
      ensures Hi(L[i], h) - Lo(L[i], h) < size + 24
    {
    }
  }

  /** A run whose usage counter leaves too little room holds no fitting gap, so skipping it is safe. */
  lemma UsageFilterSafe(r: Run, size: nat)
    requires Ordered(r) && FreeBytes(r) < size + HEADER
    ensures FitGap(r, 0, size) == |r.blocks| + 1
  {
    FitGapFirst(r, 0, size);
    if FitGap(r, 0, size) <= |r.blocks| {
      GapWithinFree(r, FitGap(r, 0, size));
    }
  }

  // ---- Free by address ----------------------------------------------------------------------

  ghost function FreeAt(L: Layout, a: nat): Layout
    requires Live(L, a)
  {
    var k, j :| At(L, k, j) && L[k].blocks[j].addr == a;
    Removed(L, k, j)
  }

  lemma FreeAtIs(L: Layout, k: nat, j: nat)
    requires WfOpen(L) && At(L, k, j)
    ensures Live(L, L[k].blocks[j].addr)
    ensures FreeAt(L, L[k].blocks[j].addr) == Removed(L, k, j)
  {
    var a := L[k].blocks[j].addr;
    forall k', j' | At(L, k', j') && L[k'].blocks[j'].addr == a ensures k' == k && j' == j {
      LiveUnique(L, k, j, k', j');
    }
  }

  /** Index of a block in L, from its index after the removal of block j of run k, and back. */
  function Before(L: Layout, k: nat, j: nat, k': nat, j': nat): (nat, nat)
    requires At(L, k, j)
  {
    var i := if |L[k].blocks| == 1 && k' >= k then k' + 1 else k';
    (i, if i == k && j' >= j then j' + 1 else j')
  }

  lemma RemovedAt(L: Layout, k: nat, j: nat, k': nat, j': nat)
    requires At(L, k, j) && At(Removed(L, k, j), k', j')
    ensures var (i, m) := Before(L, k, j, k', j');
            At(L, i, m) && L[i].blocks[m] == Removed(L, k, j)[k'].blocks[j'] && (i != k || m != j)
  {
  }

  lemma KeptAt(L: Layout, k: nat, j: nat, i: nat, m: nat) returns (k': nat, j': nat)
    requires At(L, k, j) && At(L, i, m) && (i != k || m != j)
    ensures At(Removed(L, k, j), k', j') && Removed(L, k, j)[k'].blocks[j'] == L[i].blocks[m]
  {
    k' := if |L[k].blocks| == 1 && i > k then i - 1 else i;
    j' := if i == k && m > j then m - 1 else m;
  }

  /** Exactly the removed block stops being live. */
  lemma RemovedBlocks(L: Layout, k: nat, j: nat, x: nat)
    requires WfOpen(L) && At(L, k, j)
    ensures Live(Removed(L, k, j), x) <==> Live(L, x) && x != L[k].blocks[j].addr
  {
    var M := Removed(L, k, j);
    if Live(M, x) {
      var k', j' :| At(M, k', j') && M[k'].blocks[j'].addr == x;
      RemovedAt(L, k, j, k', j');
      var (i, m) := Before(L, k, j, k', j');
      LiveBlocksApart(L, k, j, i, m);
    }
    if Live(L, x) && x != L[k].blocks[j].addr {
      var i, m :| At(L, i, m) && L[i].blocks[m].addr == x;
      var k', j' := KeptAt(L, k, j, i, m);
    }
  }

  // ---- Free undoes malloc ----------------------------------------------------------------------

  /** Freeing what malloc just placed gives back the layout malloc found. */
  lemma FreeUndoesInsert(L: Layout, k: nat, g: nat, size: nat, req: nat)
    requires Wf(L) && FitsAt(L, k, g, size) && req + PAD <= size
    ensures Live(Inserted(L, k, g, size, req), Lo(L[k], g))
    ensures FreeAt(Inserted(L, k, g, size, req), Lo(L[k], g)) == L
  {
    var M := Inserted(L, k, g, size, req);
    InsertedWf(L, k, g, size, req);
    FreeAtIs(M, k, g);
    assert Delete(M[k], g) == L[k] by {
      assert Delete(M[k], g).blocks == L[k].blocks;
    }
    assert M[k := L[k]] == L;
  }

  /** The same when malloc had to obtain a run: free returns that run. */
  lemma FreeUndoesGrow(L: Layout, page: nat, size: nat, req: nat)
    requires Wf(L) && page != 0 && HookOk(L, page, size) && req + PAD <= size
    ensures Live(Grown(L, page, size, req), page + HEADER)
    ensures FreeAt(Grown(L, page, size, req), page + HEADER) == L
  {
    var G := Grown(L, page, size, req);
    assert WfOpen(G) by { GrownWf(L, page, size, req); }
    hide WfOpen; hide Wf; hide HookOk;
    FreeAtIs(G, |L|, 0);
    assert G[|L|].blocks == [Block(page + HEADER, size, req)];
    assert Removed(G, |L|, 0) == L;
  }

  // ---- Freeing everything ----------------------------------------------------------------------

  ghost predicate Distinct(s: seq<nat>) {
    forall i, j :: 0 <= i < j < |s| ==> s[i] != s[j]
  }

  ghost function FreeAll(L: Layout, order: seq<nat>): Layout
    requires Wf(L) && Distinct(order) && forall a :: a in order ==> Live(L, a)
    decreases |order|
  {
    if order == [] then L
    else
      FreeOne(L, order);
      FreeAll(FreeAt(L, order[0]), order[1..])
  }

  lemma FreeOne(L: Layout, order: seq<nat>)
    requires Wf(L) && Distinct(order) && forall a :: a in order ==> Live(L, a)
    requires order != []
    ensures Wf(FreeAt(L, order[0])) && Distinct(order[1..])
    ensures forall a :: a in order[1..] ==> Live(FreeAt(L, order[0]), a)
    ensures forall a :: Live(FreeAt(L, order[0]), a) ==> Live(L, a) && a != order[0]
  {
    assert order[0] in order;
    var k, j :| At(L, k, j) && L[k].blocks[j].addr == order[0];
    FreeAtIs(L, k, j);
    RemovedWf(L, k, j);
    forall a | a in order[1..] ensures Live(FreeAt(L, order[0]), a) {
      assert a in order;
      RemovedBlocks(L, k, j, a);
    }
    forall a | Live(FreeAt(L, order[0]), a) ensures Live(L, a) && a != order[0] {
      RemovedBlocks(L, k, j, a);
    }
  }

  /** Freeing every live block, in whatever order, leaves no run and zero totals. */
  lemma {:induction false} FreeAllEmpties(L: Layout, order: seq<nat>)
    requires Wf(L) && Distinct(order) && forall a :: a in order ==> Live(L, a)
    requires forall a :: Live(L, a) ==> a in order
    ensures FreeAll(L, order) == []
    ensures TotalBytes(FreeAll(L, order)) == 0 && TotalInUse(FreeAll(L, order)) == 0
    decreases |order|
  {
    if order == [] {
      if L != [] {
        assert At(L, 0, 0);
        assert Live(L, L[0].blocks[0].addr);
        assert false;
      }
    } else {
      FreeOne(L, order);
      assert order == [order[0]] + order[1..];
      FreeAllEmpties(FreeAt(L, order[0]), order[1..]);
    }
  }

  // ---- The hint and the step of malloc --------------------------------------------------------

  /** Free bytes of the run at address `a`, by its usage counter; 0 if no run is listed there. */
  ghost function FreeOf(L: Layout, a: nat): int {
    if Listed(L, a) then (var i :| 0 <= i < |L| && L[i].addr == a; FreeBytes(L[i])) else 0
  }

  lemma FreeOfIs(L: Layout, i: nat)
    requires WfOpen(L) && i < |L|
    ensures Listed(L, L[i].addr) && FreeOf(L, L[i].addr) == FreeBytes(L[i])
  {
    RunsDiffer(L);
  }

  lemma FreeOfGrown(L: Layout, r: Run, a: nat)
    requires WfOpen(L + [r]) && WfOpen(L) && (a == 0 || Listed(L, a))
    ensures FreeOf(L + [r], a) == FreeOf(L, a)
  {
    if a != 0 {
      var i :| 0 <= i < |L| && L[i].addr == a;
      FreeOfIs(L, i);
      FreeOfIs(L + [r], i);
    }
  }

  lemma StartIs(L: Layout, bet: nat, size: nat, i: nat)
    requires WfOpen(L) && i < |L| && L[i].addr == bet
    ensures StartOf(L, bet, size) == if FreeBytes(L[i]) > size + HEADER then i else 0
  {
    RunsDiffer(L);
  }

  /** The hinted run is tried first if its free bytes exceed what the request needs. */
  ghost function StartOf(L: Layout, bet: nat, size: nat): (i: nat)
    ensures i <= |L|
  {
    if exists i :: 0 <= i < |L| && L[i].addr == bet && FreeBytes(L[i]) > size + HEADER
    then var i :| 0 <= i < |L| && L[i].addr == bet && FreeBytes(L[i]) > size + HEADER; i
    else 0
  }

  /** A hint and the free bytes it stands for: l_bestBet and bestSize. */
  datatype Best = Best(bet: nat, free: int)

  /** The comparison at the top of malloc's loop: a roomier run becomes the hint. */
  function Compared(b: Best, r: Run): Best {
    if b.free < FreeBytes(r) then Best(r.addr, FreeBytes(r)) else b
  }

  /** The hint after runs i to k - 1 have been compared with it, in this order. */
  function Running(L: Layout, b: Best, i: nat, k: nat): Best
    requires k <= |L|
  {
    if i >= k then b else Compared(Running(L, b, i, k - 1), L[k - 1])
  }

  /** r is run j, and the runs from i up to it are less roomy. */
  predicate FirstRoomiest(L: Layout, i: nat, k: nat, r: Best, j: nat) {
    && i <= j < k <= |L| && r == Best(L[j].addr, FreeBytes(L[j]))
    && forall m :: i <= m < j ==> FreeBytes(L[m]) < r.free
  }

  /** The hint is the old one, or else the first of the roomiest runs compared, which is roomier than
      the old one; no run compared is roomier than it. */
  lemma {:induction false} RunningBest(L: Layout, b: Best, i: nat, k: nat)
    requires k <= |L|
    ensures var r := Running(L, b, i, k);
            && (r == b || (b.free < r.free && exists j :: FirstRoomiest(L, i, k, r, j)))
            && forall j :: i <= j < k ==> FreeBytes(L[j]) <= r.free
  {
    if i < k {
      RunningBest(L, b, i, k - 1);
      var q := Running(L, b, i, k - 1);
      if q.free < FreeBytes(L[k - 1]) {
        assert FirstRoomiest(L, i, k, Best(L[k - 1].addr, FreeBytes(L[k - 1])), k - 1);
      } else if q != b {
        var j :| FirstRoomiest(L, i, k - 1, q, j);
        assert FirstRoomiest(L, i, k, q, j);
      }
    }
  }

  /** Comparing with runs none of which is roomier changes nothing. */
  lemma {:induction false} RunningIdle(L: Layout, b: Best, i: nat, k: nat)
    requires k <= |L| && forall j :: i <= j < k ==> FreeBytes(L[j]) <= b.free
    ensures Running(L, b, i, k) == b
  {
    if i < k { RunningIdle(L, b, i, k - 1); }
  }

  /** The hint when the search that starts at run `start` stops at `place`: the runs up to there, or,
      if nothing fits behind the start, all of those and then the runs from the root. */
  ghost function Passes(L: Layout, bet: nat, start: nat, place: Place): Best
    requires place.Some? ==> place.run < |L|
  {
    var b := Best(bet, FreeOf(L, bet));
    if place.Some? && start <= place.run then Running(L, b, start, place.run + 1)
    else Running(L, Running(L, b, start, |L|), 0, if place.Some? then place.run + 1 else |L|)
  }

  lemma PassesFromRoot(L: Layout, bet: nat)
    ensures Passes(L, bet, 0, None) == Running(L, Best(bet, FreeOf(L, bet)), 0, |L|)
  {
    RunningBest(L, Best(bet, FreeOf(L, bet)), 0, |L|);
    RunningIdle(L, Running(L, Best(bet, FreeOf(L, bet)), 0, |L|), 0, |L|);
  }

  /** The last run has too few free bytes altogether: CASE 1, not CASE 5, obtains the new run. */
  predicate GrowsEarly(L: Layout, size: nat) {
    L != [] && FreeBytes(L[|L| - 1]) < size + HEADER
  }

  /** A new run is compared with the hint only if CASE 5, or a first call, obtained it. */
  function GrowHint(L: Layout, size: nat, page: nat, b: Best): Best {
    if GrowsEarly(L, size) then b else Compared(b, Fresh(page, size))
  }

  /** The hint malloc leaves behind. */
  ghost function MallocHint(L: Layout, bet: nat, req: nat, page: nat): nat {
    var size := req + PAD;
    var start := StartOf(L, bet, size);
    var place := Search(L, start, size);
    SearchComplete(L, start, size);
    var b := Passes(L, bet, start, place);
    if place.Some? || page == 0 then b.bet else GrowHint(L, size, page, b).bet
  }

  /** Header address of the block malloc hands out; 0 if it returns null. */
  ghost function HeaderFor(L: Layout, bet: nat, req: nat, page: nat): nat {
    var place := Search(L, StartOf(L, bet, req + PAD), req + PAD);
    SearchComplete(L, StartOf(L, bet, req + PAD), req + PAD);
    if place.Some? then Lo(L[place.run], place.gap) else if page == 0 then 0 else page + HEADER
  }

  /** malloc returns null exactly when no gap of any run is wide enough and the page hook fails. */
  lemma NullIff(L: Layout, bet: nat, req: nat, page: nat)
    requires WfOpen(L)
    ensures HeaderFor(L, bet, req, page) == 0 <==> page == 0 && NoRoom(L, req + PAD)
  {
    var start := StartOf(L, bet, req + PAD);
    SearchComplete(L, start, req + PAD);
    var place := Search(L, start, req + PAD);
    if place.Some? { GapInside(L[place.run], place.gap); }
  }

  /** The layout malloc leaves behind. */
  ghost function AfterMalloc(L: Layout, bet: nat, req: nat, page: nat): Layout {
    var size := req + PAD;
    var place := Search(L, StartOf(L, bet, size), size);
    SearchComplete(L, StartOf(L, bet, size), size);
    if place.Some? then Inserted(L, place.run, place.gap, size, req)
    else if page == 0 then L else Grown(L, page, size, req)
  }

  /** The page requests of a call of malloc: one if nothing fits. */
  ghost function Asks(L: Layout, bet: nat, req: nat): seq<nat> {
    if Search(L, StartOf(L, bet, req + PAD), req + PAD) == None then [PagesFor(req + PAD)] else []
  }

  /** malloc from layout L and hint `bet` to L' and bet'; `asked` says whether it asked for pages,
      and `page` is the answer it then got. */
  ghost predicate MallocStep(L: Layout, bet: nat, req: nat, page: nat, L': Layout, bet': nat, asked: bool) {
    var size := req + PAD;
    var start := StartOf(L, bet, size);
    var place := Search(L, start, size);
    && (asked <==> place == None)
    && L' == AfterMalloc(L, bet, req, page)
    && bet' == MallocHint(L, bet, req, page)
  }

  // ---- The step of free -----------------------------------------------------------------------

  /** Index of the run that holds the block with header `a`. */
  ghost function Holder(L: Layout, a: nat): (k: nat)
    requires Live(L, a)
    ensures k < |L|
  {
    var k, j :| At(L, k, j) && L[k].blocks[j].addr == a; k
  }

  lemma HolderIs(L: Layout, k: nat, j: nat)
    requires WfOpen(L) && At(L, k, j)
    ensures Live(L, L[k].blocks[j].addr) && Holder(L, L[k].blocks[j].addr) == k
  {
    var a := L[k].blocks[j].addr;
    forall k', j' | At(L, k', j') && L[k'].blocks[j'].addr == a ensures k' == k {
      LiveUnique(L, k, j, k', j');
    }
  }

  /** Conversion of an unsigned 32-bit value to int. */
  function ToInt32(x: int): int {
    if x >= 0x8000_0000 then x - ADDRESS_SPACE else x
  }

  /** free of the block with header `a`: an emptied run goes back to the page hook and stops being
      the hint; otherwise the hint moves to the freed run if that is now roomier. */
  ghost predicate FreeStep(L: Layout, bet: nat, a: nat, L': Layout, bet': nat, released: seq<(nat, nat)>) {
    && Live(L, a)
    && L' == FreeAt(L, a)
    && var r := L[Holder(L, a)];
       if |r.blocks| == 1 then
         released == [(r.addr, r.pages)] && bet' == if bet == r.addr then 0 else bet
       else
         released == [] &&
         bet' == if bet != 0 && ToInt32(FreeOf(L', r.addr)) > ToInt32(FreeOf(L', bet)) then r.addr else bet
  }

  // ---- The steps of realloc ---------------------------------------------------------------------

  ghost function ShrunkAt(L: Layout, a: nat, req: nat): Layout
    requires Live(L, a)
  {
    var k, j :| At(L, k, j) && L[k].blocks[j].addr == a;
    Shrunk(L, k, j, req)
  }

  lemma ShrunkAtIs(L: Layout, k: nat, j: nat, req: nat)
    requires WfOpen(L) && At(L, k, j)
    ensures Live(L, L[k].blocks[j].addr)
    ensures ShrunkAt(L, L[k].blocks[j].addr, req) == Shrunk(L, k, j, req)
  {
    var a := L[k].blocks[j].addr;
    forall k', j' | At(L, k', j') && L[k'].blocks[j'].addr == a ensures k' == k && j' == j {
      LiveUnique(L, k, j, k', j');
    }
  }

  /** Where malloc puts the new block in the layout it leaves behind. */
  ghost function NewRunIndex(L: Layout, bet: nat, req: nat): nat {
    var place := Search(L, StartOf(L, bet, req + PAD), req + PAD);
    if place.Some? then place.run else |L|
  }

  ghost function NewBlockIndex(L: Layout, bet: nat, req: nat): nat {
    var place := Search(L, StartOf(L, bet, req + PAD), req + PAD);
    if place.Some? then place.gap else 0
  }

  lemma NewBlock(L: Layout, bet: nat, req: nat, page: nat)
    requires HeaderFor(L, bet, req, page) != 0
    ensures var M, k, j := AfterMalloc(L, bet, req, page), NewRunIndex(L, bet, req), NewBlockIndex(L, bet, req);
            At(M, k, j) && M[k].blocks[j] == Block(HeaderFor(L, bet, req, page), req + PAD, req)
  {
    SearchComplete(L, StartOf(L, bet, req + PAD), req + PAD);
  }

  /** Every block there was is still there after malloc, and is not the new one. */
  lemma OldBlockKept(L: Layout, bet: nat, req: nat, page: nat, k: nat, j: nat) returns (k': nat, j': nat)
    requires At(L, k, j)
    ensures var M := AfterMalloc(L, bet, req, page); At(M, k', j') && M[k'].blocks[j'] == L[k].blocks[j]
    ensures HeaderFor(L, bet, req, page) != 0 ==> k' != NewRunIndex(L, bet, req) || j' != NewBlockIndex(L, bet, req)
  {
    SearchComplete(L, StartOf(L, bet, req + PAD), req + PAD);
    var place := Search(L, StartOf(L, bet, req + PAD), req + PAD);
    k', j' := k, if place.Some? && place.run == k && j >= place.gap then j + 1 else j;
  }

  /** What a successful malloc does: one block more, of the size asked for plus 32, directly behind the
      block below it or behind the header of its run; all other blocks are the ones there were. */
  lemma MallocEffect(L: Layout, bet: nat, req: nat, page: nat) returns (k: nat, j: nat)
    requires HeaderFor(L, bet, req, page) != 0
    ensures var M, a := AfterMalloc(L, bet, req, page), HeaderFor(L, bet, req, page);
            && At(M, k, j) && M[k].blocks[j] == Block(a, req + 32, req)
            && a == (if j == 0 then M[k].addr + 24 else M[k].blocks[j - 1].addr + 24 + M[k].blocks[j - 1].size)
            && forall x :: Live(M, x) <==> Live(L, x) || x == a
  {
    var M, a := AfterMalloc(L, bet, req, page), HeaderFor(L, bet, req, page);
    k, j := NewRunIndex(L, bet, req), NewBlockIndex(L, bet, req);
    NewBlock(L, bet, req, page);
    SearchComplete(L, StartOf(L, bet, req + PAD), req + PAD);
    forall x ensures Live(M, x) <==> Live(L, x) || x == a {
      if Live(L, x) {
        var i, m :| At(L, i, m) && L[i].blocks[m].addr == x;
        var i', m' := OldBlockKept(L, bet, req, page, i, m);
      }
      if Live(M, x) && x != a {
        var i, m :| At(M, i, m) && M[i].blocks[m].addr == x;
        var o := if i == k && m > j then m - 1 else m;
        assert At(L, i, o) && L[i].blocks[o].addr == x;
      }
    }
  }

  /** free takes away the one block and no other. */
  lemma FreeEffect(L: Layout, a: nat)
    requires WfOpen(L) && Live(L, a)
    ensures forall x :: Live(FreeAt(L, a), x) <==> Live(L, x) && x != a
  {
    var k, j :| At(L, k, j) && L[k].blocks[j].addr == a;
    FreeAtIs(L, k, j);
    forall x ensures Live(FreeAt(L, a), x) <==> Live(L, x) && x != a { RemovedBlocks(L, k, j, x); }
  }
}
