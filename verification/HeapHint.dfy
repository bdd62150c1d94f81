/** The best-bet hint of the allocator, commented as the major with the most free memory: exactly
    which steps keep that true. */
module HeapHint {
  import opened HeapLayout
  import opened HeapSteps
  import opened HeapRuns

  /** What the comment on l_bestBet says: no run has more free bytes. */
  ghost predicate Roomiest(s: Point) {
    AtMost(s.layout, FreeOf(s.layout, s.bet))
  }

  predicate AtMost(L: Layout, n: int) {
    forall i :: 0 <= i < |L| ==> FreeBytes(L[i]) <= n
  }

  lemma NullFree(L: Layout)
    requires WfOpen(L)
    ensures FreeOf(L, 0) == 0 && !Listed(L, 0)
  {
    assert forall i :: 0 <= i < |L| ==> WfRun(L[i]);
  }

  lemma RunFree(L: Layout, i: nat)
    requires WfOpen(L) && i < |L|
    ensures FreeBytes(L[i]) >= 0
  {
    assert WfRun(L[i]);
    GapWithinFree(L[i], 0);
  }

  // ---- malloc ----------------------------------------------------------------------------------------

  /** No run is roomier than the hint, so passing runs leaves it alone. */
  lemma PassesIdle(s: Point, start: nat, place: Place)
    requires Roomiest(s) && (place.Some? ==> place.run < |s.layout|)
    ensures Passes(s.layout, s.bet, start, place) == Best(s.bet, FreeOf(s.layout, s.bet))
  {
    var b := Best(s.bet, FreeOf(s.layout, s.bet));
    RunningIdle(s.layout, b, start, |s.layout|);
    if place.Some? {
      RunningIdle(s.layout, b, start, place.run + 1);
      RunningIdle(s.layout, b, 0, place.run + 1);
    } else {
      RunningIdle(s.layout, b, 0, |s.layout|);
    }
  }

  /** The run the search looks at, on its way from run `start` to where it stops. */
  predicate Visited(L: Layout, start: nat, place: Place, i: int) {
    0 <= i < |L| &&
    (place.Some? ==> if start <= place.run then start <= i <= place.run else i <= place.run || start <= i)
  }

  /** A hint after comparing: the old one or a roomier run, and none of the runs visited is roomier. */
  ghost predicate Settled(L: Layout, bet: nat, start: nat, place: Place, b: Best) {
    && b.free == FreeOf(L, b.bet)
    && (b.bet == bet || b.free > FreeOf(L, bet))
    && forall i :: Visited(L, start, place, i) ==> FreeBytes(L[i]) <= b.free
  }

  lemma BestIs(L: Layout, b: Best, i: nat, k: nat)
    requires WfOpen(L) && k <= |L| && b.free == FreeOf(L, b.bet)
    ensures var r := Running(L, b, i, k);
            && r.free == FreeOf(L, r.bet) && (r == b || r.free > b.free)
            && forall j :: i <= j < k ==> FreeBytes(L[j]) <= r.free
  {
    RunningBest(L, b, i, k);
    var r := Running(L, b, i, k);
    hide Running; hide FreeOf; hide FreeBytes;
    if r != b {
      var j :| FirstRoomiest(L, i, k, r, j);
      FreeOfIs(L, j);
    }
  }

  lemma PassesSettle(L: Layout, bet: nat, start: nat, place: Place)
    requires WfOpen(L) && start <= |L| && (place.Some? ==> place.run < |L|)
    ensures Settled(L, bet, start, place, Passes(L, bet, start, place))
  {
    var b := Best(bet, FreeOf(L, bet));
    hide Running; hide FreeOf; hide FreeBytes; hide WfOpen;
    if place.Some? && start <= place.run {
      BestIs(L, b, start, place.run + 1);
    } else {
      BestIs(L, b, start, |L|);
      BestIs(L, Running(L, b, start, |L|), 0, if place.Some? then place.run + 1 else |L|);
    }
  }

  /** The hint malloc leaves, for any hint it finds. If it obtains no run: the old one or a roomier run,
      with none visited roomier still. If it obtains one although the last run had bytes enough: the new
      run exactly if that is roomier than all of them. Otherwise the new run is not considered. */
  lemma HintAfterMalloc(s: Point, req: nat, page: nat, asked: bool, t: Point) returns (b: Best)
    requires Good(s) && Malloced(s, req, page, asked, t)
    ensures var L, size := s.layout, req + PAD;
            var start := StartOf(L, s.bet, size);
            var place := Search(L, start, size);
            && Settled(L, s.bet, start, place, b)
            && (if !asked || page == 0 || (L != [] && FreeBytes(L[|L| - 1]) < size + 24) then t.bet == b.bet
                else t.bet == if PagesFor(size) * 4096 - 24 > b.free then page else b.bet)
  {
    var L, size := s.layout, req + PAD;
    var start := StartOf(L, s.bet, size);
    var place := Search(L, start, size);
    SearchComplete(L, start, size);
    PassesSettle(L, s.bet, start, place);
    b := Passes(L, s.bet, start, place);
    hide Passes; hide FreeOf; hide StartOf; hide Search; hide Settled; hide Wf; hide AfterMalloc; hide HookOk;
    assert FreeBytes(Fresh(page, size)) == PagesFor(size) * 4096 - 24;
  }

  /** Taking `need` bytes from run k: k is not the hint, or stays at least as roomy as the others. */
  ghost predicate ServedKeeps(L: Layout, bet: nat, k: nat, need: nat) {
    k < |L| && (L[k].addr != bet || forall i :: 0 <= i < |L| && i != k ==> FreeBytes(L[i]) + need <= FreeBytes(L[k]))
  }

  /** A new run for `size` bytes, when the roomiest there was has `most` free: if CASE 1 obtained it,
      what it has left must not exceed that; if CASE 5 did, or this is the first run, it must not
      take over the hint and then fall behind. */
  predicate GrowKeeps(L: Layout, most: int, size: nat, page: nat) {
    var f := FreeBytes(Fresh(page, size));
    if GrowsEarly(L, size) then f - size - HEADER <= most
    else f <= most || most <= f - size - HEADER
  }

  ghost predicate MallocKeeps(s: Point, req: nat, page: nat) {
    var size := req + PAD;
    var place := Search(s.layout, StartOf(s.layout, s.bet, size), size);
    if place.Some? then ServedKeeps(s.layout, s.bet, place.run, size + HEADER)
    else page == 0 || GrowKeeps(s.layout, FreeOf(s.layout, s.bet), size, page)
  }

  /** Taking d bytes from run k, when run b had the most: b still has the most. */
  lemma Comparison(L: Layout, M: Layout, k: nat, b: nat, d: nat)
    requires |L| == |M| && k < |L| && b < |L| && AtMost(L, FreeBytes(L[b]))
    requires (forall i :: 0 <= i < |L| && i != k ==> M[i] == L[i]) && FreeBytes(M[k]) == FreeBytes(L[k]) - d
    ensures AtMost(M, FreeBytes(M[b])) <==>
            k != b || forall i :: 0 <= i < |L| && i != k ==> FreeBytes(L[i]) + d <= FreeBytes(L[k])
  {
    hide FreeBytes;
    if k == b && AtMost(M, FreeBytes(M[b])) {
      forall i | 0 <= i < |L| && i != k ensures FreeBytes(L[i]) + d <= FreeBytes(L[k]) {
        assert FreeBytes(M[i]) <= FreeBytes(M[b]);
      }
    }
  }

  lemma ServedIff(L: Layout, bet: nat, k: nat, g: nat, size: nat, req: nat)
    requires Wf(L) && (bet == 0 || Listed(L, bet)) && AtMost(L, FreeOf(L, bet))
    requires FitsAt(L, k, g, size) && req + PAD <= size
    ensures var M := Inserted(L, k, g, size, req); AtMost(M, FreeOf(M, bet)) <==> ServedKeeps(L, bet, k, size + HEADER)
  {
    var M := Inserted(L, k, g, size, req);
    assert bet != 0 by {
      NullFree(L);
      GapWithinFree(L[k], g);
      assert FreeBytes(L[k]) <= FreeOf(L, bet);
    }
    var b :| 0 <= b < |L| && L[b].addr == bet;
    FreeOfIs(L, b);
    assert FreeOf(M, bet) == FreeBytes(M[b]) by { InsertedWf(L, k, g, size, req); FreeOfIs(M, b); }
    assert FreeBytes(M[k]) == FreeBytes(L[k]) - (size + HEADER) by { InsertWf(L[k], g, size, req); }
    assert b == k <==> L[k].addr == bet by { RunsDiffer(L); }
    hide FreeOf; hide FreeBytes; hide FitsAt; hide Wf;
    Comparison(L, M, k, b, size + HEADER);
  }

  lemma GrownRun(L: Layout, bet: nat, page: nat, size: nat, req: nat)
    requires Wf(L) && (bet == 0 || Listed(L, bet)) && page != 0 && HookOk(L, page, size) && req + PAD <= size
    ensures var M, r := Grown(L, page, size, req), Insert(Fresh(page, size), 0, size, req);
            && M == L + [r] && FreeOf(M, bet) == FreeOf(L, bet) && FreeOf(M, page) == FreeBytes(r)
            && FreeBytes(r) == FreeBytes(Fresh(page, size)) - size - HEADER && FreeBytes(r) >= 0
  {
    var r := Insert(Fresh(page, size), 0, size, req);
    AppendedWf(L, page, size);
    FreshFits(page, size);
    InsertWf(Fresh(page, size), 0, size, req);
    InsertedWf(L + [Fresh(page, size)], |L|, 0, size, req);
    assert Inserted(L + [Fresh(page, size)], |L|, 0, size, req) == L + [r];
    FreeOfGrown(L, r, bet);
    FreeOfIs(L + [r], |L|);
  }

  lemma GrownIff(L: Layout, bet: nat, page: nat, size: nat, req: nat)
    requires Wf(L) && (bet == 0 || Listed(L, bet)) && AtMost(L, FreeOf(L, bet))
    requires page != 0 && HookOk(L, page, size) && req + PAD <= size
    ensures var M, b := Grown(L, page, size, req), GrowHint(L, size, page, Best(bet, FreeOf(L, bet))).bet;
            AtMost(M, FreeOf(M, b)) <==> GrowKeeps(L, FreeOf(L, bet), size, page)
  {
    var r, most := Insert(Fresh(page, size), 0, size, req), FreeOf(L, bet);
    var M := L + [r];
    GrownRun(L, bet, page, size, req);
    assert AtMost(L, FreeBytes(r)) <==> most <= FreeBytes(r) by {
      if bet == 0 { NullFree(L); } else {
        var i :| 0 <= i < |L| && L[i].addr == bet;
        FreeOfIs(L, i);
      }
    }
    hide FreeBytes; hide FreeOf; hide Wf; hide HookOk;
    assert M[|L|] == r && forall i :: 0 <= i < |L| ==> M[i] == L[i];
    Extended(L, r, most);
    Extended(L, r, FreeBytes(r));
  }

  lemma Extended(L: Layout, r: Run, n: int)
    ensures AtMost(L + [r], n) <==> AtMost(L, n) && FreeBytes(r) <= n
  {
    var M := L + [r];
    assert M[|L|] == r;
    if AtMost(M, n) {
      assert FreeBytes(M[|L|]) <= n;
      forall i | 0 <= i < |L| ensures FreeBytes(L[i]) <= n { assert M[i] == L[i]; }
    }
  }

  /** A malloc keeps a hint that was the roomiest run so if and only if: it is served from another run,
      or from the hint with bytes to spare; or it fails; or the run it obtains does not end up roomier
      than an unchanged hint, nor as a hint less roomy than the old one. */
  lemma MallocRoomiestIff(s: Point, req: nat, page: nat, asked: bool, t: Point)
    requires Good(s) && Roomiest(s) && Malloced(s, req, page, asked, t)
    ensures Roomiest(t) <==> MallocKeeps(s, req, page)
  {
    var L, size := s.layout, req + PAD;
    var start := StartOf(L, s.bet, size);
    var place := Search(L, start, size);
    SearchComplete(L, start, size);
    PassesIdle(s, start, place);
    hide Passes; hide FreeOf; hide StartOf; hide Search; hide Wf; hide GrowHint; hide GrowKeeps; hide ServedKeeps;
    if place.Some? {
      ServedIff(L, s.bet, place.run, place.gap, size, req);
    } else if page != 0 {
      GrownIff(L, s.bet, page, size, req);
    }
  }

  // ---- free --------------------------------------------------------------------------------------------

  /** Freeing in run k: the run may go if it is not the hint or all other runs are full; otherwise
      there must be a hint, and if it is another run, both or neither free size must fit a signed int. */
  ghost predicate FreeKeeps(L: Layout, bet: nat, k: nat, d: nat) {
    && k < |L|
    && (|L[k].blocks| == 1 ==> L[k].addr != bet || forall i :: 0 <= i < |L| && i != k ==> FreeBytes(L[i]) <= 0)
    && (|L[k].blocks| != 1 ==>
          bet != 0 && (L[k].addr == bet || (FreeBytes(L[k]) + d < 0x8000_0000 <==> FreeOf(L, bet) < 0x8000_0000)))
  }

  lemma DroppedMost(L: Layout, k: nat, n: int)
    requires k < |L|
    ensures AtMost(L[..k] + L[k + 1..], n) <==> forall i :: 0 <= i < |L| && i != k ==> FreeBytes(L[i]) <= n
  {
    hide FreeBytes;
    var M := L[..k] + L[k + 1..];
    if AtMost(M, n) {
      forall i | 0 <= i < |L| && i != k ensures FreeBytes(L[i]) <= n {
        assert L[i] == M[if i < k then i else i - 1];
      }
    }
  }

  lemma DroppedFree(L: Layout, bet: nat, k: nat)
    requires Wf(L) && k < |L| && (bet == 0 || Listed(L, bet)) && bet != L[k].addr
    ensures FreeOf(L[..k] + L[k + 1..], bet) == FreeOf(L, bet)
  {
    var M := L[..k] + L[k + 1..];
    assert Wf(M) by { DroppedWf(L, k); }
    hide FreeBytes; hide WfRun;
    if bet == 0 {
      NullFree(L);
      NullFree(M);
    } else {
      var i :| 0 <= i < |L| && L[i].addr == bet;
      var i' := if i < k then i else i - 1;
      assert M[i'] == L[i];
      assert FreeOf(L, bet) == FreeBytes(L[i]) by { FreeOfIs(L, i); }
      assert FreeOf(M, bet) == FreeBytes(M[i']) by { FreeOfIs(M, i'); }
    }
  }

  lemma DroppedIff(L: Layout, bet: nat, k: nat, d: nat)
    requires Wf(L) && (bet == 0 || Listed(L, bet)) && AtMost(L, FreeOf(L, bet)) && k < |L| && |L[k].blocks| == 1
    ensures var M, b := L[..k] + L[k + 1..], if bet == L[k].addr then 0 else bet;
            AtMost(M, FreeOf(M, b)) <==> FreeKeeps(L, bet, k, d)
  {
    var M := L[..k] + L[k + 1..];
    if bet == L[k].addr {
      assert FreeOf(M, 0) == 0 by { DroppedWf(L, k); NullFree(M); }
      DroppedMost(L, k, 0);
    } else {
      DroppedFree(L, bet, k);
      DroppedMost(L, k, FreeOf(L, bet));
    }
    hide FreeOf; hide FreeBytes; hide Wf; hide AtMost;
  }

  lemma KeptRun(L: Layout, bet: nat, k: nat, j: nat)
    requires Wf(L) && (bet == 0 || Listed(L, bet)) && At(L, k, j) && |L[k].blocks| > 1
    ensures var M, r := L[k := Delete(L[k], j)], L[k].addr;
            && FreeOf(M, r) == FreeBytes(L[k]) + L[k].blocks[j].size + HEADER
            && FreeBytes(M[k]) == FreeOf(M, r)
            && (bet != r ==> FreeOf(M, bet) == FreeOf(L, bet))
  {
    var M := L[k := Delete(L[k], j)];
    DeleteWf(L[k], j);
    RemovedWf(L, k, j);
    FreeOfIs(M, k);
    if bet == 0 {
      NullFree(L);
      NullFree(M);
    } else if bet != L[k].addr {
      var i :| 0 <= i < |L| && L[i].addr == bet;
      FreeOfIs(L, i);
      FreeOfIs(M, i);
    }
  }

  /** The run freed in is the hint, or there is none. */
  lemma KeptSame(L: Layout, bet: nat, k: nat, j: nat)
    requires Wf(L) && AtMost(L, FreeOf(L, bet)) && At(L, k, j) && |L[k].blocks| > 1 && (bet == 0 || bet == L[k].addr)
    ensures var M := L[k := Delete(L[k], j)]; AtMost(M, FreeOf(M, bet)) <==> bet != 0
  {
    var M := L[k := Delete(L[k], j)];
    KeptRun(L, bet, k, j);
    RunFree(L, k);
    NullFree(L);
    FreeOfIs(L, k);
    hide FreeOf; hide Wf; hide FreeBytes; hide Delete;
    if bet == 0 {
      assert FreeBytes(M[k]) > 0;
    } else {
      assert forall i :: 0 <= i < |L| && i != k ==> M[i] == L[i];
    }
  }

  /** The run freed in is not the hint: no run has more than m if neither of the two has. */
  lemma KeptOther(L: Layout, bet: nat, k: nat, j: nat, m: int)
    requires Wf(L) && Listed(L, bet) && AtMost(L, FreeOf(L, bet)) && At(L, k, j) && |L[k].blocks| > 1 && bet != L[k].addr
    ensures AtMost(L[k := Delete(L[k], j)], m) <==>
            FreeOf(L, bet) <= m && FreeBytes(L[k]) + L[k].blocks[j].size + HEADER <= m
  {
    var M := L[k := Delete(L[k], j)];
    KeptRun(L, bet, k, j);
    var i :| 0 <= i < |L| && L[i].addr == bet;
    FreeOfIs(L, i);
    hide FreeOf; hide Wf; hide FreeBytes; hide Listed; hide Delete;
    Raised(L, M, k, i, FreeOf(L, bet), m);
  }

  lemma KeptIff(L: Layout, bet: nat, k: nat, j: nat)
    requires Wf(L) && (bet == 0 || Listed(L, bet)) && AtMost(L, FreeOf(L, bet)) && At(L, k, j) && |L[k].blocks| > 1
    ensures var M, r, d := L[k := Delete(L[k], j)], L[k].addr, L[k].blocks[j].size + HEADER;
            var b := if bet != 0 && ToInt32(FreeOf(M, r)) > ToInt32(FreeOf(M, bet)) then r else bet;
            AtMost(M, FreeOf(M, b)) <==> FreeKeeps(L, bet, k, d)
  {
    KeptRun(L, bet, k, j);
    if bet == 0 || bet == L[k].addr {
      KeptSame(L, bet, k, j);
    } else {
      KeptOther(L, bet, k, j, FreeOf(L, bet));
      KeptOther(L, bet, k, j, FreeBytes(L[k]) + L[k].blocks[j].size + HEADER);
    }
    RunFree(L, k);
    hide FreeOf; hide Wf; hide FreeBytes; hide Listed; hide Delete; hide AtMost;
  }

  /** Run i had the most, n; then only run k changed: no run has more than m if and only if neither does. */
  lemma Raised(L: Layout, M: Layout, k: nat, i: nat, n: int, m: int)
    requires |L| == |M| && k < |L| && i < |L| && i != k && AtMost(L, n) && FreeBytes(L[i]) == n
    requires forall x :: 0 <= x < |L| && x != k ==> M[x] == L[x]
    ensures AtMost(M, m) <==> n <= m && FreeBytes(M[k]) <= m
  {
    hide FreeBytes;
    if AtMost(M, m) { assert FreeBytes(M[i]) <= m; }
  }

  /** A free keeps a hint that was the roomiest run so if and only if `FreeKeeps` holds of the run freed in. */
  lemma FreeRoomiestIff(s: Point, k: nat, j: nat, released: seq<(nat, nat)>, t: Point)
    requires Good(s) && Roomiest(s) && At(s.layout, k, j) && Freed(s, s.layout[k].blocks[j].addr, released, t)
    ensures Roomiest(t) <==> FreeKeeps(s.layout, s.bet, k, s.layout[k].blocks[j].size + HEADER)
  {
    var L := s.layout;
    FreeAtIs(L, k, j);
    HolderIs(L, k, j);
    hide FreeOf; hide FreeBytes; hide AtMost;
    if |L[k].blocks| == 1 { DroppedIff(L, s.bet, k, L[k].blocks[j].size + HEADER); } else { KeptIff(L, s.bet, k, j); }
  }

  // ---- Whole runs ----------------------------------------------------------------------------------------

  lemma ShrunkFree(L: Layout, k: nat, j: nat, req: nat, i: nat)
    requires At(L, k, j) && i < |L|
    ensures FreeBytes(Shrunk(L, k, j, req)[i]) == FreeBytes(L[i]) && Shrunk(L, k, j, req)[i].addr == L[i].addr
  {
    ShrinkKeepsPayload(L[k].blocks, j, req);
  }

  lemma ShrinkRoomiest(s: Point, k: nat, j: nat, req: nat, t: Point)
    requires Good(s) && Roomiest(s) && ShrunkTo(s, k, j, req, t)
    ensures Roomiest(t)
  {
    hide Shrunk; hide FreeBytes;
    var L, M := s.layout, t.layout;
    assert Wf(M) by { ShrunkWf(L, k, j, req); }
    assert |M| == |L| by { assert |Shrunk(L, k, j, req)| == |L| by { ShrunkLength(L, k, j, req); } }
    forall i | 0 <= i < |L| ensures FreeBytes(M[i]) == FreeBytes(L[i]) && M[i].addr == L[i].addr { ShrunkFree(L, k, j, req, i); }
    assert FreeOf(M, s.bet) == FreeOf(L, s.bet) by {
      if s.bet == 0 {
        NullFree(L);
        NullFree(M);
      } else {
        var i :| 0 <= i < |L| && L[i].addr == s.bet;
        FreeOfIs(L, i);
        FreeOfIs(M, i);
      }
    }
    hide FreeOf; hide Wf;
  }

  lemma ShrunkLength(L: Layout, k: nat, j: nat, req: nat)
    requires At(L, k, j)
    ensures |Shrunk(L, k, j, req)| == |L|
  {
  }

  /** The condition on a step, whichever call it is. */
  ghost predicate StepKeeps(s: Point, t: Point) {
    && (forall req, page, asked :: Malloced(s, req, page, asked, t) ==> MallocKeeps(s, req, page))
    && forall a, released :: Freed(s, a, released, t) ==>
         exists k, j :: At(s.layout, k, j) && s.layout[k].blocks[j].addr == a &&
                        FreeKeeps(s.layout, s.bet, k, s.layout[k].blocks[j].size + HEADER)
  }

  lemma StepRoomiestIff(s: Point, t: Point)
    requires Good(s) && Roomiest(s) && Step(s, t)
    ensures Roomiest(t) <==> StepKeeps(s, t)
  {
    hide Malloced; hide ShrunkTo; hide Good; hide Roomiest; hide MallocKeeps; hide FreeKeeps;
    forall req, page, asked | Malloced(s, req, page, asked, t) ensures Roomiest(t) <==> MallocKeeps(s, req, page) {
      MallocRoomiestIff(s, req, page, asked, t);
    }
    forall a, released, k, j | Freed(s, a, released, t) && At(s.layout, k, j) && s.layout[k].blocks[j].addr == a
      ensures Roomiest(t) <==> FreeKeeps(s.layout, s.bet, k, s.layout[k].blocks[j].size + HEADER)
    {
      FreeRoomiestIff(s, k, j, released, t);
    }
    if k, j, req :| ShrunkTo(s, k, j, req, t) { ShrinkRoomiest(s, k, j, req, t); }
  }

  /** In any run of the allocator the comment on the hint is true throughout if and only if every
      step meets its condition. */
  lemma RunRoomiestIff(run: seq<Point>)
    requires IsRun(run)
    ensures (forall i :: 0 <= i < |run| ==> Roomiest(run[i])) <==>
            forall i :: 0 <= i < |run| - 1 ==> StepKeeps(run[i], run[i + 1])
  {
    hide Roomiest; hide StepKeeps; hide Step; hide Good;
    if forall i :: 0 <= i < |run| - 1 ==> StepKeeps(run[i], run[i + 1]) {
      forall i | 0 <= i < |run| ensures Roomiest(run[i]) { KeepingRun(run, i); }
    }
    if forall i :: 0 <= i < |run| ==> Roomiest(run[i]) {
      forall i | 0 <= i < |run| - 1 ensures StepKeeps(run[i], run[i + 1]) {
        RunsStayGood(run, i);
        StepRoomiestIff(run[i], run[i + 1]);
      }
    }
  }

  lemma {:induction false} KeepingRun(run: seq<Point>, i: nat)
    requires IsRun(run) && i < |run| && forall i :: 0 <= i < |run| - 1 ==> StepKeeps(run[i], run[i + 1])
    ensures Roomiest(run[i])
  {
    hide StepKeeps; hide Step; hide Good;
    if i > 0 {
      KeepingRun(run, i - 1);
      RunsStayGood(run, i - 1);
      StepRoomiestIff(run[i - 1], run[i]);
    }
  }

  // ---- The comment fails -----------------------------------------------------------------------------------

  /** A malloc served from gap g of run k of a heap whose hint is its roomiest run. */
  lemma ServedStep(s: Point, req: nat, k: nat, g: nat)
    requires Good(s) && Roomiest(s) && Search(s.layout, StartOf(s.layout, s.bet, req + PAD), req + PAD) == Some(k, g)
    ensures FitsAt(s.layout, k, g, req + PAD)
    ensures Step(s, Point(Inserted(s.layout, k, g, req + PAD, req), s.bet))
  {
    var start := StartOf(s.layout, s.bet, req + PAD);
    SearchComplete(s.layout, start, req + PAD);
    PassesIdle(s, start, Some(k, g));
    hide Passes; hide FreeOf; hide StartOf;
    assert Malloced(s, req, 0, false, Point(Inserted(s.layout, k, g, req + PAD, req), s.bet));
  }

  /** A malloc that obtains a run for such a heap. */
  lemma GrowStep(s: Point, req: nat, page: nat)
    requires Good(s) && Roomiest(s) && Search(s.layout, StartOf(s.layout, s.bet, req + PAD), req + PAD) == None
    requires page != 0 && HookOk(s.layout, page, req + PAD)
    ensures var b := GrowHint(s.layout, req + PAD, page, Best(s.bet, FreeOf(s.layout, s.bet)));
            Step(s, Point(Grown(s.layout, page, req + PAD, req), b.bet))
  {
    var start := StartOf(s.layout, s.bet, req + PAD);
    PassesIdle(s, start, None);
    hide Passes; hide FreeOf; hide StartOf; hide GrowHint;
    var b := GrowHint(s.layout, req + PAD, page, Best(s.bet, FreeOf(s.layout, s.bet)));
    assert Malloced(s, req, page, true, Point(Grown(s.layout, page, req + PAD, req), b.bet));
  }

  const B1 := Block(0x1018, 1000, 968)
  const B2 := Block(0x1418, 63532, 63500)
  const B3 := Block(0x100018, 1100, 1068)
  const B4 := Block(0x1418, 232, 200)
  const SECOND := Run(0x100000, 16, [B3])

  /** malloc(968), malloc(63500), malloc(1068), which grows, free of the second block, malloc(200). */
  const CALLS := [Point([], 0),
                  Point([Run(0x1000, 16, [B1])], 0x1000),
                  Point([Run(0x1000, 16, [B1, B2])], 0x1000),
                  Point([Run(0x1000, 16, [B1, B2]), SECOND], 0x1000),
                  Point([Run(0x1000, 16, [B1]), SECOND], 0x1000),
                  Point([Run(0x1000, 16, [B1, B4]), SECOND], 0x1000)]

  lemma Sizes()
    ensures FreeBytes(Run(0x1000, 16, [B1])) == 64488 && FreeBytes(Run(0x1000, 16, [B1, B2])) == 932
    ensures FreeBytes(SECOND) == 64388 && FreeBytes(Run(0x1000, 16, [B1, B4])) == 64232
    ensures FreeBytes(Run(0x1000, 16, [])) == 65512
  {
    PayloadOne(B1);
    PayloadOne(B2);
    PayloadOne(B3);
    PayloadOne(B4);
    assert [B1, B2] == [B1] + [B2] && [B1, B4] == [B1] + [B4];
    PayloadConcat([B1], [B2]);
    PayloadConcat([B1], [B4]);
  }

  /** On a heap whose first run is the hint, the search looks at the runs in list order. */
  lemma FromHint(s: Point, size: nat)
    requires Good(s) && s.layout != [] && s.layout[0].addr == s.bet
    ensures StartOf(s.layout, s.bet, size) == 0 && FreeOf(s.layout, s.bet) == FreeBytes(s.layout[0])
  {
    StartIs(s.layout, s.bet, size, 0);
    FreeOfIs(s.layout, 0);
  }

  lemma FirstCall()
    ensures Good(CALLS[0]) && Roomiest(CALLS[0]) && Step(CALLS[0], CALLS[1]) && Good(CALLS[1])
  {
    Sizes();
    NullFree([]);
    assert StartOf([], 0, 1000) == 0;
    GrowStep(CALLS[0], 968, 0x1000);
    assert PagesFor(1000) == 16;
    assert Insert(Fresh(0x1000, 1000), 0, 1000, 968).blocks == [B1];
    assert Grown([], 0x1000, 1000, 968) == CALLS[1].layout;
    StepGood(CALLS[0], CALLS[1]);
  }

  lemma SecondCall()
    requires Good(CALLS[1])
    ensures Roomiest(CALLS[1]) && Step(CALLS[1], CALLS[2]) && Good(CALLS[2])
  {
    Sizes();
    var s := CALLS[1];
    FromHint(s, 63532);
    assert FitGap(s.layout[0], 0, 63532) == FitGap(s.layout[0], 1, 63532) == 1;
    ServedStep(s, 63500, 0, 1);
    assert Insert(s.layout[0], 1, 63532, 63500).blocks == [B1, B2];
    assert Inserted(s.layout, 0, 1, 63532, 63500) == CALLS[2].layout;
    StepGood(s, CALLS[2]);
  }

  lemma ThirdCall()
    requires Good(CALLS[2])
    ensures Roomiest(CALLS[2]) && Step(CALLS[2], CALLS[3]) && Good(CALLS[3]) && !Roomiest(CALLS[3])
  {
    Sizes();
    var s := CALLS[2];
    FromHint(s, 1100);
    assert FitGap(s.layout[0], 0, 1100) == FitGap(s.layout[0], 1, 1100) == FitGap(s.layout[0], 2, 1100) == 3;
    assert FitFrom(s.layout, 1, 1100) == None == FitFrom(s.layout, 0, 1100);
    assert Search(s.layout, 0, 1100) == None;
    assert PagesFor(1100) == 16;
    GrowStep(s, 1068, 0x100000);
    assert Insert(Fresh(0x100000, 1100), 0, 1100, 1068).blocks == [B3];
    assert Grown(s.layout, 0x100000, 1100, 1068) == CALLS[3].layout;
    StepGood(s, CALLS[3]);
    FromHint(CALLS[3], 0);
    assert FreeBytes(CALLS[3].layout[1]) == 64388;
  }

  lemma FourthCall()
    requires Good(CALLS[3])
    ensures Step(CALLS[3], CALLS[4]) && Good(CALLS[4]) && Roomiest(CALLS[4])
  {
    Sizes();
    var s := CALLS[3];
    FreeAtIs(s.layout, 0, 1);
    HolderIs(s.layout, 0, 1);
    assert Delete(s.layout[0], 1).blocks == [B1];
    assert Removed(s.layout, 0, 1) == CALLS[4].layout;
    assert Freed(s, 0x1418, [], CALLS[4]);
    StepGood(s, CALLS[4]);
    FromHint(CALLS[4], 0);
  }

  lemma FifthCall()
    requires Good(CALLS[4]) && Roomiest(CALLS[4])
    ensures Step(CALLS[4], CALLS[5]) && !Roomiest(CALLS[5])
  {
    Sizes();
    var s := CALLS[4];
    FromHint(s, 232);
    assert FitGap(s.layout[0], 0, 232) == FitGap(s.layout[0], 1, 232) == 1;
    ServedStep(s, 200, 0, 1);
    assert Insert(s.layout[0], 1, 232, 200).blocks == [B1, B4];
    assert Inserted(s.layout, 0, 1, 232, 200) == CALLS[5].layout;
    StepGood(s, CALLS[5]);
    FromHint(CALLS[5], 0);
    assert FreeBytes(CALLS[5].layout[1]) == 64388;
  }

  /** A run from the empty heap in which the comment is false after the third call, which obtains a
      run, true again after the fourth, and false after the fifth, which is served from the hint. */
  lemma HintCommentFails()
    ensures IsRun(CALLS) && !Roomiest(CALLS[3]) && Roomiest(CALLS[4]) && !Roomiest(CALLS[5])
  {
    hide Step; hide Good; hide Roomiest;
    FirstCall();
    SecondCall();
    ThirdCall();
    FourthCall();
    FifthCall();
  }
}
