/** Whole runs of the allocator: any interleaving of malloc, free and shrinking realloc from the
    empty heap, with any page hook that keeps its promise. A growing realloc is a malloc followed
    by a free. */
module HeapRuns {
  import opened HeapLayout
  import opened HeapSteps

  datatype Point = Point(layout: Layout, bet: nat)

  ghost predicate Good(s: Point) {
    Wf(s.layout) && (s.bet == 0 || Listed(s.layout, s.bet))
  }

  ghost predicate Malloced(s: Point, req: nat, page: nat, asked: bool, t: Point) {
    HookOk(s.layout, page, req + PAD) && MallocStep(s.layout, s.bet, req, page, t.layout, t.bet, asked)
  }

  ghost predicate Freed(s: Point, a: nat, released: seq<(nat, nat)>, t: Point) {
    FreeStep(s.layout, s.bet, a, t.layout, t.bet, released)
  }

  ghost predicate ShrunkTo(s: Point, k: nat, j: nat, req: nat, t: Point) {
    At(s.layout, k, j) && req <= s.layout[k].blocks[j].req && t == Point(Shrunk(s.layout, k, j, req), s.bet)
  }

  ghost predicate Step(s: Point, t: Point) {
    || (exists req, page, asked :: Malloced(s, req, page, asked, t))
    || (exists a, released :: Freed(s, a, released, t))
    || (exists k, j, req :: ShrunkTo(s, k, j, req, t))
  }

  ghost predicate IsRun(run: seq<Point>) {
    && run != [] && run[0] == Point([], 0)
    && forall i :: 0 <= i < |run| - 1 ==> Step(run[i], run[i + 1])
  }

  // ---- Every step keeps the invariant ---------------------------------------------------------------

  lemma AfterMallocWf(L: Layout, bet: nat, req: nat, page: nat)
    requires Wf(L) && HookOk(L, page, req + PAD)
    ensures Wf(AfterMalloc(L, bet, req, page))
  {
    var size := req + PAD;
    var start := StartOf(L, bet, size);
    var place := Search(L, start, size);
    SearchComplete(L, start, size);
    if place.Some? {
      InsertedWf(L, place.run, place.gap, size, req);
    } else if page != 0 {
      GrownWf(L, page, size, req);
    }
  }

  /** However many runs were passed, the hint is the old one or one of the runs. */
  lemma PassesListed(L: Layout, bet: nat, start: nat, place: Place)
    requires (place.Some? ==> place.run < |L|) && (bet == 0 || Listed(L, bet))
    ensures var b := Passes(L, bet, start, place).bet; b == 0 || Listed(L, b)
  {
    var b := Best(bet, FreeOf(L, bet));
    if place.Some? && start <= place.run {
      RunningBest(L, b, start, place.run + 1);
    } else {
      RunningBest(L, b, start, |L|);
      RunningBest(L, Running(L, b, start, |L|), 0, if place.Some? then place.run + 1 else |L|);
    }
  }

  /** The hint malloc leaves is null or a listed run. */
  lemma MallocHintListed(s: Point, req: nat, page: nat, asked: bool, t: Point)
    requires Good(s) && Malloced(s, req, page, asked, t)
    ensures t.bet == 0 || Listed(t.layout, t.bet)
  {
    hide Passes; hide FreeOf;
    var L, size := s.layout, req + PAD;
    var place := Search(L, StartOf(L, s.bet, size), size);
    SearchComplete(L, StartOf(L, s.bet, size), size);
    PassesListed(L, s.bet, StartOf(L, s.bet, size), place);
    if t.bet != 0 {
      if Listed(L, t.bet) {
        var i :| 0 <= i < |L| && L[i].addr == t.bet;
        assert t.layout[i].addr == t.bet;
      } else {
        assert t.layout[|L|].addr == t.bet;
      }
    }
  }

  lemma FreeHintListed(s: Point, a: nat, released: seq<(nat, nat)>, t: Point)
    requires Good(s) && Freed(s, a, released, t)
    ensures Good(t)
  {
    var L := s.layout;
    var k, j :| At(L, k, j) && L[k].blocks[j].addr == a;
    FreeAtIs(L, k, j);
    HolderIs(L, k, j);
    RemovedWf(L, k, j);
    if t.bet != 0 { RemovedListed(L, k, j, t.bet); }
  }

  lemma RemovedListed(L: Layout, k: nat, j: nat, bet: nat)
    requires At(L, k, j) && Listed(L, bet) && (bet == L[k].addr ==> |L[k].blocks| > 1)
    ensures Listed(Removed(L, k, j), bet)
  {
    var i :| 0 <= i < |L| && L[i].addr == bet;
    assert Removed(L, k, j)[if |L[k].blocks| == 1 && i > k then i - 1 else i].addr == bet;
  }

  lemma StepGood(s: Point, t: Point)
    requires Good(s) && Step(s, t)
    ensures Good(t)
  {
    if req, page, asked :| Malloced(s, req, page, asked, t) {
      AfterMallocWf(s.layout, s.bet, req, page);
      MallocHintListed(s, req, page, asked, t);
    } else if a, released :| Freed(s, a, released, t) {
      FreeHintListed(s, a, released, t);
    } else {
      var k, j, req :| ShrunkTo(s, k, j, req, t);
      ShrunkWf(s.layout, k, j, req);
      if s.bet != 0 {
        var i :| 0 <= i < |s.layout| && s.layout[i].addr == s.bet;
        assert t.layout[i].addr == s.bet;
      }
    }
  }

  /** In every state of every run the runs and blocks are in order, disjoint and inside their runs,
      no listed run is empty, and the hint is null or a listed run. */
  lemma {:induction false} RunsStayGood(run: seq<Point>, i: nat)
    requires IsRun(run) && i < |run|
    ensures Good(run[i])
  {
    if i > 0 {
      RunsStayGood(run, i - 1);
      StepGood(run[i - 1], run[i]);
    }
  }

  // ---- Free undoes malloc --------------------------------------------------------------------------

  /** Freeing the block malloc just handed out restores the layout, and with it both totals; a run
      obtained for it, and no other, goes back to the page hook. */
  lemma MallocThenFree(s: Point, req: nat, page: nat, asked: bool, t: Point, released: seq<(nat, nat)>, u: Point)
    requires Good(s) && Malloced(s, req, page, asked, t)
    requires HeaderFor(s.layout, s.bet, req, page) != 0
    requires Freed(t, HeaderFor(s.layout, s.bet, req, page), released, u)
    ensures u.layout == s.layout
    ensures released == if asked then [(page, PagesFor(req + PAD))] else []
  {
    hide MallocHint; hide FreeOf;
    var L, size := s.layout, req + PAD;
    var start := StartOf(L, s.bet, size);
    var place := Search(L, start, size);
    SearchComplete(L, start, size);
    if place.Some? {
      UndoInsert(L, place.run, place.gap, size, req);
    } else {
      UndoGrow(L, page, size, req);
    }
  }

  lemma UndoInsert(L: Layout, k: nat, g: nat, size: nat, req: nat)
    requires Wf(L) && FitsAt(L, k, g, size) && req + PAD <= size
    ensures var M, a := Inserted(L, k, g, size, req), Lo(L[k], g);
            Live(M, a) && FreeAt(M, a) == L && Holder(M, a) == k && |M[k].blocks| > 1
  {
    FreeUndoesInsert(L, k, g, size, req);
    InsertedWf(L, k, g, size, req);
    HolderIs(Inserted(L, k, g, size, req), k, g);
  }

  lemma UndoGrow(L: Layout, page: nat, size: nat, req: nat)
    requires Wf(L) && page != 0 && HookOk(L, page, size) && req + PAD <= size
    ensures var M, a := Grown(L, page, size, req), page + HEADER;
            && Live(M, a) && FreeAt(M, a) == L && Holder(M, a) == |L|
            && M[|L|].addr == page && M[|L|].pages == PagesFor(size) && |M[|L|].blocks| == 1
  {
    FreeUndoesGrow(L, page, size, req);
    GrownWf(L, page, size, req);
    hide WfOpen; hide Wf; hide HookOk; hide FreeAt;
    HolderIs(Grown(L, page, size, req), |L|, 0);
  }
}
