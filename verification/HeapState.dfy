/** The state of the liballoc allocator as a value: headers by address, counters, memory and the
    layout they stand for, with what each stage of malloc, free and realloc does to it. */
module HeapState {
  import opened Memory
  import opened HeapLayout
  import opened HeapSteps
  import opened HeapLinks

  // ---- Pointers handed to callers -----------------------------------------------------------

  /** The pointer malloc returns for a header at `a`. */
  function PtrOf(a: nat): nat {
    var q := a + HEADER + ALIGN_INFO;
    if q % ALIGNMENT == 0 then q else q + (ALIGNMENT - q % ALIGNMENT)
  }

  function PtrFor(a: nat): nat {
    if a == 0 then 0 else PtrOf(a)
  }

  /** The header free and realloc look at for a pointer: UNALIGN, then one header back. */
  function HeaderOf(mem: seq<byte>, ptr: nat): int
    requires ALIGN_INFO <= ptr < |mem| + ALIGN_INFO
  {
    var diff := mem[ptr - ALIGN_INFO];
    (if diff < ALIGNMENT + ALIGN_INFO then ptr - diff else ptr) - HEADER
  }

  /** The distance back to the header is stored ALIGN_INFO bytes below the pointer. */
  predicate Stamped(mem: seq<byte>, a: nat) {
    && PtrOf(a) < |mem| + ALIGN_INFO
    && mem[PtrOf(a) - ALIGN_INFO] == PtrOf(a) - (a + HEADER)
  }

  ghost predicate StampsOk(mem: seq<byte>, L: Layout) {
    forall k, j :: At(L, k, j) ==> Stamped(mem, L[k].blocks[j].addr)
  }

  /** A returned pointer is 16-aligned; its stamp and its payload lie in the block's own bytes. */
  lemma PtrInside(b: Block)
    requires Padded(b)
    ensures PtrOf(b.addr) % ALIGNMENT == 0
    ensures b.addr + HEADER <= PtrOf(b.addr) - ALIGN_INFO < PtrOf(b.addr) <= PtrOf(b.addr) + b.req <= End(b)
  {
  }

  /** The pointer is the first 16-aligned address 40 or more bytes above the header. */
  lemma PtrLeast(a: nat)
    ensures PtrOf(a) % 16 == 0 && PtrOf(a) >= a + 40 && forall x :: x % 16 == 0 && x >= a + 40 ==> PtrOf(a) <= x
  {
    forall x | x % 16 == 0 && x >= a + 40 ensures PtrOf(a) <= x {
      var u, v := x / 16, PtrOf(a) / 16;
      assert x == 16 * u && PtrOf(a) == 16 * v && PtrOf(a) < a + 56;
    }
  }

  /** UNALIGN recovers exactly the header of every live block. */
  lemma UnalignExact(mem: seq<byte>, a: nat)
    requires Stamped(mem, a)
    ensures HeaderOf(mem, PtrOf(a)) == a
  {
  }

  /** A pointer is taken as it is, a header behind its block, exactly if the byte 16 below it is no
      distance malloc stores. */
  lemma BarePointer(mem: seq<byte>, ptr: nat)
    requires 16 <= ptr < |mem| + 16
    ensures HeaderOf(mem, ptr) == ptr - 24 - (if mem[ptr - 16] < 32 then mem[ptr - 16] else 0)
    ensures HeaderOf(mem, ptr) == ptr - 24 <==> mem[ptr - 16] == 0 || mem[ptr - 16] >= 32
  {
  }

  // ---- Memory frames --------------------------------------------------------------------------

  lemma StampsKept(m: seq<byte>, m': seq<byte>, L: Layout, k: nat, g: nat, size: nat, req: nat)
    requires WfOpen(L) && FitsAt(L, k, g, size) && req + PAD <= size
    requires StampsOk(m, L) && SameOutside(m, m', Lo(L[k], g) + HEADER, Lo(L[k], g) + HEADER + size)
    requires Stamped(m', Lo(L[k], g))
    ensures StampsOk(m', Inserted(L, k, g, size, req))
  {
    var M := Inserted(L, k, g, size, req);
    hide Stamped; hide SameOutside;
    forall i, j | At(M, i, j) ensures Stamped(m', M[i].blocks[j].addr) {
      if !(i == k && j == g) {
        var o := if i == k && j > g then j - 1 else j;
        assert At(L, i, o) && L[i].blocks[o] == M[i].blocks[j];
        StampKept(m, m', L, k, g, size, i, o);
      }
    }
  }

  lemma StampKept(m: seq<byte>, m': seq<byte>, L: Layout, k: nat, g: nat, size: nat, i: nat, j: nat)
    requires WfOpen(L) && FitsAt(L, k, g, size) && At(L, i, j) && StampsOk(m, L)
    requires SameOutside(m, m', Lo(L[k], g) + HEADER, Lo(L[k], g) + HEADER + size)
    ensures Stamped(m', L[i].blocks[j].addr)
  {
    var b := L[i].blocks[j];
    assert Stamped(m, b.addr);
    assert WfRun(L[i]) && Padded(b);
    PtrInside(b);
    GapApart(L, k, g, i, j);
    hide WfOpen; hide WfRun; hide StampsOk; hide PtrOf;
  }

  /** The header of the run at `m` after a block of `size` bytes went into its gap g. */
  function Charged(majors: Majors, m: nat, g: nat, size: nat): Majors
    requires m in majors
  {
    majors[m := majors[m].(usage := majors[m].usage + size + HEADER,
                           first := if g == 0 then m + HEADER else majors[m].first)]
  }

  // ---- State ------------------------------------------------------------------------------------

  /** One state of the allocator, with the layout it represents. */
  datatype Snap = Snap(majors: Majors, minors: Minors, memRoot: nat, bestBet: nat,
                       held: int, inuse: int, mem: seq<byte>, layout: Layout)

  /** Lists, counters, stamps and hint agree with the layout. A run just obtained may be empty. */
  ghost predicate Consistent(s: Snap) {
    && |s.mem| == ADDRESS_SPACE
    && WfOpen(s.layout)
    && MajorsOk(s.majors, s.layout)
    && MinorsOk(s.minors, s.layout)
    && DeadOk(s.minors, s.layout)
    && StampsOk(s.mem, s.layout)
    && 0 !in s.majors
    && s.memRoot == RunAddr(s.layout, 0)
    && (s.bestBet == 0 || Listed(s.layout, s.bestBet))
    && s.held == TotalBytes(s.layout)
    && s.inuse == TotalInUse(s.layout)
  }

  /** What every placement in gap g of run k achieves. */
  ghost predicate Placed(s: Snap, t: Snap, k: nat, g: nat, size: nat, req: nat, p: nat) {
    && FitsAt(s.layout, k, g, size)
    && Consistent(t)
    && t.layout == Inserted(s.layout, k, g, size, req)
    && t.bestBet == s.bestBet
    && p == PtrOf(Lo(s.layout[k], g))
    && SameOutside(s.mem, t.mem, Lo(s.layout[k], g) + HEADER, Lo(s.layout[k], g) + HEADER + size)
    && Delivered(s.mem, t.mem, p, req, !Behind(s.layout[k], g))
  }

  lemma PlacedInv(s: Snap, t: Snap, k: nat, g: nat, size: nat, req: nat, p: nat)
    requires Placed(s, t, k, g, size, req, p)
    ensures Consistent(t)
  {
  }

  /** Gap g is the room behind the last block of a run in use: CASE 4.1. */
  predicate Behind(r: Run, g: nat) {
    r.blocks != [] && g == |r.blocks|
  }

  /** The payload is cleared, or else only the stamp has been written. */
  ghost predicate Delivered(m: seq<byte>, m': seq<byte>, p: nat, req: nat, clear: bool) {
    && p + req <= |m'|
    && if clear then forall x :: p <= x < p + req ==> m'[x] == 0
       else SameOutside(m, m', p - ALIGN_INFO, p - ALIGN_INFO + 1)
  }

  lemma PlacedConsistent(s: Snap, t: Snap, k: nat, g: nat, size: nat, req: nat)
    requires Consistent(s) && FitsAt(s.layout, k, g, size) && req + PAD <= size
    requires g > 0 ==> s.layout[k].blocks[g - 1].addr in s.minors
    requires g < |s.layout[k].blocks| ==> s.layout[k].blocks[g].addr in s.minors
    requires s.layout[k].addr in s.majors
    requires t == s.(majors := Charged(s.majors, s.layout[k].addr, g, size),
                     minors := Linked(s.minors, s.layout[k], g, size, req),
                     inuse := s.inuse + size,
                     mem := t.mem,
                     layout := Inserted(s.layout, k, g, size, req))
    requires SameOutside(s.mem, t.mem, Lo(s.layout[k], g) + HEADER, Lo(s.layout[k], g) + HEADER + size)
    requires Stamped(t.mem, Lo(s.layout[k], g))
    ensures Consistent(t)
  {
    var L := s.layout;
    assert WfOpen(t.layout) && t.held == TotalBytes(t.layout) && t.inuse == TotalInUse(t.layout) by {
      InsertedWf(L, k, g, size, req);
    }
    assert MajorsOk(t.majors, t.layout) by {
      InsertWf(L[k], g, size, req);
      RunsDiffer(L);
      UpdatedMajors(s.majors, L, k, Insert(L[k], g, size, req));
    }
    assert MinorsOk(t.minors, t.layout) by { LinkedOk(s.minors, L, k, g, size, req); }
    assert DeadOk(t.minors, t.layout) by { LinkedDead(s.minors, L, k, g, size, req); }
    assert StampsOk(t.mem, t.layout) by { StampsKept(s.mem, t.mem, L, k, g, size, req); }
    assert s.bestBet == 0 || Listed(t.layout, s.bestBet) by { InsertedListed(L, k, g, size, req, s.bestBet); }
    hide MajorsOk; hide MinorsOk; hide DeadOk; hide StampsOk; hide WfOpen; hide FitsAt; hide SameOutside; hide Stamped;
    hide Linked; hide Listed; hide Charged;
    assert t.memRoot == RunAddr(t.layout, 0);
  }

  lemma InsertedListed(L: Layout, k: nat, g: nat, size: nat, req: nat, bet: nat)
    requires k < |L| && g <= |L[k].blocks| && (bet == 0 || Listed(L, bet))
    ensures bet == 0 || Listed(Inserted(L, k, g, size, req), bet)
  {
    if bet != 0 {
      var i :| 0 <= i < |L| && L[i].addr == bet;
      assert Inserted(L, k, g, size, req)[i].addr == bet;
    }
  }

  /** The neighbours of gap g survive a write to it and are distinct from a header placed there. */
  ghost predicate Room(minors: Minors, r: Run, g: nat, size: nat) {
    && g <= |r.blocks|
    && (g > 0 ==> Neighbour(minors, r, g, size, g - 1))
    && (g < |r.blocks| ==> Neighbour(minors, r, g, size, g))
    && (0 < g < |r.blocks| ==> r.blocks[g - 1].addr != r.blocks[g].addr)
  }

  ghost predicate Neighbour(minors: Minors, r: Run, g: nat, size: nat, j: nat)
    requires g <= |r.blocks| && j < |r.blocks|
  {
    var b := r.blocks[j].addr;
    && b != Lo(r, g) && b in minors && minors[b] == MinorOf(r, j)
    && (b + HEADER <= Lo(r, g) || Lo(r, g) + HEADER + size <= b)
  }

  /** The new header and its two neighbours, spelled out. */
  lemma InnerLinked(minors: Minors, r: Run, g: nat, size: nat, req: nat)
    requires 0 < g < |r.blocks| && Room(minors, r, g, size)
    ensures var a, min, next := Lo(r, g), r.blocks[g - 1].addr, r.blocks[g].addr;
            var w := Wipe(minors, a, a + HEADER + size)[a := Minor(min, next, r.addr, MAGIC, size, req)];
            && min in minors && a == min + HEADER + minors[min].size && next == minors[min].next && next in w
            && var w' := w[next := w[next].(prev := a)];
               min in w' && Linked(minors, r, g, size, req) == w'[min := w'[min].(next := a)]
  {
    var s := Insert(r, g, size, req);
    assert s.blocks[g - 1] == r.blocks[g - 1] && s.blocks[g + 1] == r.blocks[g];
  }

  lemma RoomInGap(minors: Minors, L: Layout, k: nat, g: nat, size: nat)
    requires WfOpen(L) && FitsAt(L, k, g, size) && MinorsOk(minors, L)
    ensures Room(minors, L[k], g, size)
    ensures Lo(L[k], g) + HEADER + size <= ADDRESS_SPACE
  {
    GapInside(L[k], g);
    if g > 0 { assert At(L, k, g - 1) && MinorOk(minors, L[k], g - 1); GapApart(L, k, g, k, g - 1); }
    if g < |L[k].blocks| { assert At(L, k, g) && MinorOk(minors, L[k], g); GapApart(L, k, g, k, g); }
    if 0 < g < |L[k].blocks| { LiveBlocksApart(L, k, g - 1, k, g); }
  }

  /** What placing a block behind block g - 1 of run k needs to know. */
  lemma BehindReady(s: Snap, k: nat, g: nat, size: nat)
    requires Consistent(s) && FitsAt(s.layout, k, g, size) && g > 0
    ensures s.layout[k].addr in s.majors && Room(s.minors, s.layout[k], g, size)
    ensures Lo(s.layout[k], g) + HEADER + size <= ADDRESS_SPACE
    ensures var a := s.layout[k].blocks[g - 1].addr;
            a in s.minors && (s.minors[a].next == 0 <==> g == |s.layout[k].blocks|)
  {
    assert MajorOk(s.majors, s.layout, k);
    assert At(s.layout, k, g - 1) && MinorOk(s.minors, s.layout[k], g - 1);
    RoomInGap(s.minors, s.layout, k, g, size);
    if g < |s.layout[k].blocks| { BlockInside(s.layout[k], g); }
  }

  lemma GrownConsistent(s: Snap, t: Snap, page: nat, size: nat)
    requires Consistent(s) && page != 0 && HookOk(s.layout, page, size)
    requires s.layout != [] ==> s.layout[|s.layout| - 1].addr in s.majors
    requires t == s.(majors := Appended(s.majors, s.layout, Fresh(page, size)),
                     minors := Wipe(s.minors, page, page + Bytes(Fresh(page, size))),
                     memRoot := if s.layout == [] then page else s.memRoot,
                     held := s.held + PagesFor(size) * PAGE_SIZE,
                     layout := s.layout + [Fresh(page, size)])
    ensures Consistent(t)
  {
    var L := s.layout;
    AppendedWf(L, page, size);
    RunsDiffer(t.layout);
    AppendedMajors(s.majors, L, Fresh(page, size));
    AppendedMinors(s.minors, L, page, size);
    forall k, j | At(t.layout, k, j) ensures Stamped(t.mem, t.layout[k].blocks[j].addr) {
      assert At(L, k, j);
    }
    if s.bestBet != 0 {
      var i :| 0 <= i < |L| && L[i].addr == s.bestBet;
      assert t.layout[i].addr == s.bestBet;
    }
  }

  lemma LastRun(s: Snap, page: nat, size: nat)
    requires Consistent(s) && HookOk(s.layout, page, size)
    ensures s.layout != [] ==>
              var last := s.layout[|s.layout| - 1].addr;
              last in s.majors && s.majors[last].next == 0 && last != page && last != 0
  {
    if s.layout != [] {
      assert MajorOk(s.majors, s.layout, |s.layout| - 1);
      assert WfRun(s.layout[|s.layout| - 1]);
      if page != 0 {
        GapInside(s.layout[|s.layout| - 1], 0);
        assert Apart(s.layout[|s.layout| - 1], Fresh(page, size));
      }
    }
  }

  // ---- The search loop of malloc ------------------------------------------------------------------

  /** What a call of malloc is looking for: the layout and hint it found, the request, the answer
      the page hook would give, and whether the hinted run is tried first. */
  datatype Quest = Quest(L: Layout, bet: nat, req: nat, page: nat, betFirst: bool) {
    function Size(): nat { req + PAD }
    ghost function Start(): nat { StartOf(L, bet, Size()) }
    ghost function Goal(): Place { Search(L, Start(), Size()) }
    function Bigger(): Layout { L + [Fresh(page, Size())] }
  }

  /** The hint when runs up to k, not included, have been compared, in the first pass or after the
      restart from the root. */
  ghost function HintSoFar(q: Quest, started: bool, k: nat): Best
    requires k <= |q.L|
  {
    var b := Best(q.bet, FreeOf(q.L, q.bet));
    if q.betFirst && !started then Running(q.L, Running(q.L, b, q.Start(), |q.L|), 0, k)
    else Running(q.L, b, q.Start(), k)
  }

  /** Run k of the runs G is next; whatever the whole search will find lies in run k or behind it,
      or, before a restart, possibly still behind the root. */
  ghost predicate Heading(q: Quest, G: Layout, started: bool, k: nat) {
    && k < |G| && k <= |q.L|
    && (started ==> q.betFirst && q.Start() <= k)
    && (!q.betFirst ==> q.Start() == 0)
    && (q.betFirst && !started ==> FitFrom(q.L, q.Start(), q.Size()) == None)
    && if G == q.L then
         q.Goal() == (if started && FitFrom(q.L, k, q.Size()) == None then FitFrom(q.L, 0, q.Size())
                      else FitFrom(q.L, k, q.Size()))
         && (started ==> FitFrom(q.L, q.Start(), q.Size()) == FitFrom(q.L, k, q.Size()))
       else
         G == q.Bigger() && k == |q.L| && !started && q.Goal() == None && q.page != 0
  }

  /** The loop invariant: run k is about to be compared with the hint `bet`, with `best` free bytes. */
  ghost predicate Searching(q: Quest, G: Layout, started: bool, k: nat, bet: nat, best: int) {
    && Heading(q, G, started, k)
    && (bet == 0 || Listed(G, bet))
    && Best(bet, best) == HintSoFar(q, started, k)
    && (G != q.L ==> !GrowsEarly(q.L, q.Size()))
  }

  /** The same once run k of the runs there were has been compared with the hint. */
  ghost predicate Seeing(q: Quest, started: bool, k: nat, bet: nat, best: int) {
    && Heading(q, q.L, started, k)
    && (bet == 0 || Listed(q.L, bet))
    && Best(bet, best) == HintSoFar(q, started, k + 1)
  }

  /** A run has just been obtained; nothing has been compared with it. */
  ghost predicate Arrived(q: Quest, bet: nat, best: int) {
    && Heading(q, q.Bigger(), false, |q.L|) && q.Bigger() != q.L
    && (bet == 0 || Listed(q.Bigger(), bet))
    && Best(bet, best) == HintSoFar(q, false, |q.L|)
  }

  /** The run just obtained is about to serve the request, and the hint is final. */
  ghost predicate Serving(q: Quest, bet: nat) {
    && Heading(q, q.Bigger(), false, |q.L|) && q.Bigger() != q.L
    && bet == GrowHint(q.L, q.Size(), q.page, HintSoFar(q, false, |q.L|)).bet
  }

  lemma NoteRun(q: Quest, G: Layout, started: bool, k: nat, bet: nat, best: int)
    requires Searching(q, G, started, k, bet, best)
    ensures var b := Compared(Best(bet, best), G[k]);
            && (G == q.L ==> Seeing(q, started, k, b.bet, b.free))
            && (G != q.L ==> Serving(q, b.bet) && G == q.Bigger() && k == |q.L|)
            && (b.bet == 0 || Listed(G, b.bet))
  {
  }

  /** After CASE 1 the hint is final at once; after CASE 5 the comparison is still to come. */
  lemma NewRunHint(q: Quest, bet: nat, best: int)
    requires Arrived(q, bet, best)
    ensures if GrowsEarly(q.L, q.Size()) then Serving(q, bet) else Searching(q, q.Bigger(), false, |q.L|, bet, best)
  {
  }

  /** The hint of a search that has come to the end of its last pass. */
  lemma LastPass(q: Quest)
    requires !q.betFirst ==> q.Start() == 0
    ensures HintSoFar(q, false, |q.L|) == Passes(q.L, q.bet, q.Start(), None)
  {
    if !q.betFirst { PassesFromRoot(q.L, q.bet); }
  }

  lemma NextRun(q: Quest, started: bool, k: nat, bet: nat, best: int)
    requires Seeing(q, started, k, bet, best) && FitGap(q.L[k], 0, q.Size()) > |q.L[k].blocks|
    ensures k + 1 < |q.L| ==> Searching(q, q.L, started, k + 1, bet, best)
    ensures k + 1 == |q.L| && started ==> Searching(q, q.L, false, 0, bet, best)
    ensures k + 1 == |q.L| && !started ==> q.Goal() == None && bet == Passes(q.L, q.bet, q.Start(), None).bet
  {
    hide FreeOf; hide StartOf;
    assert FitFrom(q.L, k, q.Size()) == FitFrom(q.L, k + 1, q.Size());
    assert FitFrom(q.L, |q.L|, q.Size()) == None;
    if !started { LastPass(q); }
  }

  lemma NewRun(q: Quest, k: nat, bet: nat, best: int)
    requires q.page != 0 && k + 1 == |q.L|
    requires Seeing(q, false, k, bet, best) && FitGap(q.L[k], 0, q.Size()) > |q.L[k].blocks|
    ensures Arrived(q, bet, best)
  {
    NextRun(q, false, k, bet, best);
    assert |q.Bigger()| == |q.L| + 1;
    if bet != 0 {
      var i :| 0 <= i < |q.L| && q.L[i].addr == bet;
      assert q.Bigger()[i].addr == bet;
    }
  }

  /** A hit in run k is where the whole search ends. */
  lemma FoundInRun(q: Quest, started: bool, k: nat, bet: nat, best: int)
    requires Seeing(q, started, k, bet, best) && FitGap(q.L[k], 0, q.Size()) <= |q.L[k].blocks|
    ensures q.Goal() == Some(k, FitGap(q.L[k], 0, q.Size())) && FitsAt(q.L, k, q.Goal().gap, q.Size())
    ensures bet == MallocHint(q.L, q.bet, q.req, q.page)
  {
    FitGapFirst(q.L[k], 0, q.Size());
    if q.betFirst && !started {
      FitFromFirst(q.L, q.Start(), q.Size());
      assert FitsAt(q.L, k, FitGap(q.L[k], 0, q.Size()), q.Size());
    }
  }

  /** Where malloc starts when there is a hint: at the hinted run if it looks roomy enough. */
  lemma StartWithHint(q: Quest, k: nat)
    requires WfOpen(q.L) && k < |q.L| && q.L[k].addr == q.bet
    requires q.betFirst <==> FreeBytes(q.L[k]) > q.Size() + HEADER
    ensures Searching(q, q.L, q.betFirst, if q.betFirst then k else 0, q.bet, FreeBytes(q.L[k]))
    ensures FreeOf(q.L, q.bet) == FreeBytes(q.L[k])
  {
    FreeOfIs(q.L, k);
    StartIs(q.L, q.bet, q.Size(), k);
  }

  /** Without a hint, at the root; if there was no run at all, the root has just been obtained. */
  lemma StartAtRoot(q: Quest, G: Layout)
    requires WfOpen(q.L) && WfOpen(G) && q.bet == 0 && !q.betFirst
    requires (G == q.L && G != []) || (q.L == [] && G == q.Bigger() && q.page != 0)
    ensures Searching(q, G, false, 0, 0, 0) && FreeOf(G, 0) == 0
  {
    NoHint(q.L, q.Size());
    NoHint(G, q.Size());
  }

  lemma NoHint(L: Layout, size: nat)
    requires WfOpen(L)
    ensures FreeOf(L, 0) == 0 && StartOf(L, 0, size) == 0
  {
    assert forall i :: 0 <= i < |L| ==> WfRun(L[i]);
  }

  /** malloc will use the room behind the last block of a run: its CASE 4.1. */
  ghost predicate TakesTail(L: Layout, bet: nat, req: nat) {
    var place := Search(L, StartOf(L, bet, req + PAD), req + PAD);
    place.Some? && place.run < |L| && Behind(L[place.run], place.gap)
  }

  /** What a finished call of malloc achieved, from memory m to state t. */
  ghost predicate Outcome(q: Quest, m: seq<byte>, t: Snap, asked: bool, p: nat) {
    var a := HeaderFor(q.L, q.bet, q.req, q.page);
    && MallocStep(q.L, q.bet, q.req, q.page, t.layout, t.bestBet, asked)
    && Wf(t.layout)
    && p == PtrFor(a)
    && (if p == 0 then t.mem == m else SameOutside(m, t.mem, a + HEADER, a + HEADER + q.Size()))
    && (p != 0 ==> Delivered(m, t.mem, p, q.req, !TakesTail(q.L, q.bet, q.req)))
  }

  lemma FoundOutcome(q: Quest, s: Snap, t: Snap, started: bool, k: nat, best: int, p: nat)
    requires Wf(q.L) && s.layout == q.L && Seeing(q, started, k, s.bestBet, best)
    requires FitGap(q.L[k], 0, q.Size()) <= |q.L[k].blocks|
    requires Placed(s, t, k, FitGap(q.L[k], 0, q.Size()), q.Size(), q.req, p)
    ensures Outcome(q, s.mem, t, false, p)
  {
    FoundStep(q, started, k, s.bestBet, best);
    hide Seeing; hide MallocStep; hide HeaderFor; hide TakesTail; hide SameOutside; hide Delivered; hide Search;
    assert Wf(t.layout) by { PlacedWf(s, t, k, FitGap(q.L[k], 0, q.Size()), q.Size(), q.req, p); }
    hide Consistent; hide Wf;
  }

  lemma FoundStep(q: Quest, started: bool, k: nat, bet: nat, best: int)
    requires Seeing(q, started, k, bet, best) && FitGap(q.L[k], 0, q.Size()) <= |q.L[k].blocks|
    ensures var g := FitGap(q.L[k], 0, q.Size());
            && FitsAt(q.L, k, g, q.Size())
            && MallocStep(q.L, q.bet, q.req, q.page, Inserted(q.L, k, g, q.Size(), q.req), bet, false)
            && HeaderFor(q.L, q.bet, q.req, q.page) == Lo(q.L[k], g)
            && (TakesTail(q.L, q.bet, q.req) <==> Behind(q.L[k], g))
  {
    FoundInRun(q, started, k, bet, best);
    hide Seeing; hide MallocHint; hide FreeOf; hide StartOf; hide Search; hide FitFrom; hide FitGap;
  }

  lemma PlacedWf(s: Snap, t: Snap, k: nat, g: nat, size: nat, req: nat, p: nat)
    requires Wf(s.layout) && Placed(s, t, k, g, size, req, p)
    ensures Wf(t.layout)
  {
    hide SameOutside; hide Delivered; hide MajorsOk; hide MinorsOk; hide StampsOk; hide DeadOk; hide WfRun;
  }

  /** The counters in a run's header give its free bytes. */
  lemma HeaderFree(s: Snap, k: nat)
    requires Consistent(s) && k < |s.layout|
    ensures var a := s.layout[k].addr; a in s.majors && s.majors[a].size - s.majors[a].usage == FreeOf(s.layout, a)
  {
    assert MajorOk(s.majors, s.layout, k);
    FreeOfIs(s.layout, k);
  }

  lemma FreshOutcome(q: Quest, s: Snap, t: Snap, p: nat)
    requires Wf(q.L) && s.layout == q.Bigger() && Serving(q, s.bestBet)
    requires Placed(s, t, |q.L|, 0, q.Size(), q.req, p)
    ensures Outcome(q, s.mem, t, true, p)
  {
    hide FreeOf; hide SameOutside; hide FitFrom; hide Search;
    assert t.layout == Grown(q.L, q.page, q.Size(), q.req) by { hide Serving; hide Consistent; hide Wf; }
    FreshStep(q, s.bestBet);
    assert Wf(t.layout) by { hide Serving; hide MallocStep; }
    hide Serving; hide Wf; hide MallocStep; hide Consistent;
  }

  lemma FreshStep(q: Quest, bet: nat)
    requires Serving(q, bet)
    ensures q.page != 0 && HeaderFor(q.L, q.bet, q.req, q.page) == q.page + HEADER
    ensures MallocStep(q.L, q.bet, q.req, q.page, Grown(q.L, q.page, q.Size(), q.req), bet, true)
  {
    hide FreeOf; hide FitFrom; hide HintSoFar; hide Passes;
    LastPass(q);
  }

  lemma NullOutcome(q: Quest, s: Snap, k: nat, best: int)
    requires Wf(q.L) && s.layout == q.L && q.page == 0 && k + 1 == |q.L|
    requires Seeing(q, false, k, s.bestBet, best) && FitGap(q.L[k], 0, q.Size()) > |q.L[k].blocks|
    ensures Outcome(q, s.mem, s, true, 0)
  {
    hide Passes; hide Seeing; hide FitFrom; hide Search; hide FreeOf;
    NextRun(q, false, k, s.bestBet, best);
  }

  /** A run skipped by the usage filter is not the fresh one and has no room. */
  lemma SkipSafe(q: Quest, s: Snap, k: nat)
    requires Consistent(s) && (s.layout == q.L || (s.layout == q.Bigger() && k == |q.L|)) && k < |s.layout|
    requires FreeBytes(s.layout[k]) < q.Size() + HEADER
    ensures s.layout == q.L && FitGap(q.L[k], 0, q.Size()) > |q.L[k].blocks|
  {
    FreshFits(q.page, q.Size());
    UsageFilterSafe(s.layout[k], q.Size());
  }

  lemma OutcomeIs(q: Quest, m: seq<byte>, t: Snap, asked: bool, p: nat)
    requires Outcome(q, m, t, asked, p)
    ensures MallocStep(q.L, q.bet, q.req, q.page, t.layout, t.bestBet, asked)
    ensures Wf(t.layout)
    ensures p == PtrFor(HeaderFor(q.L, q.bet, q.req, q.page))
    ensures if p == 0 then t.mem == m
            else SameOutside(m, t.mem, HeaderFor(q.L, q.bet, q.req, q.page) + HEADER,
                             HeaderFor(q.L, q.bet, q.req, q.page) + HEADER + q.Size())
    ensures p != 0 ==> Delivered(m, t.mem, p, q.req, !TakesTail(q.L, q.bet, q.req))
    ensures Asks(q.L, q.bet, q.req) == (if asked then [PagesFor(q.Size())] else []) && asked == (Asks(q.L, q.bet, q.req) != [])
  {
    hide AfterMalloc; hide HeaderFor; hide TakesTail; hide MallocHint; hide SameOutside; hide Delivered; hide Wf;
  }

  lemma EmptyHeap(s: Snap)
    requires Consistent(s) && s.memRoot == 0
    ensures s.layout == [] && s.bestBet == 0
  {
    assert forall i :: 0 <= i < |s.layout| ==> WfRun(s.layout[i]);
  }

  lemma EmptyAsks(bet: nat, req: nat)
    ensures Asks([], bet, req) == [PagesFor(req + PAD)]
  {
  }

  lemma EmptyOutcome(q: Quest, s: Snap)
    requires q.L == [] && q.bet == 0 && q.page == 0 && s.layout == [] && s.bestBet == 0
    ensures Outcome(q, s.mem, s, true, 0)
  {
    NoHint(q.L, q.Size());
  }

  lemma HintMoved(s: Snap, bet: nat)
    requires Consistent(s) && (bet == 0 || Listed(s.layout, bet))
    ensures Consistent(s.(bestBet := bet))
  {
  }

  // ---- free -----------------------------------------------------------------------------------------

  /** The header of a run once block j is gone. */
  function Discharged(majors: Majors, r: Run, j: nat): Majors
    requires r.addr in majors && j < |r.blocks|
  {
    majors[r.addr := majors[r.addr].(usage := Usage(Delete(r, j)), first := BlockAddr(Delete(r, j), 0))]
  }

  lemma StampsAfterFree(mem: seq<byte>, L: Layout, k: nat, j: nat)
    requires StampsOk(mem, L) && At(L, k, j)
    ensures StampsOk(mem, Removed(L, k, j))
  {
    var M := Removed(L, k, j);
    forall k', j' | At(M, k', j') ensures Stamped(mem, M[k'].blocks[j'].addr) {
      RemovedAt(L, k, j, k', j');
    }
  }

  lemma KeptRunConsistent(s: Snap, t: Snap, k: nat, j: nat)
    requires Consistent(s) && Wf(s.layout) && At(s.layout, k, j) && |s.layout[k].blocks| > 1
    requires MinorOk(s.minors, s.layout[k], j) && s.layout[k].addr in s.majors
    requires j > 0 ==> MinorOk(s.minors, s.layout[k], j - 1)
    requires j + 1 < |s.layout[k].blocks| ==> MinorOk(s.minors, s.layout[k], j + 1)
    requires t == s.(majors := Discharged(s.majors, s.layout[k], j),
                     minors := Unlinked(s.minors, s.layout[k], j),
                     inuse := s.inuse - s.layout[k].blocks[j].size,
                     layout := Removed(s.layout, k, j))
    ensures Consistent(t) && Wf(t.layout)
  {
    var L := s.layout;
    RemovedWf(L, k, j);
    RunsDiffer(L);
    UpdatedMajors(s.majors, L, k, Delete(L[k], j));
    UnlinkedOk(s.minors, L, k, j);
    UnlinkedDead(s.minors, L, k, j);
    StampsAfterFree(s.mem, L, k, j);
    if s.bestBet != 0 {
      var i :| 0 <= i < |L| && L[i].addr == s.bestBet;
      assert t.layout[i].addr == s.bestBet;
    }
  }

  /** The headers after the run k, whose only block went, has been spliced out. */
  function DroppedMajors(s: Snap, k: nat): Majors
    requires k < |s.layout| && |s.layout[k].blocks| == 1 && s.layout[k].addr in s.majors
  {
    Spliced(Discharged(s.majors, s.layout[k], 0), RunAddr(s.layout, k - 1), RunAddr(s.layout, k + 1), s.layout[k].addr)
  }

  function DroppedMinors(s: Snap, k: nat): Minors
    requires k < |s.layout| && |s.layout[k].blocks| == 1 && s.layout[k].blocks[0].addr in s.minors
  {
    Wipe(Unlinked(s.minors, s.layout[k], 0), s.layout[k].addr, s.layout[k].addr + Bytes(s.layout[k]))
  }

  lemma DroppedLists(s: Snap, k: nat)
    requires Consistent(s) && k < |s.layout| && |s.layout[k].blocks| == 1
    requires s.layout[k].blocks[0].addr in s.minors && s.layout[k].addr in s.majors
    ensures MajorsOk(DroppedMajors(s, k), Removed(s.layout, k, 0)) && 0 !in DroppedMajors(s, k)
    ensures MinorsOk(DroppedMinors(s, k), Removed(s.layout, k, 0))
    ensures DeadOk(DroppedMinors(s, k), Removed(s.layout, k, 0))
  {
    assert MajorsOk(DroppedMajors(s, k), Removed(s.layout, k, 0)) by {
      RunsDiffer(s.layout);
      SplicedOk(s.majors, s.layout, k, Discharged(s.majors, s.layout[k], 0)[s.layout[k].addr]);
    }
    assert MinorsOk(DroppedMinors(s, k), Removed(s.layout, k, 0)) by { DroppedOk(s.minors, s.layout, k); }
    assert DeadOk(DroppedMinors(s, k), Removed(s.layout, k, 0)) by { UnlinkedDead(s.minors, s.layout, k, 0); }
    SpliceReady(s, k);
  }

  lemma DroppedRunConsistent(s: Snap, t: Snap, k: nat)
    requires Consistent(s) && Wf(s.layout) && k < |s.layout| && |s.layout[k].blocks| == 1
    requires s.layout[k].blocks[0].addr in s.minors && s.layout[k].addr in s.majors
    requires t == s.(majors := DroppedMajors(s, k), minors := DroppedMinors(s, k),
                     memRoot := RunAddr(Removed(s.layout, k, 0), 0),
                     bestBet := if s.bestBet == s.layout[k].addr then 0 else s.bestBet,
                     held := s.held - Bytes(s.layout[k]),
                     inuse := s.inuse - s.layout[k].blocks[0].size,
                     layout := Removed(s.layout, k, 0))
    ensures Consistent(t) && Wf(t.layout)
  {
    hide MajorsOk; hide MinorsOk; hide DeadOk; hide DroppedMajors; hide DroppedMinors;
    var L := s.layout;
    DroppedLists(s, k);
    assert Wf(t.layout) && t.held == TotalBytes(t.layout) && t.inuse == TotalInUse(t.layout) by { RemovedWf(L, k, 0); }
    assert StampsOk(t.mem, t.layout) by { StampsAfterFree(s.mem, L, k, 0); }
    assert t.bestBet == 0 || Listed(t.layout, t.bestBet) by {
      if t.bestBet != 0 {
        var i :| 0 <= i < |L| && L[i].addr == s.bestBet;
        assert t.layout[if i < k then i else i - 1].addr == s.bestBet;
      }
    }
    hide StampsOk; hide Listed; hide WfRun; hide Removed; hide TotalBytes; hide TotalInUse;
  }

  lemma FreeAtHere(s: Snap, k: nat, j: nat)
    requires Consistent(s) && At(s.layout, k, j)
    ensures Live(s.layout, s.layout[k].blocks[j].addr) && Holder(s.layout, s.layout[k].blocks[j].addr) == k
    ensures FreeAt(s.layout, s.layout[k].blocks[j].addr) == Removed(s.layout, k, j)
  {
    FreeAtIs(s.layout, k, j);
    HolderIs(s.layout, k, j);
  }

  /** What unlinking a block needs to know about it and its neighbours. */
  lemma UnlinkReady(s: Snap, k: nat, j: nat)
    requires Consistent(s) && At(s.layout, k, j)
    ensures MajorOk(s.majors, s.layout, k) && MinorOk(s.minors, s.layout[k], j)
    ensures var r := s.layout[k];
            && (j > 0 ==> MinorListed(s.minors, r, j - 1) && r.blocks[j - 1].addr != r.blocks[j].addr)
            && (j + 1 < |r.blocks| ==> MinorListed(s.minors, r, j + 1) && r.blocks[j + 1].addr != r.blocks[j].addr)
            && (0 < j < |r.blocks| - 1 ==> r.blocks[j - 1].addr != r.blocks[j + 1].addr)
            && Usage(Delete(r, j)) == Usage(r) - r.blocks[j].size - HEADER
  {
    var L := s.layout;
    assert MajorOk(s.majors, L, k);
    NeighboursIn(s.minors, L, k, j);
    DeleteWf(L[k], j);
    if j > 0 { LiveBlocksApart(L, k, j - 1, k, j); BlockInside(L[k], j - 1); }
    if j + 1 < |L[k].blocks| { LiveBlocksApart(L, k, j + 1, k, j); BlockInside(L[k], j + 1); }
    if 0 < j < |L[k].blocks| - 1 { LiveBlocksApart(L, k, j - 1, k, j + 1); }
  }

  /** The list of a run is empty exactly when its only block went. */
  lemma FirstZero(s: Snap, k: nat, j: nat)
    requires Consistent(s) && At(s.layout, k, j)
    ensures BlockAddr(Delete(s.layout[k], j), 0) == 0 <==> |s.layout[k].blocks| == 1
  {
    BlockInside(s.layout[k], 0);
    if |s.layout[k].blocks| > 1 { BlockInside(s.layout[k], 1); }
  }

  /** The links of a run to be released, as its header shows them. */
  lemma SpliceReady(s: Snap, k: nat)
    requires Consistent(s) && k < |s.layout|
    ensures MajorOk(s.majors, s.layout, k)
    ensures 0 !in s.majors
    ensures k > 0 ==> RunAddr(s.layout, k - 1) in s.majors && RunAddr(s.layout, k - 1) != 0
    ensures k + 1 < |s.layout| ==> RunAddr(s.layout, k + 1) in s.majors && RunAddr(s.layout, k + 1) != 0
    ensures RunAddr(s.layout[..k] + s.layout[k + 1..], 0)
            == if s.memRoot == s.layout[k].addr then RunAddr(s.layout, k + 1) else s.memRoot
    ensures k > 0 ==> RunAddr(s.layout, k - 1) != s.layout[k].addr
    ensures k + 1 < |s.layout| ==> RunAddr(s.layout, k + 1) != s.layout[k].addr
  {
    RunsDiffer(s.layout);
    assert MajorOk(s.majors, s.layout, k);
    if k > 0 { assert MajorOk(s.majors, s.layout, k - 1) && WfRun(s.layout[k - 1]); }
    if k + 1 < |s.layout| { assert MajorOk(s.majors, s.layout, k + 1) && WfRun(s.layout[k + 1]); }
  }

  /** One to three low bytes of the magic number survive: a possible overrun. */
  predicate LowBytesMagic(magic: nat) {
    magic % 0x100_0000 == MAGIC % 0x100_0000 || magic % 0x1_0000 == MAGIC % 0x1_0000 || magic % 0x100 == MAGIC % 0x100
  }

  /** The three comparisons amount to the last: the lowest byte is that of the magic number. */
  lemma OverrunByte(magic: nat)
    ensures LowBytesMagic(magic) <==> magic % 0x100 == 0xde
  {
    LowByte(magic % 0x100_0000, 0x1_0000 * (magic / 0x100_0000));
    LowByte(magic % 0x1_0000, 0x100 * (magic / 0x1_0000));
  }

  lemma LowByte(r: nat, k: nat)
    ensures (0x100 * k + r) % 0x100 == r % 0x100
  {
    var q, v := r / 0x100, r % 0x100;
    assert 0x100 * k + r == 0x100 * (k + q) + v;
  }

  /** A header that carries the magic number is found, and is the one of a listed block. */
  lemma LiveHeader(s: Snap, a: nat)
    requires Consistent(s) && a in s.minors && s.minors[a].magic == MAGIC
    ensures Live(s.layout, a)
  {
  }

  lemma LiveIn(s: Snap, k: nat, j: nat)
    requires Consistent(s) && At(s.layout, k, j)
    ensures MinorOk(s.minors, s.layout[k], j) && Stamped(s.mem, s.layout[k].blocks[j].addr)
    ensures Padded(s.layout[k].blocks[j]) && End(s.layout[k].blocks[j]) <= ADDRESS_SPACE == |s.mem|
    ensures 0 < s.layout[k].blocks[j].addr
  {
    BlockInside(s.layout[k], j);
    assert MinorOk(s.minors, s.layout[k], j);
  }

  /** Every live block: its pointer is the first 16-aligned address 40 or more bytes above its header, the
      byte 16 below it is the distance back to the first byte behind the header, its stamp and requested bytes lie in its own
      region, and UNALIGN on the pointer leads to its own header, intact; the regions of two live
      blocks do not meet, so no two share a pointer. */
  lemma LivePointers(s: Snap, k: nat, j: nat, k': nat, j': nat)
    requires Consistent(s) && At(s.layout, k, j) && At(s.layout, k', j')
    ensures var b, p := s.layout[k].blocks[j], PtrOf(s.layout[k].blocks[j].addr);
            && p % 16 == 0 && p >= b.addr + 40 && (forall x :: x % 16 == 0 && x >= b.addr + 40 ==> p <= x)
            && p + b.req <= End(b) <= |s.mem|
            && s.mem[p - 16] == p - (b.addr + 24)
            && HeaderOf(s.mem, p) == b.addr && b.addr in s.minors && s.minors[b.addr] == MinorOf(s.layout[k], j)
    ensures k != k' || j != j' ==>
              BlocksApart(s.layout[k].blocks[j], s.layout[k'].blocks[j']) &&
              PtrOf(s.layout[k].blocks[j].addr) != PtrOf(s.layout[k'].blocks[j'].addr)
  {
    LiveIn(s, k, j);
    LiveIn(s, k', j');
    PtrInside(s.layout[k].blocks[j]);
    PtrInside(s.layout[k'].blocks[j']);
    PtrLeast(s.layout[k].blocks[j].addr);
    UnalignExact(s.mem, s.layout[k].blocks[j].addr);
    if k != k' || j != j' { LiveBlocksApart(s.layout, k, j, k', j'); }
    assert s.mem[PtrOf(s.layout[k].blocks[j].addr) - 16] == PtrOf(s.layout[k].blocks[j].addr) - (s.layout[k].blocks[j].addr + 24);
    hide Consistent; hide PtrOf; hide HeaderOf; hide Stamped;
  }

  // ---- Bytes of live blocks ---------------------------------------------------------------------------

  /** Stores into the payload of a live block disturb nothing the allocator relies on. */
  lemma PayloadWritten(s: Snap, m: seq<byte>, k: nat, j: nat)
    requires Consistent(s) && At(s.layout, k, j)
    requires var b := s.layout[k].blocks[j]; SameOutside(s.mem, m, PtrOf(b.addr), PtrOf(b.addr) + b.req)
    ensures Consistent(s.(mem := m))
    ensures forall k', j' :: At(s.layout, k', j') && (k' != k || j' != j) ==> SameBlock(s.mem, m, s.layout[k'].blocks[j'])
  {
    var L := s.layout;
    LiveIn(s, k, j);
    PtrInside(L[k].blocks[j]);
    forall k', j' | At(L, k', j')
      ensures Stamped(m, L[k'].blocks[j'].addr)
      ensures k' != k || j' != j ==> SameBlock(s.mem, m, L[k'].blocks[j'])
    {
      LiveIn(s, k', j');
      PtrInside(L[k'].blocks[j']);
      if k' != k || j' != j { LiveBlocksApart(L, k, j, k', j'); }
    }
  }

  /** The n bytes from q on in m' are the n bytes from p on in m. */
  ghost predicate SameBytes(m: seq<byte>, p: nat, m': seq<byte>, q: nat, n: nat) {
    p + n <= |m| && q + n <= |m'| && forall x :: q <= x < q + n ==> m'[x] == m[x - q + p]
  }

  /** Every byte behind the header of `b` is the same. */
  ghost predicate SameBlock(m: seq<byte>, m': seq<byte>, b: Block) {
    |m| == |m'| && forall x :: b.addr + HEADER <= x < End(b) && x < |m| ==> m'[x] == m[x]
  }

  /** What malloc and realloc promise of the blocks there were, byte by byte. */
  lemma BytesKept(L: Layout, m: seq<byte>, m': seq<byte>)
    requires forall k, j :: At(L, k, j) ==> SameBlock(m, m', L[k].blocks[j])
    ensures forall k, j, x :: At(L, k, j) && 24 <= x - L[k].blocks[j].addr < 24 + L[k].blocks[j].size && x < |m| ==>
              x < |m'| && m'[x] == m[x]
  {
    forall k, j, x | At(L, k, j) && 24 <= x - L[k].blocks[j].addr < 24 + L[k].blocks[j].size && x < |m|
      ensures x < |m'| && m'[x] == m[x]
    {
      assert SameBlock(m, m', L[k].blocks[j]);
    }
  }

  /** malloc changes no byte of any block there was. */
  lemma MallocKeepsBytes(L: Layout, bet: nat, req: nat, page: nat, m: seq<byte>, m': seq<byte>)
    requires WfOpen(AfterMalloc(L, bet, req, page)) && HeaderFor(L, bet, req, page) != 0
    requires SameOutside(m, m', HeaderFor(L, bet, req, page) + HEADER, HeaderFor(L, bet, req, page) + HEADER + req + PAD)
    ensures forall k, j :: At(L, k, j) ==> SameBlock(m, m', L[k].blocks[j])
  {
    NewBlock(L, bet, req, page);
    forall k, j | At(L, k, j) ensures SameBlock(m, m', L[k].blocks[j]) {
      var k', j' := OldBlockKept(L, bet, req, page, k, j);
      LiveBlocksApart(AfterMalloc(L, bet, req, page), NewRunIndex(L, bet, req), NewBlockIndex(L, bet, req), k', j');
    }
  }

  /** The bytes of a new block, told by where it sits in its run: they are zero if it is the first, or if
      another block lies above it; behind the last of other blocks, only the byte 16 below the pointer
      has been written. */
  lemma FreshPayload(L: Layout, bet: nat, req: nat, page: nat, m: seq<byte>, m': seq<byte>, p: nat) returns (k: nat, j: nat)
    requires HeaderFor(L, bet, req, page) != 0 && p == PtrOf(HeaderFor(L, bet, req, page))
    requires Delivered(m, m', p, req, !TakesTail(L, bet, req))
    ensures var M := AfterMalloc(L, bet, req, page);
            && At(M, k, j) && M[k].blocks[j] == Block(HeaderFor(L, bet, req, page), req + 32, req)
            && p + req <= |m'|
            && if j == 0 || j + 1 < |M[k].blocks| then forall x :: p <= x < p + req ==> m'[x] == 0
               else |m| == |m'| && forall x :: 0 <= x < |m| && x != p - 16 ==> m'[x] == m[x]
  {
    k, j := NewRunIndex(L, bet, req), NewBlockIndex(L, bet, req);
    NewBlock(L, bet, req, page);
    SearchComplete(L, StartOf(L, bet, req + PAD), req + PAD);
  }

  /** The block p points to in layout M, and its bytes as FreshPayload tells them. */
  ghost predicate NewPayload(m: seq<byte>, m': seq<byte>, M: Layout, p: nat, req: nat) {
    exists k, j :: At(M, k, j) && PtrOf(M[k].blocks[j].addr) == p && M[k].blocks[j].req == req && p + req <= |m'| &&
      if j == 0 || j + 1 < |M[k].blocks| then forall x :: p <= x < p + req ==> m'[x] == 0
      else |m| == |m'| && forall x :: 0 <= x < |m| && x != p - 16 ==> m'[x] == m[x]
  }

  lemma NewPayloadIs(q: Quest, m: seq<byte>, t: Snap, asked: bool, p: nat)
    requires Outcome(q, m, t, asked, p) && p != 0
    ensures NewPayload(m, t.mem, t.layout, p, q.req)
  {
    hide HeaderFor; hide TakesTail; hide MallocHint; hide SameOutside; hide Delivered; hide Wf; hide Search; hide PtrOf;
    hide AfterMalloc;
    var k, j := FreshPayload(q.L, q.bet, q.req, q.page, m, t.mem, p);
  }

  /** A call of malloc, successful or not, changes no byte of any block there was. */
  lemma MallocBytes(L: Layout, bet: nat, req: nat, page: nat, m: seq<byte>, t: Snap, p: nat)
    requires t.layout == AfterMalloc(L, bet, req, page) && Consistent(t) && p == PtrFor(HeaderFor(L, bet, req, page))
    requires p == 0 ==> t.mem == m
    requires p != 0 ==> SameOutside(m, t.mem, HeaderFor(L, bet, req, page) + HEADER,
                                    HeaderFor(L, bet, req, page) + HEADER + req + PAD)
    ensures forall k, j :: At(L, k, j) ==> SameBlock(m, t.mem, L[k].blocks[j])
  {
    hide AfterMalloc; hide HeaderFor; hide WfOpen; hide SameOutside;
    if p != 0 { MallocKeepsBytes(L, bet, req, page, m, t.mem); }
  }

  /** A block of the shrunk layout: where it was, and that its header and stamp are right. */
  lemma ShrunkMinor(s: Snap, minors: Minors, k: nat, j: nat, req: nat, k': nat, j': nat)
    requires Consistent(s) && At(s.layout, k, j) && At(s.layout, k', j') && MinorOk(s.minors, s.layout[k], j)
    requires var a := s.layout[k].blocks[j].addr; minors == s.minors[a := s.minors[a].(req := req)]
    ensures var M := Shrunk(s.layout, k, j, req);
            At(M, k', j') && M[k'].blocks[j'].addr == s.layout[k'].blocks[j'].addr &&
            MinorOk(minors, M[k'], j') && Stamped(s.mem, M[k'].blocks[j'].addr)
  {
    LiveIn(s, k', j');
    assert MinorOk(s.minors, s.layout[k'], j');
    if k' != k || j' != j { LiveBlocksApart(s.layout, k, j, k', j'); }
    hide Consistent; hide MinorsOk; hide StampsOk;
  }

  lemma ShrunkMinors(s: Snap, minors: Minors, k: nat, j: nat, req: nat)
    requires Consistent(s) && At(s.layout, k, j) && MinorOk(s.minors, s.layout[k], j)
    requires var a := s.layout[k].blocks[j].addr; minors == s.minors[a := s.minors[a].(req := req)]
    ensures var M := Shrunk(s.layout, k, j, req); MinorsOk(minors, M) && StampsOk(s.mem, M) && DeadOk(minors, M)
  {
    var L, M := s.layout, Shrunk(s.layout, k, j, req);
    hide Consistent; hide MinorOk; hide Stamped;
    forall k', j' | At(M, k', j') ensures MinorOk(minors, M[k'], j') && Stamped(s.mem, M[k'].blocks[j'].addr) {
      assert At(L, k', j');
      ShrunkMinor(s, minors, k, j, req, k', j');
    }
    forall a | a in minors && minors[a].magic == MAGIC ensures Live(M, a) {
      assert a in s.minors && s.minors[a].magic == MAGIC by { MinorThere(s.minors, L[k], j); }
      LiveHeader(s, a);
      var k', j' :| At(L, k', j') && L[k'].blocks[j'].addr == a;
      ShrunkMinor(s, minors, k, j, req, k', j');
    }
  }

  lemma MinorThere(minors: Minors, r: Run, j: nat)
    requires j < |r.blocks| && MinorOk(minors, r, j)
    ensures r.blocks[j].addr in minors && minors[r.blocks[j].addr].magic == MAGIC
  {
  }

  lemma ShrunkMajors(s: Snap, k: nat, j: nat, req: nat)
    requires Consistent(s) && At(s.layout, k, j)
    ensures MajorsOk(s.majors, Shrunk(s.layout, k, j, req))
  {
    var L := s.layout;
    var r := Shrunk(L, k, j, req)[k];
    RunsDiffer(L);
    ShrinkKeepsPayload(L[k].blocks, j, req);
    UpdatedMajors(s.majors, L, k, r);
    assert MajorOk(s.majors, L, k);
    assert s.majors == s.majors[r.addr := s.majors[r.addr].(usage := Usage(r), first := BlockAddr(r, 0))];
  }

  lemma ShrunkConsistent(s: Snap, t: Snap, k: nat, j: nat, req: nat)
    requires Consistent(s) && Wf(s.layout) && At(s.layout, k, j) && req <= s.layout[k].blocks[j].req
    requires MinorOk(s.minors, s.layout[k], j)
    requires var a := s.layout[k].blocks[j].addr;
             t == s.(minors := s.minors[a := s.minors[a].(req := req)], layout := Shrunk(s.layout, k, j, req))
    ensures Consistent(t) && Wf(t.layout)
  {
    var L := s.layout;
    ShrunkWf(L, k, j, req);
    ShrunkMajors(s, k, j, req);
    ShrunkMinors(s, t.minors, k, j, req);
    hide MajorsOk; hide MinorsOk; hide DeadOk; hide StampsOk; hide WfRun; hide TotalBytes; hide TotalInUse;
    if s.bestBet != 0 {
      var i :| 0 <= i < |L| && L[i].addr == s.bestBet;
      assert t.layout[i].addr == s.bestBet;
    }
  }

  ghost predicate MinorListed(minors: Minors, r: Run, j: nat)
    requires j < |r.blocks|
  {
    MinorOk(minors, r, j) && r.blocks[j].addr != 0
  }

  /** One run as its headers show it. */
  ghost predicate RunListed(majors: Majors, minors: Minors, r: Run) {
    && r.addr in majors && majors[r.addr].size == Bytes(r) && majors[r.addr].first == BlockAddr(r, 0)
    && forall j :: 0 <= j < |r.blocks| ==> MinorListed(minors, r, j)
  }

  /** The last block of a run is the one without a successor; no header is at address 0. */
  lemma LastIffNoNext(majors: Majors, minors: Minors, r: Run, j: nat)
    requires RunListed(majors, minors, r) && j < |r.blocks|
    ensures MinorListed(minors, r, j) && minors[r.blocks[j].addr].next == BlockAddr(r, j + 1)
    ensures BlockAddr(r, j + 1) == 0 <==> j + 1 == |r.blocks|
  {
    if j + 1 < |r.blocks| { assert MinorListed(minors, r, j + 1); }
  }

  /** What the header of run k says about its first block. */
  lemma FirstIs(s: Snap, k: nat)
    requires Consistent(s) && k < |s.layout|
    ensures var r := s.layout[k];
            && r.addr in s.majors && s.majors[r.addr].first == BlockAddr(r, 0)
            && (BlockAddr(r, 0) == 0 <==> r.blocks == [])
  {
    assert MajorOk(s.majors, s.layout, k);
    if s.layout[k].blocks != [] { BlockInside(s.layout[k], 0); }
  }

  lemma RunView(s: Snap, k: nat)
    requires Consistent(s) && k < |s.layout|
    ensures RunListed(s.majors, s.minors, s.layout[k])
  {
    assert MajorOk(s.majors, s.layout, k);
    forall j | 0 <= j < |s.layout[k].blocks| ensures MinorListed(s.minors, s.layout[k], j) {
      LiveIn(s, k, j);
    }
  }

  // ---- Growing realloc ------------------------------------------------------------------------------

  /** After the malloc inside realloc: the old block is where it was, with its bytes, and apart
      from the new one. */
  lemma MovedBlocks(L: Layout, bet: nat, req: nat, page: nat, k: nat, j: nat, m: seq<byte>, t: Snap) returns (k': nat, j': nat)
    requires Consistent(t) && t.layout == AfterMalloc(L, bet, req, page) && HeaderFor(L, bet, req, page) != 0
    requires At(L, k, j)
    requires SameOutside(m, t.mem, HeaderFor(L, bet, req, page) + HEADER, HeaderFor(L, bet, req, page) + HEADER + req + PAD)
    ensures At(t.layout, k', j') && t.layout[k'].blocks[j'] == L[k].blocks[j]
    ensures var n, i := NewRunIndex(L, bet, req), NewBlockIndex(L, bet, req);
            && At(t.layout, n, i) && t.layout[n].blocks[i] == Block(HeaderFor(L, bet, req, page), req + PAD, req)
            && (k' != n || j' != i)
            && BlocksApart(t.layout[n].blocks[i], L[k].blocks[j])
    ensures forall k, j :: At(L, k, j) ==> SameBlock(m, t.mem, L[k].blocks[j])
  {
    NewBlock(L, bet, req, page);
    k', j' := OldBlockKept(L, bet, req, page, k, j);
    LiveBlocksApart(t.layout, NewRunIndex(L, bet, req), NewBlockIndex(L, bet, req), k', j');
    MallocKeepsBytes(L, bet, req, page, m, t.mem);
  }

  lemma BytesThroughCopy(L: Layout, bet: nat, req: nat, page: nat, m0: seq<byte>, m1: seq<byte>, m2: seq<byte>)
    requires HeaderFor(L, bet, req, page) != 0
    requires forall k, j :: At(L, k, j) ==> SameBlock(m0, m1, L[k].blocks[j])
    requires var M := AfterMalloc(L, bet, req, page);
             forall k, j :: At(M, k, j) && (k != NewRunIndex(L, bet, req) || j != NewBlockIndex(L, bet, req)) ==>
               SameBlock(m1, m2, M[k].blocks[j])
    ensures forall k, j :: At(L, k, j) ==> SameBlock(m0, m2, L[k].blocks[j])
  {
    forall k, j | At(L, k, j) ensures SameBlock(m0, m2, L[k].blocks[j]) {
      var k', j' := OldBlockKept(L, bet, req, page, k, j);
    }
  }

  lemma FreeStepIs(L: Layout, bet: nat, a: nat, L': Layout, bet': nat, released: seq<(nat, nat)>)
    requires FreeStep(L, bet, a, L', bet', released)
    ensures Live(L, a) && L' == FreeAt(L, a)
  {
  }
}
