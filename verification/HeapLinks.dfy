/** The headers liballoc keeps in memory, addressed by pointer, and the agreement between those
    doubly linked headers and an abstract layout. */
module HeapLinks {
  import opened HeapLayout
  import opened HeapSteps

  const MAGIC := 0xc001c0de
  const DEAD := 0xdeaddead

  /** Contents of a major header; address 0 is the null pointer. */
  datatype Major = Major(prev: nat, next: nat, pages: nat, size: nat, usage: nat, first: nat)

  /** Contents of a minor header. */
  datatype Minor = Minor(prev: nat, next: nat, block: nat, magic: nat, size: nat, req: nat)

  type Majors = map<nat, Major>
  type Minors = map<nat, Minor>

  // ---- Agreement --------------------------------------------------------------------------

  function RunAddr(L: Layout, i: int): nat {
    if 0 <= i < |L| then L[i].addr else 0
  }

  function BlockAddr(r: Run, j: int): nat {
    if 0 <= j < |r.blocks| then r.blocks[j].addr else 0
  }

  function MajorOf(L: Layout, i: nat): Major
    requires i < |L|
  {
    Major(RunAddr(L, i - 1), RunAddr(L, i + 1), L[i].pages, Bytes(L[i]), Usage(L[i]), BlockAddr(L[i], 0))
  }

  function MinorOf(r: Run, j: nat): Minor
    requires j < |r.blocks|
  {
    Minor(BlockAddr(r, j - 1), BlockAddr(r, j + 1), r.addr, MAGIC, r.blocks[j].size, r.blocks[j].req)
  }

  ghost predicate MajorOk(majors: Majors, L: Layout, i: nat)
    requires i < |L|
  {
    L[i].addr in majors && majors[L[i].addr] == MajorOf(L, i)
  }

  /** The major headers form the doubly linked list of runs, with exact sizes and usage counters. */
  ghost predicate MajorsOk(majors: Majors, L: Layout) {
    forall i :: 0 <= i < |L| ==> MajorOk(majors, L, i)
  }

  ghost predicate MinorOk(minors: Minors, r: Run, j: nat)
    requires j < |r.blocks|
  {
    r.blocks[j].addr in minors && minors[r.blocks[j].addr] == MinorOf(r, j)
  }

  /** The minor headers form one doubly linked list per run, each pointing back to its run. */
  ghost predicate MinorsOk(minors: Minors, L: Layout) {
    forall i, j :: At(L, i, j) ==> MinorOk(minors, L[i], j)
  }

  /** A header that still carries the magic number belongs to a listed block. */
  ghost predicate DeadOk(minors: Minors, L: Layout) {
    forall a :: a in minors && minors[a].magic == MAGIC ==> Live(L, a)
  }

  /** Headers none of whose bytes lie in [lo, hi): the ones a write to that range leaves intact. */
  function Wipe(minors: Minors, lo: nat, hi: nat): Minors {
    map a | a in minors && (a + HEADER <= lo || hi <= a) :: minors[a]
  }

  // ---- Inserting a block --------------------------------------------------------------------

  function Linked(minors: Minors, r: Run, g: nat, size: nat, req: nat): Minors
    requires g <= |r.blocks|
    requires g > 0 ==> r.blocks[g - 1].addr in minors
    requires g < |r.blocks| ==> r.blocks[g].addr in minors
  {
    var a := Lo(r, g);
    var w := Wipe(minors, a, a + HEADER + size)[a := MinorOf(Insert(r, g, size, req), g)];
    var w' := if g < |r.blocks| then w[r.blocks[g].addr := minors[r.blocks[g].addr].(prev := a)] else w;
    if g > 0 then w'[r.blocks[g - 1].addr := minors[r.blocks[g - 1].addr].(next := a)] else w'
  }

  /** The blocks next to gap g are the only old ones whose headers change. */
  lemma LinkedElsewhere(minors: Minors, L: Layout, k: nat, g: nat, size: nat, req: nat, i: nat, j: nat)
    requires WfOpen(L) && FitsAt(L, k, g, size) && MinorsOk(minors, L) && At(L, i, j)
    requires i == k ==> j != g && j != g - 1
    requires g > 0 ==> L[k].blocks[g - 1].addr in minors
    requires g < |L[k].blocks| ==> L[k].blocks[g].addr in minors
    ensures var a := L[i].blocks[j].addr; var w := Linked(minors, L[k], g, size, req);
            a in w && w[a] == minors[a]
  {
    var a := L[i].blocks[j].addr;
    assert MinorOk(minors, L[i], j);
    GapApart(L, k, g, i, j);
    if g > 0 { LiveBlocksApart(L, k, g - 1, i, j); }
    if g < |L[k].blocks| { LiveBlocksApart(L, k, g, i, j); }
  }

  lemma LinkedOk(minors: Minors, L: Layout, k: nat, g: nat, size: nat, req: nat)
    requires WfOpen(L) && FitsAt(L, k, g, size) && MinorsOk(minors, L)
    ensures g > 0 ==> L[k].blocks[g - 1].addr in minors
    ensures g < |L[k].blocks| ==> L[k].blocks[g].addr in minors
    ensures MinorsOk(Linked(minors, L[k], g, size, req), Inserted(L, k, g, size, req))
  {
    var r := L[k];
    var n := |r.blocks|;
    if g > 0 { assert At(L, k, g - 1) && MinorOk(minors, r, g - 1); }
    if g < n { assert At(L, k, g) && MinorOk(minors, r, g); }
    var w := Linked(minors, r, g, size, req);
    var M := Inserted(L, k, g, size, req);
    forall i, j | At(M, i, j) ensures MinorOk(w, M[i], j) {
      if i != k {
        LinkedElsewhere(minors, L, k, g, size, req, i, j);
        assert MinorOk(minors, L[i], j);
      } else {
        LinkedInRun(minors, L, k, g, size, req, j);
      }
    }
  }

  lemma LinkedInRun(minors: Minors, L: Layout, k: nat, g: nat, size: nat, req: nat, j: nat)
    requires WfOpen(L) && FitsAt(L, k, g, size) && MinorsOk(minors, L)
    requires g > 0 ==> L[k].blocks[g - 1].addr in minors
    requires g < |L[k].blocks| ==> L[k].blocks[g].addr in minors
    requires j <= |L[k].blocks|
    ensures MinorOk(Linked(minors, L[k], g, size, req), Insert(L[k], g, size, req), j)
  {
    var r := L[k];
    var s := Insert(r, g, size, req);
    var w := Linked(minors, r, g, size, req);
    if g > 0 { assert MinorOk(minors, r, g - 1); GapApart(L, k, g, k, g - 1); }
    if g < |r.blocks| { assert MinorOk(minors, r, g); GapApart(L, k, g, k, g); }
    if 0 < g < |r.blocks| { LiveBlocksApart(L, k, g - 1, k, g); }
    if j < g - 1 || g + 1 < j {
      var o := if j < g then j else j - 1;
      LinkedElsewhere(minors, L, k, g, size, req, k, o);
      assert MinorOk(minors, r, o);
      assert s.blocks[j] == r.blocks[o];
      assert MinorOf(s, j) == MinorOf(r, o);
    }
  }

  lemma InsertedLive(L: Layout, k: nat, g: nat, size: nat, req: nat, x: nat)
    requires k < |L| && g <= |L[k].blocks|
    ensures Live(Inserted(L, k, g, size, req), x) <==> Live(L, x) || x == Lo(L[k], g)
  {
    var M := Inserted(L, k, g, size, req);
    if Live(L, x) {
      var i, j :| At(L, i, j) && L[i].blocks[j].addr == x;
      var j' := if i == k && j >= g then j + 1 else j;
      assert At(M, i, j') && M[i].blocks[j'].addr == x;
    }
    if x == Lo(L[k], g) {
      assert At(M, k, g) && M[k].blocks[g].addr == x;
    }
    if Live(M, x) {
      var i, j :| At(M, i, j) && M[i].blocks[j].addr == x;
      if !(i == k && j == g) {
        var j' := if i == k && j > g then j - 1 else j;
        assert At(L, i, j') && L[i].blocks[j'].addr == x;
      }
    }
  }

  lemma LinkedDead(minors: Minors, L: Layout, k: nat, g: nat, size: nat, req: nat)
    requires WfOpen(L) && FitsAt(L, k, g, size) && MinorsOk(minors, L) && DeadOk(minors, L)
    requires g > 0 ==> L[k].blocks[g - 1].addr in minors
    requires g < |L[k].blocks| ==> L[k].blocks[g].addr in minors
    ensures DeadOk(Linked(minors, L[k], g, size, req), Inserted(L, k, g, size, req))
  {
    var w := Linked(minors, L[k], g, size, req);
    forall a | a in w && w[a].magic == MAGIC ensures Live(Inserted(L, k, g, size, req), a) {
      InsertedLive(L, k, g, size, req, a);
      if a != Lo(L[k], g) {
        assert a in minors && minors[a].magic == MAGIC;
      }
    }
  }

  lemma UpdatedMajors(majors: Majors, L: Layout, k: nat, r: Run)
    requires RunsDistinct(L) && MajorsOk(majors, L) && k < |L|
    requires r.addr == L[k].addr && r.pages == L[k].pages
    ensures MajorOk(majors, L, k)
    ensures MajorsOk(majors[r.addr := majors[r.addr].(usage := Usage(r), first := BlockAddr(r, 0))], L[k := r])
  {
    var M := L[k := r];
    assert MajorOk(majors, L, k);
    var w := majors[r.addr := majors[r.addr].(usage := Usage(r), first := BlockAddr(r, 0))];
    forall i | 0 <= i < |M| ensures MajorOk(w, M, i) {
      assert MajorOk(majors, L, i);
    }
  }

  // ---- Removing a block ----------------------------------------------------------------------

  /** free's unlinking: the header dies and its neighbours are joined. */
  function Unlinked(minors: Minors, r: Run, j: nat): Minors
    requires j < |r.blocks| && r.blocks[j].addr in minors
    requires j > 0 ==> r.blocks[j - 1].addr in minors
    requires j + 1 < |r.blocks| ==> r.blocks[j + 1].addr in minors
  {
    var a := r.blocks[j].addr;
    var w := minors[a := minors[a].(magic := DEAD)];
    var w' := if j + 1 < |r.blocks| then
                w[r.blocks[j + 1].addr := minors[r.blocks[j + 1].addr].(prev := minors[a].prev)]
              else w;
    if j > 0 then w'[r.blocks[j - 1].addr := minors[r.blocks[j - 1].addr].(next := minors[a].next)] else w'
  }

  lemma NeighboursIn(minors: Minors, L: Layout, k: nat, j: nat)
    requires MinorsOk(minors, L) && At(L, k, j)
    ensures MinorOk(minors, L[k], j)
    ensures j > 0 ==> MinorOk(minors, L[k], j - 1)
    ensures j + 1 < |L[k].blocks| ==> MinorOk(minors, L[k], j + 1)
  {
    if j > 0 { assert At(L, k, j - 1); }
    if j + 1 < |L[k].blocks| { assert At(L, k, j + 1); }
  }

  lemma UnlinkedElsewhere(minors: Minors, L: Layout, k: nat, j: nat, i: nat, m: nat)
    requires WfOpen(L) && MinorsOk(minors, L) && At(L, k, j) && At(L, i, m)
    requires i == k ==> m < j - 1 || m > j + 1
    ensures MinorOk(minors, L[k], j)
    ensures j > 0 ==> MinorOk(minors, L[k], j - 1)
    ensures j + 1 < |L[k].blocks| ==> MinorOk(minors, L[k], j + 1)
    ensures var a := L[i].blocks[m].addr; var w := Unlinked(minors, L[k], j); a in w && w[a] == minors[a]
  {
    NeighboursIn(minors, L, k, j);
    assert MinorOk(minors, L[i], m);
    LiveBlocksApart(L, k, j, i, m);
    if j > 0 { LiveBlocksApart(L, k, j - 1, i, m); }
    if j + 1 < |L[k].blocks| { LiveBlocksApart(L, k, j + 1, i, m); }
  }

  lemma UnlinkedInRun(minors: Minors, L: Layout, k: nat, j: nat, m: nat)
    requires WfOpen(L) && MinorsOk(minors, L) && At(L, k, j) && m + 1 < |L[k].blocks|
    ensures MinorOk(minors, L[k], j)
    ensures j > 0 ==> MinorOk(minors, L[k], j - 1)
    ensures j + 1 < |L[k].blocks| ==> MinorOk(minors, L[k], j + 1)
    ensures MinorOk(Unlinked(minors, L[k], j), Delete(L[k], j), m)
  {
    NeighboursIn(minors, L, k, j);
    var r := L[k];
    var s := Delete(r, j);
    var o := if m < j then m else m + 1;
    assert At(L, k, o) && MinorOk(minors, r, o);
    assert s.blocks[m] == r.blocks[o];
    if j > 0 { LiveBlocksApart(L, k, j - 1, k, j); }
    if j + 1 < |r.blocks| { LiveBlocksApart(L, k, j + 1, k, j); }
    if 0 < j && j + 1 < |r.blocks| { LiveBlocksApart(L, k, j - 1, k, j + 1); }
    if o < j - 1 || o > j + 1 {
      UnlinkedElsewhere(minors, L, k, j, k, o);
      assert MinorOf(s, m) == MinorOf(r, o);
    }
  }

  /** Unlinking one of several blocks leaves every list of the remaining layout consistent. */
  lemma UnlinkedOk(minors: Minors, L: Layout, k: nat, j: nat)
    requires WfOpen(L) && MinorsOk(minors, L) && At(L, k, j)
    ensures MinorOk(minors, L[k], j)
    ensures j > 0 ==> MinorOk(minors, L[k], j - 1)
    ensures j + 1 < |L[k].blocks| ==> MinorOk(minors, L[k], j + 1)
    ensures MinorsOk(Unlinked(minors, L[k], j), L[k := Delete(L[k], j)])
  {
    NeighboursIn(minors, L, k, j);
    var w := Unlinked(minors, L[k], j);
    var M := L[k := Delete(L[k], j)];
    forall i, m | At(M, i, m) ensures MinorOk(w, M[i], m) {
      if i == k {
        UnlinkedInRun(minors, L, k, j, m);
      } else {
        UnlinkedElsewhere(minors, L, k, j, i, m);
        assert MinorOk(minors, L[i], m);
      }
    }
  }

  /** When the last block of a run goes, dropping the run and its headers keeps the other lists. */
  lemma DroppedOk(minors: Minors, L: Layout, k: nat)
    requires WfOpen(L) && MinorsOk(minors, L) && k < |L| && |L[k].blocks| == 1
    ensures MinorOk(minors, L[k], 0)
    ensures MinorsOk(Wipe(Unlinked(minors, L[k], 0), L[k].addr, L[k].addr + Bytes(L[k])), L[..k] + L[k + 1..])
  {
    NeighboursIn(minors, L, k, 0);
    var w := Wipe(Unlinked(minors, L[k], 0), L[k].addr, L[k].addr + Bytes(L[k]));
    var M := L[..k] + L[k + 1..];
    forall i, m | At(M, i, m) ensures MinorOk(w, M[i], m) {
      var o := if i < k then i else i + 1;
      assert M[i] == L[o] && At(L, o, m);
      assert MinorOk(minors, L[o], m);
      UnlinkedElsewhere(minors, L, k, 0, o, m);
      BlockInside(L[o], m);
      assert if o < k then Apart(L[o], L[k]) else Apart(L[k], L[o]);
    }
  }

  lemma UnlinkedDead(minors: Minors, L: Layout, k: nat, j: nat)
    requires WfOpen(L) && MinorsOk(minors, L) && DeadOk(minors, L) && At(L, k, j)
    ensures MinorOk(minors, L[k], j)
    ensures j > 0 ==> MinorOk(minors, L[k], j - 1)
    ensures j + 1 < |L[k].blocks| ==> MinorOk(minors, L[k], j + 1)
    ensures DeadOk(Unlinked(minors, L[k], j), Removed(L, k, j))
  {
    NeighboursIn(minors, L, k, j);
    var w := Unlinked(minors, L[k], j);
    if j > 0 { LiveBlocksApart(L, k, j - 1, k, j); }
    if j + 1 < |L[k].blocks| { LiveBlocksApart(L, k, j + 1, k, j); }
    forall a | a in w && w[a].magic == MAGIC ensures Live(Removed(L, k, j), a) {
      RemovedBlocks(L, k, j, a);
      assert a in minors && minors[a].magic == MAGIC;
      assert a != L[k].blocks[j].addr;
    }
  }

  /** Taking a run out of the doubly linked list of majors. */
  function Spliced(majors: Majors, prev: nat, next: nat, a: nat): Majors {
    var w := if prev in majors then majors[prev := majors[prev].(next := next)] else majors;
    var w' := if next in w then w[next := w[next].(prev := prev)] else w;
    w' - {a}
  }

  lemma SplicedOk(majors: Majors, L: Layout, k: nat, dead: Major)
    requires RunsDistinct(L) && k < |L| && MajorsOk(majors, L)
    requires forall i :: 0 <= i < |L| ==> L[i].addr != 0
    requires 0 !in majors
    ensures MajorsOk(Spliced(majors[L[k].addr := dead], RunAddr(L, k - 1), RunAddr(L, k + 1), L[k].addr),
                     L[..k] + L[k + 1..])
  {
    var M := L[..k] + L[k + 1..];
    var w := Spliced(majors[L[k].addr := dead], RunAddr(L, k - 1), RunAddr(L, k + 1), L[k].addr);
    forall i | 0 <= i < |M| ensures MajorOk(w, M, i) {
      var o := if i < k then i else i + 1;
      assert M[i] == L[o];
      assert MajorOk(majors, L, o);
      assert L[o].addr != L[k].addr;
      if o == k - 1 {
        assert MajorOf(M, i) == MajorOf(L, o).(next := RunAddr(L, k + 1));
      } else if o == k + 1 {
        assert MajorOf(M, i) == MajorOf(L, o).(prev := RunAddr(L, k - 1));
      } else {
        assert L[o].addr != RunAddr(L, k - 1) && L[o].addr != RunAddr(L, k + 1);
        assert MajorOf(M, i) == MajorOf(L, o);
      }
    }
  }

  // ---- Appending a run ------------------------------------------------------------------------

  function Appended(majors: Majors, L: Layout, r: Run): Majors
    requires L != [] ==> L[|L| - 1].addr in majors
  {
    var w := majors[r.addr := Major(RunAddr(L, |L| - 1), 0, r.pages, Bytes(r), HEADER, 0)];
    if L == [] then w else w[L[|L| - 1].addr := majors[L[|L| - 1].addr].(next := r.addr)]
  }

  lemma AppendedMajors(majors: Majors, L: Layout, r: Run)
    requires RunsDistinct(L + [r]) && MajorsOk(majors, L) && r.blocks == []
    ensures L != [] ==> MajorOk(majors, L, |L| - 1)
    ensures MajorsOk(Appended(majors, L, r), L + [r])
  {
    var M := L + [r];
    assert L != [] ==> MajorOk(majors, L, |L| - 1);
    var w := Appended(majors, L, r);
    assert M[|L|].addr == r.addr;
    forall i | 0 <= i < |M| ensures MajorOk(w, M, i) {
      if i < |L| {
        assert MajorOk(majors, L, i);
        assert M[i].addr != M[|L|].addr;
        if i < |L| - 1 { assert M[i].addr != M[|L| - 1].addr; }
      }
    }
  }

  lemma AppendedMinors(minors: Minors, L: Layout, page: nat, size: nat)
    requires WfOpen(L) && page != 0 && HookOk(L, page, size)
    requires MinorsOk(minors, L) && DeadOk(minors, L)
    ensures var r := Fresh(page, size);
            && MinorsOk(Wipe(minors, page, page + Bytes(r)), L + [r])
            && DeadOk(Wipe(minors, page, page + Bytes(r)), L + [r])
  {
    var r := Fresh(page, size);
    var M := L + [r];
    var m := Wipe(minors, page, page + Bytes(r));
    forall i, j | At(M, i, j) ensures MinorOk(m, M[i], j) {
      assert At(L, i, j) && MinorOk(minors, L[i], j);
      BlockInside(L[i], j);
      assert Apart(L[i], r);
    }
    forall a | a in m && m[a].magic == MAGIC ensures Live(M, a) {
      var i, j :| At(L, i, j) && L[i].blocks[j].addr == a;
      assert At(M, i, j) && M[i].blocks[j].addr == a;
    }
  }
}
