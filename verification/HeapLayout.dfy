/** The abstract shape of the liballoc heap: an ordered list of page runs ("majors"), each
    holding an address-ordered list of blocks ("minors"), with the pure operations that
    malloc, free and realloc perform on it and the properties of those operations. */
module HeapLayout {

  const PAGE_SIZE := 4096
  const PAGE_COUNT := 16              // fewest pages asked for at a time
  const HEADER := 24                  // size of a major header and of a minor header, 32-bit build
  const ALIGNMENT := 16
  const ALIGN_INFO := 16
  const PAD := ALIGNMENT + ALIGN_INFO // added to every request
  const ADDRESS_SPACE := 0x1_0000_0000

  /** A minor: header address, bytes reserved behind the header, bytes the caller asked for. */
  datatype Block = Block(addr: nat, size: nat, req: nat)

  /** A major: header address, length in pages, blocks in address order. */
  datatype Run = Run(addr: nat, pages: nat, blocks: seq<Block>)

  type Layout = seq<Run>

  function End(b: Block): nat {
    b.addr + HEADER + b.size
  }

  function Bytes(r: Run): nat {
    r.pages * PAGE_SIZE
  }

  // ---- Gaps -----------------------------------------------------------------------------
  // A run with n blocks has n + 1 gaps: gap 0 in front, gap j behind block j - 1.

  function Lo(r: Run, j: nat): nat
    requires j <= |r.blocks|
  {
    if j == 0 then r.addr + HEADER else End(r.blocks[j - 1])
  }

  function Hi(r: Run, j: nat): nat
    requires j <= |r.blocks|
  {
    if j == |r.blocks| then r.addr + Bytes(r) else r.blocks[j].addr
  }

  function Gap(r: Run, j: nat): int
    requires j <= |r.blocks|
  {
    Hi(r, j) - Lo(r, j)
  }

  predicate Fits(r: Run, j: nat, size: nat)
    requires j <= |r.blocks|
  {
    Gap(r, j) >= size + HEADER
  }

  // ---- Well-formedness ------------------------------------------------------------------

  /** Every gap has non-negative width: blocks are in address order, disjoint from one another
      and from the major header, and inside the run. */
  ghost predicate Ordered(r: Run) {
    forall j :: 0 <= j <= |r.blocks| ==> Lo(r, j) <= Hi(r, j)
  }

  predicate Padded(b: Block) {
    b.req + PAD <= b.size
  }

  ghost predicate WfRun(r: Run) {
    && 0 < r.addr
    && r.addr + Bytes(r) <= ADDRESS_SPACE
    && Ordered(r)
    && forall j :: 0 <= j < |r.blocks| ==> Padded(r.blocks[j])
  }

  predicate Apart(r: Run, s: Run) {
    r.addr + Bytes(r) <= s.addr || s.addr + Bytes(s) <= r.addr
  }

  /** The invariant inside a call: a run just obtained may still be empty. */
  ghost predicate WfOpen(L: Layout) {
    && (forall i :: 0 <= i < |L| ==> WfRun(L[i]))
    && (forall i, k :: 0 <= i < k < |L| ==> Apart(L[i], L[k]))
  }

  /** The invariant between calls: in addition no listed run is empty. */
  ghost predicate Wf(L: Layout) {
    && WfOpen(L)
    && forall i :: 0 <= i < |L| ==> L[i].blocks != []
  }

  ghost predicate At(L: Layout, k: int, j: int) {
    0 <= k < |L| && 0 <= j < |L[k].blocks|
  }

  /** Some listed block has its header at address `a`. */
  ghost predicate Live(L: Layout, a: nat) {
    exists k, j :: At(L, k, j) && L[k].blocks[j].addr == a
  }

  ghost predicate Listed(L: Layout, a: nat) {
    exists i :: 0 <= i < |L| && L[i].addr == a
  }

  // ---- Counters -------------------------------------------------------------------------

  function Payload(bs: seq<Block>): nat {
    if bs == [] then 0 else bs[0].size + Payload(bs[1..])
  }

  function Usage(r: Run): nat {
    HEADER + Payload(r.blocks) + HEADER * |r.blocks|
  }

  function FreeBytes(r: Run): int {
    Bytes(r) - Usage(r)
  }

  function TotalBytes(L: Layout): nat {
    if L == [] then 0 else Bytes(L[0]) + TotalBytes(L[1..])
  }

  function TotalInUse(L: Layout): nat {
    if L == [] then 0 else Payload(L[0].blocks) + TotalInUse(L[1..])
  }

  function TotalBlocks(L: Layout): nat {
    if L == [] then 0 else |L[0].blocks| + TotalBlocks(L[1..])
  }

  // ---- Operations -----------------------------------------------------------------------

  function Insert(r: Run, j: nat, size: nat, req: nat): Run
    requires j <= |r.blocks|
  {
    r.(blocks := r.blocks[..j] + [Block(Lo(r, j), size, req)] + r.blocks[j..])
  }

  function Inserted(L: Layout, k: nat, j: nat, size: nat, req: nat): Layout
    requires k < |L| && j <= |L[k].blocks|
  {
    L[k := Insert(L[k], j, size, req)]
  }

  function Delete(r: Run, j: nat): Run
    requires j < |r.blocks|
  {
    r.(blocks := r.blocks[..j] + r.blocks[j + 1..])
  }

  /** Free: the block goes, and its run with it if that was the last block. */
  function Removed(L: Layout, k: nat, j: nat): Layout
    requires At(L, k, j)
  {
    if |L[k].blocks| == 1 then L[..k] + L[k + 1..] else L[k := Delete(L[k], j)]
  }

  /** Realloc to a smaller size: only the recorded request changes. */
  function Shrunk(L: Layout, k: nat, j: nat, req: nat): Layout
    requires At(L, k, j)
  {
    L[k := L[k].(blocks := L[k].blocks[j := L[k].blocks[j].(req := req)])]
  }

  function PagesFor(size: nat): nat {
    var st := size + 2 * HEADER;
    var pages := if st % PAGE_SIZE == 0 then st / PAGE_SIZE else st / PAGE_SIZE + 1;
    if pages < PAGE_COUNT then PAGE_COUNT else pages
  }

  function Fresh(page: nat, size: nat): Run {
    Run(page, PagesFor(size), [])
  }

  function Grown(L: Layout, page: nat, size: nat, req: nat): Layout {
    L + [Insert(Fresh(page, size), 0, size, req)]
  }

  /** What liballoc_alloc owes its caller when it does not fail: a non-null run inside the
      address space that overlaps no run still held. */
  ghost predicate HookOk(L: Layout, page: nat, size: nat) {
    page != 0 ==> WfRun(Fresh(page, size)) && forall i :: 0 <= i < |L| ==> Apart(L[i], Fresh(page, size))
  }

  // ---- Search order ---------------------------------------------------------------------

  datatype Place = None | Some(run: nat, gap: nat)

  function FitGap(r: Run, j: nat, size: nat): (g: nat)
    requires j <= |r.blocks| + 1
    ensures g <= |r.blocks| + 1
    decreases |r.blocks| + 1 - j
  {
    if j == |r.blocks| + 1 || Fits(r, j, size) then j else FitGap(r, j + 1, size)
  }

  /** First fitting gap of the runs i, i + 1, ... */
  function FitFrom(L: Layout, i: nat, size: nat): Place
    requires i <= |L|
    decreases |L| - i
  {
    if i == |L| then None
    else if FitGap(L[i], 0, size) <= |L[i].blocks| then Some(i, FitGap(L[i], 0, size))
    else FitFrom(L, i + 1, size)
  }

  /** The search of malloc: from run `start` to the end, then once more from the root. */
  function Search(L: Layout, start: nat, size: nat): Place
    requires start <= |L|
  {
    var p := FitFrom(L, start, size);
    if p == None then FitFrom(L, 0, size) else p
  }

  ghost predicate FitsAt(L: Layout, k: int, g: int, size: nat) {
    0 <= k < |L| && 0 <= g <= |L[k].blocks| && Fits(L[k], g, size)
  }

  // ---- Lemmas: one run ------------------------------------------------------------------

  lemma {:induction false} PayloadConcat(a: seq<Block>, b: seq<Block>)
    ensures Payload(a + b) == Payload(a) + Payload(b)
  {
    if a == [] {
      assert a + b == b;
    } else {
      assert (a + b)[1..] == a[1..] + b;
      PayloadConcat(a[1..], b);
    }
  }

  lemma PayloadOne(b: Block)
    ensures Payload([b]) == b.size
  {
    assert [b][1..] == [];
  }

  /** Everything before gap j takes room, so the gap cannot start lower than this. */
  lemma {:induction false} LoBound(r: Run, j: nat)
    requires Ordered(r) && j <= |r.blocks|
    ensures r.addr + HEADER + Payload(r.blocks[..j]) + HEADER * j <= Lo(r, j)
  {
    if j > 0 {
      LoBound(r, j - 1);
      assert Lo(r, j - 1) <= Hi(r, j - 1);
      assert r.blocks[..j] == r.blocks[..j - 1] + [r.blocks[j - 1]];
      PayloadConcat(r.blocks[..j - 1], [r.blocks[j - 1]]);
      PayloadOne(r.blocks[j - 1]);
    }
  }

  lemma {:induction false} HiBound(r: Run, j: nat)
    requires Ordered(r) && j <= |r.blocks|
    ensures Hi(r, j) + Payload(r.blocks[j..]) + HEADER * (|r.blocks| - j) <= r.addr + Bytes(r)
    decreases |r.blocks| - j
  {
    if j < |r.blocks| {
      HiBound(r, j + 1);
      assert Lo(r, j + 1) <= Hi(r, j + 1);
      assert r.blocks[j..] == [r.blocks[j]] + r.blocks[j + 1..];
      PayloadConcat([r.blocks[j]], r.blocks[j + 1..]);
      PayloadOne(r.blocks[j]);
    }
  }

  /** No gap is wider than the free space the usage counter reports. */
  lemma GapWithinFree(r: Run, j: nat)
    requires Ordered(r) && j <= |r.blocks|
    ensures Gap(r, j) <= FreeBytes(r)
  {
    LoBound(r, j);
    HiBound(r, j);
    assert r.blocks == r.blocks[..j] + r.blocks[j..];
    PayloadConcat(r.blocks[..j], r.blocks[j..]);
  }

  lemma {:induction false} BlocksAscend(r: Run, i: nat, j: nat)
    requires Ordered(r) && i < j <= |r.blocks|
    ensures End(r.blocks[i]) <= Lo(r, j) <= Hi(r, j)
  {
    if i + 1 < j {
      BlocksAscend(r, i, j - 1);
    }
  }

  lemma BlockInside(r: Run, j: nat)
    requires Ordered(r) && j < |r.blocks|
    ensures r.addr + HEADER <= r.blocks[j].addr
    ensures End(r.blocks[j]) <= r.addr + Bytes(r)
  {
    assert Lo(r, 0) <= Hi(r, 0);
    if j > 0 { BlocksAscend(r, 0, j); }
    BlocksAscend(r, j, |r.blocks|);
  }

  lemma GapInside(r: Run, j: nat)
    requires Ordered(r) && j <= |r.blocks|
    ensures r.addr + HEADER <= Lo(r, j) <= Hi(r, j) <= r.addr + Bytes(r)
  {
    if j > 0 { BlockInside(r, j - 1); }
    if j < |r.blocks| { BlockInside(r, j); }
  }

  lemma InsertOrdered(r: Run, j: nat, size: nat, req: nat)
    requires Ordered(r) && j <= |r.blocks| && Fits(r, j, size)
    ensures Ordered(Insert(r, j, size, req))
  {
    var s := Insert(r, j, size, req);
    forall i | 0 <= i <= |s.blocks| ensures Lo(s, i) <= Hi(s, i) {
      if i <= j {
        assert Lo(s, i) == Lo(r, i);
        assert i < j ==> Hi(s, i) == Hi(r, i);
      } else {
        assert i > j + 1 ==> Lo(s, i) == Lo(r, i - 1);
        assert Hi(s, i) == Hi(r, i - 1);
      }
    }
  }

  lemma InsertWf(r: Run, j: nat, size: nat, req: nat)
    requires WfRun(r) && j <= |r.blocks| && Fits(r, j, size) && req + PAD <= size
    ensures WfRun(Insert(r, j, size, req))
    ensures Usage(Insert(r, j, size, req)) == Usage(r) + size + HEADER
    ensures Payload(Insert(r, j, size, req).blocks) == Payload(r.blocks) + size
  {
    InsertOrdered(r, j, size, req);
    var s := Insert(r, j, size, req);
    var b := Block(Lo(r, j), size, req);
    forall i | 0 <= i < |s.blocks| ensures Padded(s.blocks[i]) {
      assert s.blocks[i] == if i < j then r.blocks[i] else if i == j then b else r.blocks[i - 1];
    }
    PayloadConcat(r.blocks[..j] + [b], r.blocks[j..]);
    PayloadConcat(r.blocks[..j], [b]);
    PayloadOne(b);
    assert r.blocks == r.blocks[..j] + r.blocks[j..];
    PayloadConcat(r.blocks[..j], r.blocks[j..]);
  }

  lemma DeleteWf(r: Run, j: nat)
    requires WfRun(r) && j < |r.blocks|
    ensures WfRun(Delete(r, j))
    ensures Usage(Delete(r, j)) == Usage(r) - r.blocks[j].size - HEADER
    ensures Payload(Delete(r, j).blocks) == Payload(r.blocks) - r.blocks[j].size
  {
    DeletePayload(r, j);
    DeleteOrdered(r, j);
    hide Payload; hide Ordered;
    var s := Delete(r, j);
    forall i | 0 <= i < |s.blocks| ensures Padded(s.blocks[i]) {
      assert s.blocks[i] == if i < j then r.blocks[i] else r.blocks[i + 1];
    }
  }

  lemma DeleteOrdered(r: Run, j: nat)
    requires Ordered(r) && j < |r.blocks|
    ensures Ordered(Delete(r, j))
  {
    var s := Delete(r, j);
    assert Lo(r, j) <= Hi(r, j) && Lo(r, j + 1) <= Hi(r, j + 1);
    forall i | 0 <= i <= |s.blocks| ensures Lo(s, i) <= Hi(s, i) {
      if i <= j {
        assert Lo(s, i) == Lo(r, i);
        assert Hi(s, i) == if i < j then Hi(r, i) else Hi(r, j + 1);
      } else {
        assert Lo(s, i) == Lo(r, i + 1);
        assert Hi(s, i) == Hi(r, i + 1);
      }
    }
  }

  lemma DeletePayload(r: Run, j: nat)
    requires j < |r.blocks|
    ensures Payload(Delete(r, j).blocks) == Payload(r.blocks) - r.blocks[j].size
  {
    var b := r.blocks[j];
    assert r.blocks == r.blocks[..j] + ([b] + r.blocks[j + 1..]);
    PayloadConcat(r.blocks[..j], [b] + r.blocks[j + 1..]);
    PayloadConcat([b], r.blocks[j + 1..]);
    PayloadConcat(r.blocks[..j], r.blocks[j + 1..]);
    PayloadOne(b);
  }

  /** The pages asked for hold the request and both headers, are at least 16, and no smaller count of
      at least 16 would do. */
  lemma PagesLeast(size: nat)
    ensures PagesFor(size) * 4096 >= size + 48 && PagesFor(size) >= 16
    ensures forall n: nat :: n >= 16 && n * 4096 >= size + 48 ==> PagesFor(size) <= n
  {
  }

  /** A run obtained for a request always holds it in its only gap. */
  lemma FreshFits(page: nat, size: nat)
    ensures Gap(Fresh(page, size), 0) >= size + HEADER
    ensures FreeBytes(Fresh(page, size)) >= size + HEADER
    ensures PagesFor(size) >= PAGE_COUNT
  {
  }

}
