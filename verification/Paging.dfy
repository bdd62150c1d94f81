/** x86 page tables: the boot-time directory and the directory built for a process, judged by the
    32-bit page walk of the Intel SDM, volume 3A, section 4.3. Physical memory is a word array. */
module Paging {
  import opened Memory
  import opened Options

  const SPACE := 0x1_0000_0000
  const PAGE := 0x1000
  const SPAN := 0x40_0000              // bytes one page table maps
  const HEAP_VIRTUAL := 0xC000_0000
  const HEAP_PHYSICAL := 0x40_0000
  const DIRECTORY := 0x30_1000         // where paging_init puts the directory and its two tables
  const HEAP_TABLE := 0x30_2000
  const FIRST_TABLE := 0x30_3000

  type word = x: int | 0 <= x < SPACE

  /** x | 3: sets the two low bits. */
  function Or3(x: word): word {
    x / 4 * 4 + 3
  }

  // ---- The page walk ---------------------------------------------------------------------------

  function Frame(entry: word): word {
    entry / PAGE * PAGE
  }

  predicate Present(entry: word) {
    entry % 2 == 1
  }

  /** Physical address the processor computes for `va` with page directory base `cr3`; None is a
      page fault on a missing entry. */
  function Walk(phys: seq<word>, cr3: word, va: word): Option<word>
    requires |phys| == SPACE / 4
  {
    var pde := phys[Frame(cr3) / 4 + va / SPAN];
    if !Present(pde) then None
    else
      var pte := phys[Frame(pde) / 4 + va / PAGE % 1024];
      if !Present(pte) then None else Some(Frame(pte) + va % PAGE)
  }

  // ---- Page tables ---------------------------------------------------------------------------------

  /** The entry initialize_pt writes at index i. */
  function Entry(start: word, i: nat): word {
    Or3((start + i * PAGE) % SPACE)
  }

  /** Word i of the table or directory at physical address `base`. */
  function Slot(phys: seq<word>, base: word, i: nat): word
    requires |phys| == SPACE / 4 && i < 1024
  {
    if base / 4 + i < |phys| then phys[base / 4 + i] else 0
  }

  /** The table at physical address `table` maps 4 MiB linearly from `start`. */
  predicate Linear(phys: seq<word>, table: word, start: word) {
    |phys| == SPACE / 4 && table % PAGE == 0 && forall i :: 0 <= i < 1024 ==> Slot(phys, table, i) == Entry(start, i)
  }

  method InitializePt(phys: array<word>, table: word, start: word)
    requires phys.Length == SPACE / 4 && table % PAGE == 0
    modifies phys
    ensures Linear(phys[..], table, start)
    ensures SameOutside(old(phys[..]), phys[..], table / 4, table / 4 + 1024)
  {
    var i := 0;
    while i < 1024
      invariant 0 <= i <= 1024
      invariant forall k :: 0 <= k < i ==> phys[table / 4 + k] == Entry(start, k)
      invariant SameOutside(old(phys[..]), phys[..], table / 4, table / 4 + i)
    {
      phys[table / 4 + i] := Or3((start + i * PAGE) % SPACE);
      i := i + 1;
    }
  }

  lemma Or3Facts(x: word)
    ensures Present(Or3(x)) && Frame(Or3(x)) == Frame(x)
  {
    var m := x / PAGE;
    Or3Near(x, m);
    SamePage(x, m);
    SamePage(Or3(x), m);
  }

  /** Setting the two low bits stays inside the page. */
  lemma Or3Near(x: word, m: nat)
    requires m == x / PAGE
    ensures m * PAGE <= x < m * PAGE + PAGE && m * PAGE <= Or3(x) < m * PAGE + PAGE && Or3(x) % 2 == 1
  {
    var r := x - m * PAGE;
    var u := r / 4;
    assert 0 <= r < PAGE;
    Or3Of(x, 1024 * m + u, r - 4 * u);
  }

  lemma Or3Of(x: word, t: int, v: int)
    requires x == 4 * t + v && 0 <= v < 4
    ensures Or3(x) == 4 * t + 3 && Or3(x) % 2 == 1
  {
    var q := x / 4;
    assert 4 * q <= x < 4 * q + 4;
    assert q == t;
    assert Or3(x) == 2 * (2 * t + 1) + 1;
  }

  /** Every entry of a linear table is present and writable, and holds its page's address. */
  lemma LinearEntries(phys: seq<word>, table: word, start: word, i: nat)
    requires Linear(phys, table, start) && i < 1024 && start % 4096 == 0 && start + i * 4096 < SPACE
    ensures Slot(phys, table, i) == start + i * 4096 + 3
  {
    var x := start + i * PAGE;
    assert x % SPACE == x;
    assert x == 4 * (1024 * (start / PAGE) + 1024 * i);
    Or3Of(x, 1024 * (start / PAGE) + 1024 * i, 0);
  }

  lemma SamePage(x: word, m: nat)
    requires m * PAGE <= x < m * PAGE + PAGE
    ensures Frame(x) == m * PAGE
  {
  }

  lemma FrameOfSum(start: word, i: nat)
    requires i < 1024
    ensures Frame((start + i * PAGE) % SPACE) == (Frame(start) + i * PAGE) % SPACE
  {
    var x, y := start + i * PAGE, Frame(start) + i * PAGE;
    assert x - y == start % PAGE && y % PAGE == 0;
    assert x < SPACE || SPACE <= x < 2 * SPACE;
  }

  lemma AlignedFrame(x: word)
    requires x % PAGE == 0
    ensures Frame(x) == x
  {
  }

  /** A linear table sends offset va % SPAN to `start`, rounded down to a page, plus that offset,
      modulo the address space. */
  lemma LinearWalk(start: word, va: word)
    ensures Present(Entry(start, va / PAGE % 1024))
    ensures Frame(Entry(start, va / PAGE % 1024)) + va % PAGE == (Frame(start) + va % SPAN) % SPACE
  {
    hide Frame; hide Or3; hide Present;
    var i := va / PAGE % 1024;
    Or3Facts((start + i * PAGE) % SPACE);
    FrameOfSum(start, i);
    assert va % SPAN == i * PAGE + va % PAGE;
    SumWraps(start, i, va % PAGE);
  }

  lemma SumWraps(start: word, i: nat, o: nat)
    requires i < 1024 && o < PAGE
    ensures (Frame(start) + i * PAGE) % SPACE + o == (Frame(start) + i * PAGE + o) % SPACE
  {
    var y := Frame(start) + i * PAGE;
    assert y % PAGE == 0;
  }

  lemma WalkThrough(phys: seq<word>, cr3: word, va: word, table: word, start: word)
    requires Linear(phys, table, start)
    requires Slot(phys, Frame(cr3), va / SPAN) == Or3(table)
    ensures Walk(phys, cr3, va) == Some((Frame(start) + va % SPAN) % SPACE)
  {
    hide Or3; hide Present; hide Entry; hide Frame;
    LinearWalk(start, va);
    Or3Facts(table);
    AlignedFrame(table);
    assert Slot(phys, table, va / PAGE % 1024) == Entry(start, va / PAGE % 1024);
  }

  // ---- The boot directory ----------------------------------------------------------------------------

  /** What paging_init leaves behind and nobody changes: the two kernel tables. */
  predicate KernelTables(phys: seq<word>) {
    Linear(phys, FIRST_TABLE, 0) && Linear(phys, HEAP_TABLE, HEAP_PHYSICAL)
  }

  function BootEntry(i: nat): word {
    if i == 0 then Or3(FIRST_TABLE) else if i == 768 then Or3(HEAP_TABLE) else 2
  }

  predicate BootDirectory(phys: seq<word>) {
    |phys| == SPACE / 4 && forall i :: 0 <= i < 1024 ==> Slot(phys, DIRECTORY, i) == BootEntry(i)
  }

  lemma LinearKept(a: seq<word>, b: seq<word>, table: word, start: word, lo: int, hi: int)
    requires Linear(a, table, start) && SameOutside(a, b, lo, hi) && (table / 4 + 1024 <= lo || hi <= table / 4)
    ensures Linear(b, table, start)
  {
    forall i | 0 <= i < 1024 ensures Slot(b, table, i) == Entry(start, i) {
      assert Slot(a, table, i) == Entry(start, i);
    }
  }

  method ClearDirectory(phys: array<word>, directory: word)
    requires phys.Length == SPACE / 4 && directory % PAGE == 0
    modifies phys
    ensures forall k :: 0 <= k < 1024 ==> Slot(phys[..], directory, k) == 2
  {
    var i := 0;
    while i < 1024
      invariant 0 <= i <= 1024
      invariant forall k :: 0 <= k < i ==> Slot(phys[..], directory, k) == 2
    {
      ghost var p := phys[..];
      phys[directory / 4 + i] := 2;
      assert forall k :: 0 <= k < i ==> Slot(phys[..], directory, k) == Slot(p, directory, k);
      i := i + 1;
    }
  }

  /** paging_init up to the switch; the physical allocator starts behind the tables. */
  method PagingInit(phys: array<word>) returns (phymemStart: word)
    requires phys.Length == SPACE / 4
    modifies phys
    ensures KernelTables(phys[..]) && BootDirectory(phys[..])
    ensures phymemStart == FIRST_TABLE + PAGE
    // word for word from physical address 0x301000 on: two entries, all others not present
    ensures forall a :: 0xC_0400 <= a < 0xC_0800 ==>
              phys[a] == if a == 0xC_0400 then 0x30_3003 else if a == 0xC_0400 + 768 then 0x30_2003 else 2
  {
    var end: word := 0x30_0000 - 0x30_0000 % PAGE + PAGE;
    var directory := end;
    ClearDirectory(phys, directory);
    ghost var p0 := phys[..];
    end := end + PAGE;
    var heapTable := end;
    end := end + PAGE;
    var firstTable := end;
    InitializePt(phys, firstTable, 0);
    ghost var p1 := phys[..];
    InitializePt(phys, heapTable, HEAP_PHYSICAL);
    ghost var p2 := phys[..];
    LinearKept(p1, p2, FIRST_TABLE, 0, HEAP_TABLE / 4, HEAP_TABLE / 4 + 1024);
    phys[directory / 4 + 768] := Or3(heapTable);
    phys[directory / 4] := Or3(firstTable);
    LinearKept(p2, phys[..], FIRST_TABLE, 0, DIRECTORY / 4, DIRECTORY / 4 + 1024);
    LinearKept(p2, phys[..], HEAP_TABLE, HEAP_PHYSICAL, DIRECTORY / 4, DIRECTORY / 4 + 1024);
    forall i | 0 <= i < 1024 ensures Slot(phys[..], DIRECTORY, i) == BootEntry(i) {
      assert Slot(p0, DIRECTORY, i) == 2;
    }
    forall a | 0xC_0400 <= a < 0xC_0800
      ensures phys[a] == if a == 0xC_0400 then 0x30_3003 else if a == 0xC_0400 + 768 then 0x30_2003 else 2
    {
      assert Slot(phys[..], DIRECTORY, a - 0xC_0400) == BootEntry(a - 0xC_0400);
    }
    phymemStart := end + PAGE;
  }

  /** Through the boot directory the first 4 MiB map to themselves, the heap window to the 4 MiB
      behind them, and nothing else is mapped. */
  lemma BootWalk(phys: seq<word>, va: word)
    requires KernelTables(phys) && BootDirectory(phys)
    ensures Walk(phys, DIRECTORY, va) ==
            if va < SPAN then Some(va)
            else if HEAP_VIRTUAL <= va < HEAP_VIRTUAL + SPAN then Some(HEAP_PHYSICAL + (va - HEAP_VIRTUAL))
            else None
  {
    hide Linear;
    var i := va / SPAN;
    assert Slot(phys, DIRECTORY, i) == BootEntry(i);
    if i == 0 {
      WalkThrough(phys, DIRECTORY, va, FIRST_TABLE, 0);
    } else if i == 768 {
      WalkThrough(phys, DIRECTORY, va, HEAP_TABLE, HEAP_PHYSICAL);
    }
  }

  // ---- A directory for a process ------------------------------------------------------------------

  /** Where the kernel's own mapping puts a heap address. */
  function HeapPhys(v: word): word
    requires HEAP_VIRTUAL <= v < HEAP_VIRTUAL + SPAN
  {
    v - HEAP_VIRTUAL + HEAP_PHYSICAL
  }

  function AlignUp(v: nat): nat {
    if v % PAGE == 0 then v else v - v % PAGE + PAGE
  }

  /** An 8192-byte block of the kernel heap, as malloc returns it. */
  predicate HeapBlock(v: word) {
    HEAP_VIRTUAL <= v && v + 2 * PAGE <= HEAP_VIRTUAL + SPAN
  }

  /** The loop that steps a pointer to the next page boundary. */
  method StepToPage(raw: word) returns (v: word)
    requires HeapBlock(raw)
    ensures v == AlignUp(raw) && v % PAGE == 0 && raw <= v < raw + PAGE
  {
    v := raw;
    while v % PAGE != 0
      invariant raw <= v <= AlignUp(raw)
      decreases AlignUp(raw) - v
    {
      v := v + 1;
    }
  }

  /** What the new directory promises for one address: the 4 MiB user window goes to `paddr`
      (rounded down to a page), the first 4 MiB to themselves, the heap window behind them. */
  predicate Maps(phys: seq<word>, cr3: word, vaddr: word, paddr: word, va: word)
    requires |phys| == SPACE / 4
  {
    if va / SPAN == vaddr / SPAN then Walk(phys, cr3, va) == Some((Frame(paddr) + va % SPAN) % SPACE)
    else if va / SPAN == 0 then Walk(phys, cr3, va) == Some(va)
    else va / SPAN == 768 ==> Walk(phys, cr3, va) == Some(HeapPhys(va))
  }

  ghost predicate ProcessDirectory(phys: seq<word>, cr3: word, vaddr: word, paddr: word)
    requires |phys| == SPACE / 4
  {
    forall va: word :: Maps(phys, cr3, vaddr, paddr, va)
  }

  /** The three windows, address by address. */
  lemma WindowsAre(phys: seq<word>, cr3: word, vaddr: word, paddr: word, va: word)
    requires |phys| == SPACE / 4 && ProcessDirectory(phys, cr3, vaddr, paddr)
    ensures va / 0x40_0000 == vaddr / 0x40_0000 ==>
              Walk(phys, cr3, va) == Some((paddr - paddr % 4096 + va % 0x40_0000) % 0x1_0000_0000)
    ensures va < 0x40_0000 <= vaddr ==> Walk(phys, cr3, va) == Some(va)
    ensures 0xC000_0000 <= va < 0xC040_0000 && vaddr / 0x40_0000 != 768 ==> Walk(phys, cr3, va) == Some(va - 0xC000_0000 + 0x40_0000)
  {
    hide Walk;
    assert Maps(phys, cr3, vaddr, paddr, va);
    assert Frame(paddr) == paddr - paddr % 4096;
  }

  lemma ThreeWindows(phys: seq<word>, cr3: word, vaddr: word, table: word, paddr: word)
    requires |phys| == SPACE / 4 && KernelTables(phys) && Linear(phys, table, paddr) && cr3 % PAGE == 0
    requires Slot(phys, cr3, vaddr / SPAN) == Or3(table)
    requires vaddr / SPAN != 0 ==> Slot(phys, cr3, 0) == Or3(FIRST_TABLE)
    requires vaddr / SPAN != 768 ==> Slot(phys, cr3, 768) == Or3(HEAP_TABLE)
    ensures ProcessDirectory(phys, cr3, vaddr, paddr)
  {
    hide Linear; hide Walk; hide Or3;
    AlignedFrame(cr3);
    forall va: word ensures Maps(phys, cr3, vaddr, paddr, va) {
      if va / SPAN == vaddr / SPAN {
        WalkThrough(phys, cr3, va, table, paddr);
      } else if va / SPAN == 0 {
        WalkThrough(phys, cr3, va, FIRST_TABLE, 0);
      } else if va / SPAN == 768 {
        WalkThrough(phys, cr3, va, HEAP_TABLE, HEAP_PHYSICAL);
      }
    }
  }

  lemma KernelKept(a: seq<word>, b: seq<word>, frame: word)
    requires KernelTables(a) && frame % PAGE == 0 && HEAP_PHYSICAL <= frame
    requires SameOutside(a, b, frame / 4, frame / 4 + 1024)
    ensures KernelTables(b)
  {
    LinearKept(a, b, FIRST_TABLE, 0, frame / 4, frame / 4 + 1024);
    LinearKept(a, b, HEAP_TABLE, HEAP_PHYSICAL, frame / 4, frame / 4 + 1024);
  }

  /** create_new_page_directory; `pdBlock` and `ptBlock` are what its two malloc calls return. Stores
      through heap pointers go where the kernel's mapping sends them. */
  method CreateNewPageDirectory(phys: array<word>, pdBlock: word, ptBlock: word, vaddr: word, paddr: word)
    returns (pd: word)
    requires phys.Length == SPACE / 4 && KernelTables(phys[..])
    requires HeapBlock(pdBlock) && HeapBlock(ptBlock)
    requires pdBlock + 2 * PAGE <= ptBlock || ptBlock + 2 * PAGE <= pdBlock
    modifies phys
    ensures KernelTables(phys[..])
    ensures pd == HeapPhys(AlignUp(pdBlock))
    // the first page boundary of the block, as a physical address
    ensures pd % 4096 == 0 && pdBlock <= pd - 0x40_0000 + 0xC000_0000 < pdBlock + 4096
    ensures Frame(Slot(phys[..], pd, vaddr / SPAN)) == HeapPhys(AlignUp(ptBlock))
    ensures ProcessDirectory(phys[..], pd, vaddr, paddr)
  {
    hide KernelTables; hide Linear;
    var dir := StepToPage(pdBlock);
    phys[HeapPhys(dir) / 4 + 768] := Or3(HEAP_TABLE);
    phys[HeapPhys(dir) / 4] := Or3(FIRST_TABLE);
    var pt := StepToPage(ptBlock);
    ghost var p := phys[..];
    KernelKept(old(phys[..]), p, HeapPhys(dir));
    InitializePt(phys, HeapPhys(pt), paddr);
    ghost var q := phys[..];
    KernelKept(p, q, HeapPhys(pt));
    SetSlot(phys, HeapPhys(dir), vaddr / SPAN, pt);
    KernelKept(q, phys[..], HeapPhys(dir));
    LinearKept(q, phys[..], HeapPhys(pt), paddr, HeapPhys(dir) / 4, HeapPhys(dir) / 4 + 1024);
    pd := dir - HEAP_VIRTUAL + HEAP_PHYSICAL;
    assert vaddr / SPAN != 0 ==> Slot(phys[..], pd, 0) == Slot(q, pd, 0) == Slot(p, pd, 0);
    assert vaddr / SPAN != 768 ==> Slot(phys[..], pd, 768) == Slot(q, pd, 768) == Slot(p, pd, 768);
    ThreeWindows(phys[..], pd, vaddr, HeapPhys(pt), paddr);
    Or3Facts(HeapPhys(pt));
    AlignedFrame(HeapPhys(pt));
  }

  /** The address of a page-aligned table can be converted after its flags are set. */
  lemma Or3Shift(pt: word)
    requires HEAP_VIRTUAL <= pt < HEAP_VIRTUAL + SPAN && pt % PAGE == 0
    ensures HEAP_VIRTUAL <= Or3(pt) && Or3(pt) - HEAP_VIRTUAL + HEAP_PHYSICAL == Or3(HeapPhys(pt))
  {
    var m := pt / PAGE;
    assert pt == 4 * (1024 * m);
    Or3Of(pt, 1024 * m, 0);
    Or3Of(HeapPhys(pt), 1024 * m - HEAP_VIRTUAL / 4 + HEAP_PHYSICAL / 4, 0);
  }

  /** Stores a table in the directory, converting its heap address to a physical one. */
  method SetSlot(phys: array<word>, directory: word, i: nat, pt: word)
    requires phys.Length == SPACE / 4 && directory % PAGE == 0 && directory + PAGE <= SPACE && i < 1024
    requires HEAP_VIRTUAL <= pt < HEAP_VIRTUAL + SPAN && pt % PAGE == 0
    modifies phys
    ensures Slot(phys[..], directory, i) == Or3(HeapPhys(pt))
    ensures SameOutside(old(phys[..]), phys[..], directory / 4 + i, directory / 4 + i + 1)
  {
    Or3Shift(pt);
    hide Or3;
    var at := directory / 4 + i;
    phys[at] := Or3(pt);
    phys[at] := phys[at] - HEAP_VIRTUAL;
    phys[at] := phys[at] + HEAP_PHYSICAL;
  }

  predicate UserExact(phys: seq<word>, cr3: word, vaddr: word, paddr: word, va: word)
    requires |phys| == SPACE / 4
  {
    va / SPAN == vaddr / SPAN ==> Walk(phys, cr3, va) == Some((paddr + va % SPAN) % SPACE)
  }

  /** The user window starts exactly at `paddr` if and only if `paddr` is page aligned. */
  lemma UserWindowExactIff(phys: seq<word>, cr3: word, vaddr: word, paddr: word)
    requires |phys| == SPACE / 4 && ProcessDirectory(phys, cr3, vaddr, paddr)
    ensures (forall va: word :: UserExact(phys, cr3, vaddr, paddr, va)) <==> paddr % PAGE == 0
  {
    hide Walk;
    if paddr % PAGE == 0 {
      forall va: word ensures UserExact(phys, cr3, vaddr, paddr, va) {
        assert Maps(phys, cr3, vaddr, paddr, va);
      }
    } else {
      var va: word := vaddr / SPAN * SPAN;
      assert va / SPAN == vaddr / SPAN && va % SPAN == 0;
      assert Maps(phys, cr3, vaddr, paddr, va);
      assert Frame(paddr) % SPACE == Frame(paddr) != paddr == paddr % SPACE;
      assert !UserExact(phys, cr3, vaddr, paddr, va);
    }
  }
}
