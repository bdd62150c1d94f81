/** The physical page allocator: a bitmap over the pages from the end of the kernel to the end of
    memory. With an exact probe the bitmap is always the disjoint union of the ranges handed out. With
    the probe as written, an allocation keeps it so exactly if the pages it is given are free, and every
    request of two or more pages does exactly on a bitmap filled from the front (WrittenTracksIff). */
module Phymem {
  import opened Bitmap

  const PAGE := 0x1000

  /** panic() does not return. */
  datatype Answer<T> = Panic | Ok(value: T)

  datatype State = Zero | One | Two

  function PagesOf(size: nat): nat {
    size / PAGE + 1
  }

  // ---- Live page ranges -----------------------------------------------------------------------

  /** First page and length of every range handed out and not yet given back. */
  type Ranges = map<nat, nat>

  ghost predicate Covers(live: Ranges, i: nat) {
    exists s :: s in live && s <= i < s + live[s]
  }

  ghost predicate Separate(live: Ranges) {
    forall s, t :: s in live && t in live && s != t ==> s + live[s] <= t || t + live[t] <= s
  }

  /** The bitmap is the disjoint union of the live ranges. */
  ghost predicate Tracks(b: seq<bv8>, live: Ranges) {
    && (forall s :: s in live ==> live[s] > 0 && s + live[s] <= 8 * |b|)
    && Separate(live)
    && forall i :: 0 <= i < 8 * |b| ==> (Bit(b, i) <==> Covers(live, i))
  }

  /** Free pages meet no live range. */
  lemma FreeApart(b: seq<bv8>, live: Ranges, start: nat, n: nat, s: nat)
    requires Tracks(b, live) && Free(b, start, n) && n > 0 && s in live
    ensures s + live[s] <= start || start + n <= s
  {
    hide Bit;
    var i := if s < start then start else s;
    if i < start + n { assert !Covers(live, i); }
  }

  /** One more range covers its own pages as well. */
  lemma CoversMore(live: Ranges, start: nat, n: nat, i: nat)
    requires start !in live
    ensures Covers(live[start := n], i) <==> start <= i < start + n || Covers(live, i)
  {
    var l := live[start := n];
    if start <= i < start + n { assert start in l; }
    if Covers(live, i) { var s :| s in live && s <= i < s + live[s]; assert s in l; }
    if Covers(l, i) { var s :| s in l && s <= i < s + l[s]; assert s != start ==> s in live; }
  }

  lemma AllocTracks(b: seq<bv8>, live: Ranges, start: nat, n: nat)
    requires Tracks(b, live) && Free(b, start, n) && n > 0
    ensures start !in live && Tracks(SetRun(b, start, n), live[start := n])
  {
    forall s | s in live ensures s + live[s] <= start || start + n <= s { FreeApart(b, live, start, n, s); }
    assert start !in live;
    var c, l := SetRun(b, start, n), live[start := n];
    assert Separate(l);
    hide Bit; hide SetRun; hide Covers; hide Separate; hide Free;
    forall i | 0 <= i < 8 * |b| ensures Bit(c, i) <==> Covers(l, i) {
      SetRunBits(b, start, n, i);
      CoversMore(live, start, n, i);
    }
  }

  /** An allocation, whatever the probe, adds a range and keeps the union disjoint if and only if the
      pages were free. */
  lemma TracksIffFree(b: seq<bv8>, live: Ranges, start: nat, n: nat)
    requires Tracks(b, live) && n > 0 && start + n <= 8 * |b|
    ensures start !in live && Tracks(SetRun(b, start, n), live[start := n]) <==> Free(b, start, n)
  {
    if Free(b, start, n) {
      AllocTracks(b, live, start, n);
    } else if start !in live {
      hide SetRun;
      var i: nat :| start <= i < start + n && Bit(b, i);
      hide Bit;
      assert Covers(live, i);
      var s :| s in live && s <= i < s + live[s];
      assert s in live[start := n] && start in live[start := n];
    }
  }

  /** The probe as written: every request of two or more pages keeps the bitmap the disjoint union of the
      live ranges if and only if the bytes in use are a prefix of the map, each with its bit 0 set. */
  lemma WrittenTracksIff(b: seq<bv8>, live: Ranges)
    requires Tracks(b, live)
    ensures (forall start: nat, n: nat :: n >= 2 && LeastVacant(AsWritten, b, start, n) ==>
               start !in live && Tracks(SetRun(b, start, n), live[start := n]))
            <==> exists m: nat :: Marked(b, m)
  {
    forall start: nat, n: nat | n >= 2 && LeastVacant(AsWritten, b, start, n)
      ensures start + n <= 8 * |b|
      ensures start !in live && Tracks(SetRun(b, start, n), live[start := n]) <==> Free(b, start, n)
    {
      VacantInside(AsWritten, b, start, n);
      TracksIffFree(b, live, start, n);
    }
    SafeIffMarked(b);
    hide LeastVacant; hide Free; hide Tracks; hide Marked; hide SetRun;
  }

  lemma FreeTracks(b: seq<bv8>, live: Ranges, start: nat)
    requires Tracks(b, live) && start in live
    ensures Tracks(ClearRun(b, start, live[start]), live - {start})
  {
    hide Bit; hide ClearRun;
    var c, l := ClearRun(b, start, live[start]), live - {start};
    forall i | 0 <= i < 8 * |b| ensures Bit(c, i) <==> Covers(l, i) {
      ClearRunBits(b, start, live[start], i);
      if Covers(live, i) {
        var s :| s in live && s <= i < s + live[s];
        if s != start { assert s in l; }
      }
      if Covers(l, i) { var s :| s in l && s <= i < s + l[s]; assert s in live; }
    }
  }

  lemma ExactVacant(b: seq<bv8>, start: nat, n: nat)
    ensures Vacant(Exact, b, start, n) <==> Free(b, start, n)
  {
    if start + n <= 8 * |b| {
      assert forall i :: start <= i < start + n ==> (Taken(Exact, b, i) <==> Bit(b, i));
    }
  }

  lemma VacantInside(pr: Probe, b: seq<bv8>, start: nat, n: nat)
    requires LeastVacant(pr, b, start, n)
    ensures Vacant(pr, b, start, n) && start + n <= 8 * |b|
  {
  }

  /** Giving a range back with the length it was taken with undoes the allocation exactly when the
      pages were free before it. */
  lemma UndoIffFree(b: seq<bv8>, start: nat, n: nat)
    requires start + n <= 8 * |b|
    ensures ClearRun(SetRun(b, start, n), start, n) == b <==> Free(b, start, n)
  {
    if Free(b, start, n) {
      ClearUndoesSet(b, start, n);
    } else {
      var i :| start <= i < start + n && Bit(b, i);
      ClearRunBits(SetRun(b, start, n), start, n, i);
    }
  }

  /** With the probe as written, two requests of one page in a row get the same page. */
  lemma SinglePagesCollide(b: seq<bv8>, s: nat, t: nat)
    requires b != [] && LeastVacant(AsWritten, b, s, 1) && LeastVacant(AsWritten, SetRun(b, s, 1), t, 1)
    ensures s == t
  {
    OnePageIsZero(b, s);
    OnePageIsZero(SetRun(b, s, 1), t);
  }

  /** On an empty map: two pages, two pages, the first two given back, nine pages. The nine start at page
      0, and page 8 among them is in use. */
  lemma NinePagesCollide(b: seq<bv8>)
    requires |b| >= 2 && Marked(b, 0)
    ensures LeastVacant(AsWritten, b, 0, 2)
    ensures LeastVacant(AsWritten, SetRun(b, 0, 2), 8, 2)
    ensures var c := ClearRun(SetRun(SetRun(b, 0, 2), 8, 2), 0, 2); LeastVacant(AsWritten, c, 0, 9) && Bit(c, 8)
  {
    TwoPages(b, 0);
    MarkedStart(b, 0, 2, 0);
    var b1 := SetRun(b, 0, 2);
    assert b1 == b[0 := 3];
    assert Marked(b1, 1);
    MarkedStart(b1, 1, 2, 8);
    TwoPages(b1, 1);
    var b2 := SetRun(b1, 8, 2);
    assert b2 == b[0 := 3][1 := 3];
    var c := ClearRun(b2, 0, 2);
    assert c == b[0 := 0][1 := 3] by { ClearTwo(b2); }
    hide SetRun; hide ClearRun;
    assert c[0] == 0 && c[1] == 3;
    forall i | 0 <= i < 9 ensures !Taken(AsWritten, c, i) {
      if i < 8 { assert i / 8 == 0 && i % 8 == i; ZeroByte(i); } else { assert i / 8 == 1 && i % 8 == 0; }
    }
    assert 8 / 8 == 1 && 8 % 8 == 0 && Mask(0) == 1;
  }

  lemma TwoPages(b: seq<bv8>, m: nat)
    requires m < |b| && b[m] == 0
    ensures SetRun(b, 8 * m, 2) == b[m := 3]
  {
    assert (8 * m) / 8 == m && (8 * m) % 8 == 0 && (8 * m + 1) / 8 == m && (8 * m + 1) % 8 == 1;
    var c := SetBit(b, 8 * m);
    assert SetRun(b, 8 * m, 0) == b && SetRun(b, 8 * m, 1) == c && SetRun(b, 8 * m, 2) == SetBit(c, 8 * m + 1);
    assert c[m] == 1 && SetBit(c, 8 * m + 1)[m] == 3;
  }

  lemma ClearTwo(b: seq<bv8>)
    requires b != [] && b[0] == 3
    ensures ClearRun(b, 0, 2) == b[0 := 0]
  {
    var c := ClearBit(b, 0);
    assert ClearRun(b, 0, 0) == b && ClearRun(b, 0, 1) == c && ClearRun(b, 0, 2) == ClearBit(c, 1);
    assert c[0] == 2 && ClearBit(c, 1)[0] == 0;
  }

  class Allocator {
    const probe: Probe
    var start: nat
    var state: State
    var bitmap: array<bv8>
    ghost var live: Ranges

    ghost predicate Valid()
      reads this, bitmap
    {
      probe == Exact && state == Two ==> Tracks(bitmap[..], live)
    }

    constructor (p: Probe)
      ensures Valid() && state == Zero && probe == p && fresh(bitmap)
    {
      probe, state, start, live := p, Zero, 0, map[];
      bitmap := new bv8[0];
    }

    method InitLevelOne(from: nat)
      modifies this
      ensures Valid() && start == from && state == One && bitmap == old(bitmap)
    {
      start, state := from, One;
    }

    method InitLevelTwo(end: nat) returns (r: Answer<()>)
      requires Valid()
      modifies this
      ensures Valid()
      ensures r.Ok? <==> old(state) == One && old(start) <= end
      ensures r.Panic? ==> unchanged(this)
      ensures r.Ok? ==> state == Two && live == map[] && fresh(bitmap) && start == old(start)
      ensures r.Ok? ==> forall i :: 0 <= i < bitmap.Length ==> bitmap[i] == 0
      // a bit for every page, and at most eight to spare
      ensures r.Ok? ==> (end - start) / PAGE + 1 < 8 * bitmap.Length <= (end - start) / PAGE + 9
    {
      if state != One || end < start {
        return Panic;
      }
      var pages := (end - start) / 4096 + 1;
      var bytes := pages / 8 + 1;
      bitmap := new bv8[bytes](_ => 0);
      live := map[];
      state := Two;
      forall i | 0 <= i < 8 * |bitmap[..]| ensures !Bit(bitmap[..], i) { ZeroByte(i % 8); }
      return Ok(());
    }

    /** What an allocation does to the ranges; a request of no pages changes nothing. */
    static function Taking(live: Ranges, s: nat, pages: nat): Ranges {
      if pages == 0 then live else live[s := pages]
    }

    method AllocPages(pages: nat) returns (r: Answer<nat>)
      requires Valid() && (state == Two ==> exists s: nat :: Vacant(probe, bitmap[..], s, pages))
      modifies this`live, bitmap
      ensures Valid() && (r.Ok? <==> state == Two)
      ensures r.Panic? ==> live == old(live) && bitmap[..] == old(bitmap[..])
      ensures r.Ok? ==> exists s: nat ::
                && LeastVacant(probe, old(bitmap[..]), s, pages)
                && r.value == start + s * PAGE
                && bitmap[..] == SetRun(old(bitmap[..]), s, pages)
                && live == Taking(old(live), s, pages)
                && (probe == Exact && state == Two && pages > 0 ==> s !in old(live))
    {
      if state != Two {
        return Panic;
      }
      var s := BitmapFindZero(probe, bitmap, pages);
      if probe == Exact && pages > 0 {
        ExactVacant(old(bitmap[..]), s, pages);
        AllocTracks(old(bitmap[..]), live, s, pages);
      }
      live := Taking(live, s, pages);
      r := Ok(start + s * PAGE);
    }

    /** Frees pages from `addr` on; the caller gives back a range it was given. */
    method FreePages(addr: nat, pages: nat) returns (r: Answer<()>)
      requires Valid()
      requires state == Two ==> start <= addr && (addr - start) / PAGE + pages <= 8 * bitmap.Length &&
                                (addr - start) / PAGE in live && live[(addr - start) / PAGE] == pages
      modifies this`live, bitmap
      ensures Valid() && (r.Ok? <==> state == Two)
      ensures r.Ok? ==> bitmap[..] == ClearRun(old(bitmap[..]), (addr - start) / PAGE, pages)
      ensures r.Ok? ==> live == old(live) - {(addr - start) / PAGE}
      ensures r.Panic? ==> live == old(live) && bitmap[..] == old(bitmap[..])
    {
      if state != Two {
        return Panic;
      }
      var ps := (addr - start) / PAGE;
      if probe == Exact { FreeTracks(bitmap[..], live, ps); }
      UnsetRun(bitmap, ps, pages);
      live := live - {ps};
      r := Ok(());
    }

    /** phymem_alloc: the pages cover the size and at least one byte more, at most a page more. */
    method Alloc(size: nat) returns (r: Answer<nat>, ghost s: nat, ghost n: nat)
      requires Valid() && (state == Two ==> exists s: nat :: Vacant(probe, bitmap[..], s, PagesOf(size)))
      modifies this`live, bitmap
      ensures Valid() && (r.Ok? <==> state == Two)
      ensures r.Panic? ==> live == old(live) && bitmap[..] == old(bitmap[..])
      ensures r.Ok? ==> size < n * 4096 <= size + 4096
      ensures r.Ok? ==> LeastVacant(probe, old(bitmap[..]), s, n) && r.value == start + s * 4096 && n == PagesOf(size) &&
                        bitmap[..] == SetRun(old(bitmap[..]), s, n) && live == old(live)[s := n] &&
                        (probe == Exact ==> s !in old(live))
    {
      hide Tracks; hide SetRun;
      ghost var b, l := bitmap[..], live;
      var ps := size / PAGE + 1;
      n, s := ps, 0;
      r := AllocPages(ps);
      if r.Ok? {
        s :| LeastVacant(probe, b, s, ps) && r.value == start + s * PAGE
             && bitmap[..] == SetRun(b, s, ps) && live == l[s := ps] && (probe == Exact ==> s !in l);
      }
    }

    /** phymem_free. */
    method Free(addr: nat, size: nat) returns (r: Answer<()>)
      requires Valid()
      requires state == Two ==> start <= addr && (addr - start) / PAGE + PagesOf(size) <= 8 * bitmap.Length &&
                                (addr - start) / PAGE in live && live[(addr - start) / PAGE] == PagesOf(size)
      modifies this`live, bitmap
      ensures Valid() && (r.Ok? <==> state == Two)
      ensures r.Ok? ==> bitmap[..] == ClearRun(old(bitmap[..]), (addr - start) / PAGE, PagesOf(size))
      ensures r.Ok? ==> live == old(live) - {(addr - start) / PAGE}
      ensures r.Panic? ==> live == old(live) && bitmap[..] == old(bitmap[..])
    {
      var ps := size / PAGE + 1;
      r := FreePages(addr, ps);
    }

    /** phymem_alloc and phymem_free turn a size into the same number of pages, so one undoes the
        other: with an exact probe the bitmap and the live ranges are what they were. */
    method AllocThenFree(size: nat) returns (r: Answer<()>)
      requires Valid() && state == Two && exists s: nat :: Vacant(probe, bitmap[..], s, PagesOf(size))
      modifies this`live, bitmap
      ensures Valid() && r.Ok?
      ensures probe == Exact ==> bitmap[..] == old(bitmap[..]) && live == old(live)
    {
      hide Tracks; hide SetRun; hide ClearRun;
      ghost var b, l := bitmap[..], live;
      var p;
      ghost var s, ps;
      p, s, ps := Alloc(size);
      assert (p.value - start) / PAGE == s;
      VacantInside(probe, b, s, ps);
      r := Free(p.value, size);
      if probe == Exact {
        ExactVacant(b, s, ps);
        ClearUndoesSet(b, s, ps);
        assert l[s := ps] - {s} == l;
      }
    }
  }

  /** An allocation where it is known which pages come next. */
  method Take(a: Allocator, n: nat, ghost s: nat) returns (addr: nat)
    requires a.probe == AsWritten && a.state == Two && n > 0 && LeastVacant(AsWritten, a.bitmap[..], s, n)
    modifies a`live, a.bitmap
    ensures s + n <= 8 * |old(a.bitmap[..])| && a.bitmap[..] == SetRun(old(a.bitmap[..]), s, n)
    ensures addr == a.start + s * PAGE && a.live == old(a.live)[s := n]
  {
    ghost var b, l := a.bitmap[..], a.live;
    VacantInside(AsWritten, b, s, n);
    hide SetRun; hide LeastVacant; hide Vacant;
    var p := a.AllocPages(n);
    ghost var t: nat :| LeastVacant(AsWritten, b, t, n) && p.value == a.start + t * PAGE &&
                        a.bitmap[..] == SetRun(b, t, n) && a.live == l[t := n];
    LeastUnique(AsWritten, b, n, s, t);
    addr := p.value;
  }

  /** An allocator as the kernel starts it, with room for at least eight pages. */
  method Started(from: nat, end: nat) returns (a: Allocator)
    requires end >= from + 8 * PAGE
    ensures fresh(a) && fresh(a.bitmap) && a.probe == AsWritten && a.state == Two && a.start == from && a.live == map[]
    ensures a.bitmap.Length >= 2 && Marked(a.bitmap[..], 0)
  {
    a := new Allocator(AsWritten);
    a.InitLevelOne(from);
    var r := a.InitLevelTwo(end);
    assert r.Ok?;
  }

  /** The same on the allocator: the ninth page handed out is one still held. */
  method NinePages(from: nat, end: nat) returns (a: Allocator, held: nat, got: nat)
    requires end >= from + 8 * PAGE
    ensures fresh(a) && held == from + 8 * PAGE && 8 in a.live && a.live[8] == 2
    ensures got == from && 0 in a.live && a.live[0] == 9
  {
    a := Started(from, end);
    NinePagesCollide(a.bitmap[..]);
    hide SetRun; hide ClearRun; hide LeastVacant; hide Marked;
    var first := Take(a, 2, 0);
    held := Take(a, 2, 8);
    assert (first - from) / PAGE == 0;
    var r := a.FreePages(first, 2);
    got := Take(a, 9, 0);
  }
}
