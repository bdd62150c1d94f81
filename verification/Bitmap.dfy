/** The page bitmap shared by the kernel heap and the physical memory allocator. The probe
    `get_bitmap` tests the byte against the bit number itself instead of against the bit; the
    model keeps that, and also states what an exact probe would give. */
module Bitmap {

  /** How the search reads a bit: as the source does, or exactly. */
  datatype Probe = AsWritten | Exact

  function Mask(k: nat): bv8
    requires k < 8
  {
    1 << k
  }

  predicate ReadsSet(pr: Probe, v: bv8, k: nat)
    requires k < 8
  {
    match pr
    case AsWritten => v & (k as bv8) != 0
    case Exact => v & Mask(k) != 0
  }

  /** Bit i of the bitmap, as set_bitmap and unset_bitmap address it. */
  predicate Bit(b: seq<bv8>, i: nat)
    requires i < 8 * |b|
  {
    b[i / 8] & Mask(i % 8) != 0
  }

  predicate Taken(pr: Probe, b: seq<bv8>, i: nat)
    requires i < 8 * |b|
  {
    ReadsSet(pr, b[i / 8], i % 8)
  }

  function SetBit(b: seq<bv8>, i: nat): seq<bv8>
    requires i < 8 * |b|
  {
    b[i / 8 := b[i / 8] | Mask(i % 8)]
  }

  function ClearBit(b: seq<bv8>, i: nat): seq<bv8>
    requires i < 8 * |b|
  {
    b[i / 8 := b[i / 8] & !Mask(i % 8)]
  }

  function SetRun(b: seq<bv8>, start: nat, n: nat): (r: seq<bv8>)
    requires start + n <= 8 * |b|
    ensures |r| == |b|
  {
    if n == 0 then b else SetBit(SetRun(b, start, n - 1), start + n - 1)
  }

  function ClearRun(b: seq<bv8>, start: nat, n: nat): (r: seq<bv8>)
    requires start + n <= 8 * |b|
    ensures |r| == |b|
  {
    if n == 0 then b else ClearBit(ClearRun(b, start, n - 1), start + n - 1)
  }

  /** The n probes from `start` on all read clear. */
  predicate Vacant(pr: Probe, b: seq<bv8>, start: nat, n: nat) {
    start + n <= 8 * |b| && forall i :: start <= i < start + n ==> !Taken(pr, b, i)
  }

  predicate LeastVacant(pr: Probe, b: seq<bv8>, start: nat, n: nat) {
    Vacant(pr, b, start, n) && forall s :: 0 <= s < start ==> !Vacant(pr, b, s, n)
  }

  predicate Free(b: seq<bv8>, start: nat, n: nat) {
    start + n <= 8 * |b| && forall i :: start <= i < start + n ==> !Bit(b, i)
  }

  lemma LeastUnique(pr: Probe, b: seq<bv8>, n: nat, s: nat, t: nat)
    requires LeastVacant(pr, b, s, n) && LeastVacant(pr, b, t, n)
    ensures s == t
  {
  }

  // ---- The operations -------------------------------------------------------------------------

  method SetBitmap(b: array<bv8>, i: nat)
    requires i < 8 * b.Length
    modifies b
    ensures b[..] == SetBit(old(b[..]), i)
  {
    b[i / 8] := b[i / 8] | (1 << (i % 8));
  }

  method UnsetBitmap(b: array<bv8>, i: nat)
    requires i < 8 * b.Length
    modifies b
    ensures b[..] == ClearBit(old(b[..]), i)
  {
    b[i / 8] := b[i / 8] & !(1 << (i % 8));
  }

  /** The search of bitmap_find_zero. It never looks at the length of the map, so a vacant run
      must exist. */
  method FindVacant(pr: Probe, b: array<bv8>, nr: nat) returns (start: nat)
    requires exists s: nat :: Vacant(pr, b[..], s, nr)
    ensures LeastVacant(pr, b[..], start, nr)
  {
    ghost var w: nat :| Vacant(pr, b[..], w, nr);
    var streak := 0;
    start := 0;
    while streak != nr
      invariant 0 <= streak <= nr && start <= w
      invariant Vacant(pr, b[..], start, streak)
      invariant forall s :: 0 <= s < start ==> !Vacant(pr, b[..], s, nr)
      decreases w - start, nr - streak
    {
      assert start + streak < 8 * b.Length && b[..][(start + streak) / 8] == b[(start + streak) / 8];
      if !ReadsSet(pr, b[(start + streak) / 8], (start + streak) % 8) {
        streak := streak + 1;
      } else {
        forall s | start <= s <= start + streak ensures !Vacant(pr, b[..], s, nr) {
          assert Taken(pr, b[..], start + streak);
        }
        start := start + streak + 1;
        streak := 0;
      }
    }
  }

  method BitmapFindZero(pr: Probe, b: array<bv8>, nr: nat) returns (start: nat)
    requires exists s: nat :: Vacant(pr, b[..], s, nr)
    modifies b
    ensures nr == 0 ==> start == 0
    ensures LeastVacant(pr, old(b[..]), start, nr)
    ensures b[..] == SetRun(old(b[..]), start, nr)
  {
    if nr == 0 {
      return 0;
    }
    start := FindVacant(pr, b, nr);
    assert start + nr <= 8 * b.Length;
    hide LeastVacant; hide Vacant; hide SetBit;
    ghost var was := b[..];
    var i := start;
    while i < start + nr
      invariant start <= i <= start + nr && |was| == b.Length
      invariant b[..] == SetRun(was, start, i - start)
    {
      SetBitmap(b, i);
      assert b[..] == SetRun(was, start, i + 1 - start);
      i := i + 1;
    }
  }

  /** The loop of phymem_free_pages. */
  method UnsetRun(b: array<bv8>, start: nat, n: nat)
    requires start + n <= 8 * b.Length
    modifies b
    ensures b[..] == ClearRun(old(b[..]), start, n)
  {
    hide ClearBit;
    ghost var was := b[..];
    var i := 0;
    while i < n
      invariant i <= n && |was| == b.Length
      invariant b[..] == ClearRun(was, start, i)
    {
      UnsetBitmap(b, start + i);
      assert b[..] == ClearRun(was, start, i + 1);
      i := i + 1;
    }
  }

  // ---- Bits ------------------------------------------------------------------------------------

  lemma SetMask(v: bv8, k: nat, m: nat)
    requires k < 8 && m < 8
    ensures ((v | Mask(m)) & Mask(k)) != 0 <==> k == m || v & Mask(k) != 0
  {
  }

  lemma ClearMask(v: bv8, k: nat, m: nat)
    requires k < 8 && m < 8
    ensures ((v & !Mask(m)) & Mask(k)) != 0 <==> k != m && v & Mask(k) != 0
  {
  }

  lemma SetBitBits(b: seq<bv8>, j: nat, i: nat)
    requires j < 8 * |b| && i < 8 * |b|
    ensures Bit(SetBit(b, j), i) <==> i == j || Bit(b, i)
  {
    if i / 8 == j / 8 { SetMask(b[i / 8], i % 8, j % 8); }
  }

  lemma ClearBitBits(b: seq<bv8>, j: nat, i: nat)
    requires j < 8 * |b| && i < 8 * |b|
    ensures Bit(ClearBit(b, j), i) <==> i != j && Bit(b, i)
  {
    if i / 8 == j / 8 { ClearMask(b[i / 8], i % 8, j % 8); }
  }

  /** Setting a run sets exactly its bits. */
  lemma {:induction false} SetRunBits(b: seq<bv8>, start: nat, n: nat, i: nat)
    requires start + n <= 8 * |b| && i < 8 * |b|
    ensures Bit(SetRun(b, start, n), i) <==> start <= i < start + n || Bit(b, i)
  {
    hide Bit; hide SetBit;
    if n > 0 {
      SetRunBits(b, start, n - 1, i);
      SetBitBits(SetRun(b, start, n - 1), start + n - 1, i);
    }
  }

  lemma {:induction false} ClearRunBits(b: seq<bv8>, start: nat, n: nat, i: nat)
    requires start + n <= 8 * |b| && i < 8 * |b|
    ensures Bit(ClearRun(b, start, n), i) <==> !(start <= i < start + n) && Bit(b, i)
  {
    hide Bit; hide ClearBit;
    if n > 0 {
      ClearRunBits(b, start, n - 1, i);
      ClearBitBits(ClearRun(b, start, n - 1), start + n - 1, i);
    }
  }

  lemma SameByte(v: bv8, w: bv8)
    requires forall k :: 0 <= k < 8 ==> (v & Mask(k) != 0 <==> w & Mask(k) != 0)
    ensures v == w
  {
    assert v & Mask(0) != 0 <==> w & Mask(0) != 0;
    assert v & Mask(1) != 0 <==> w & Mask(1) != 0;
    assert v & Mask(2) != 0 <==> w & Mask(2) != 0;
    assert v & Mask(3) != 0 <==> w & Mask(3) != 0;
    assert v & Mask(4) != 0 <==> w & Mask(4) != 0;
    assert v & Mask(5) != 0 <==> w & Mask(5) != 0;
    assert v & Mask(6) != 0 <==> w & Mask(6) != 0;
    assert v & Mask(7) != 0 <==> w & Mask(7) != 0;
  }

  /** A bitmap is its bits. */
  lemma SameBits(b: seq<bv8>, c: seq<bv8>)
    requires |b| == |c| && forall i :: 0 <= i < 8 * |b| ==> (Bit(b, i) <==> Bit(c, i))
    ensures b == c
  {
    forall n | 0 <= n < |b| ensures b[n] == c[n] {
      forall k | 0 <= k < 8 ensures b[n] & Mask(k) != 0 <==> c[n] & Mask(k) != 0 {
        assert (8 * n + k) / 8 == n && (8 * n + k) % 8 == k;
        assert Bit(b, 8 * n + k) <==> Bit(c, 8 * n + k);
      }
      SameByte(b[n], c[n]);
    }
  }

  /** Clearing a run that was free before it was set undoes the setting. */
  lemma ClearUndoesSet(b: seq<bv8>, start: nat, n: nat)
    requires Free(b, start, n)
    ensures ClearRun(SetRun(b, start, n), start, n) == b
  {
    var c := ClearRun(SetRun(b, start, n), start, n);
    forall i | 0 <= i < 8 * |b| ensures Bit(c, i) <==> Bit(b, i) {
      ClearRunBits(SetRun(b, start, n), start, n, i);
      SetRunBits(b, start, n, i);
    }
    SameBits(c, b);
  }

  // ---- The probe as written ----------------------------------------------------------------------

  /** The written probe agrees with the bits of a byte only if the byte is zero. */
  lemma ProbeExactIffZero(v: bv8)
    ensures (forall k :: 0 <= k < 8 ==> (ReadsSet(AsWritten, v, k) <==> ReadsSet(Exact, v, k))) <==> v == 0
  {
    if forall k :: 0 <= k < 8 ==> (ReadsSet(AsWritten, v, k) <==> ReadsSet(Exact, v, k)) {
      assert ReadsSet(AsWritten, v, 0) <==> ReadsSet(Exact, v, 0);
      assert ReadsSet(AsWritten, v, 1) <==> ReadsSet(Exact, v, 1);
      assert ReadsSet(AsWritten, v, 2) <==> ReadsSet(Exact, v, 2);
      assert ReadsSet(AsWritten, v, 3) <==> ReadsSet(Exact, v, 3);
      assert ReadsSet(AsWritten, v, 4) <==> ReadsSet(Exact, v, 4);
      assert ReadsSet(AsWritten, v, 5) <==> ReadsSet(Exact, v, 5);
      assert ReadsSet(AsWritten, v, 6) <==> ReadsSet(Exact, v, 6);
      assert ReadsSet(AsWritten, v, 7) <==> ReadsSet(Exact, v, 7);
      SameByte(v, 0);
    }
  }

  /** What the written probe sees: bit t of the byte, for the t below 3 that are set in the number of the
      bit asked for; never bits 3 to 7. */
  lemma WrittenProbeSees(v: bv8, k: nat)
    requires k < 8
    ensures ReadsSet(AsWritten, v, k) <==>
            (k % 2 == 1 && v & 1 != 0) || (k / 2 % 2 == 1 && v & 2 != 0) || (k / 4 == 1 && v & 4 != 0)
  {
    if k == 0 {} else if k == 1 {} else if k == 2 {} else if k == 3 {} else if k == 4 {} else if k == 5 {} else if k == 6 {} else {}
  }

  lemma OddProbe(v: bv8, k: nat)
    requires k < 8 && k % 2 == 1 && v & 1 != 0
    ensures ReadsSet(AsWritten, v, k)
  {
  }

  lemma ZeroByte(k: nat)
    requires k < 8
    ensures !ReadsSet(AsWritten, 0, k) && 0 & Mask(k) == 0
  {
  }

  function Lowest(v: bv8): (l: nat)
    requires v != 0
    ensures l < 8 && v & Mask(l) != 0
    ensures v & 1 == 0 ==> l > 0
    ensures forall t :: 0 <= t <= l ==> !ReadsSet(AsWritten, v, t)
  {
    if v & 1 != 0 then 0 else if v & 2 != 0 then 1 else if v & 4 != 0 then 2 else if v & 8 != 0 then 3
    else if v & 16 != 0 then 4 else if v & 32 != 0 then 5 else if v & 64 != 0 then 6 else 7
  }

  /** The bytes in use are the first n, and each has its bit 0 set. */
  predicate Marked(b: seq<bv8>, n: nat) {
    && n <= |b|
    && (forall i :: 0 <= i < n ==> b[i] & 1 != 0)
    && (forall i :: n <= i < |b| ==> b[i] == 0)
  }

  /** In a marked bitmap no two neighbouring probes of a used byte read clear. */
  lemma NoPairInUse(b: seq<bv8>, n: nat, s: nat, nr: nat)
    requires Marked(b, n) && s < 8 * n && nr >= 2
    ensures !Vacant(AsWritten, b, s, nr)
  {
    OddTaken(b, n, s);
  }

  /** One of two neighbouring probes has an odd number, and such a probe sees bit 0 of its byte. */
  lemma OddTaken(b: seq<bv8>, n: nat, s: nat)
    requires n <= |b| && (forall i :: 0 <= i < n ==> b[i] & 1 != 0) && s < 8 * n
    ensures Taken(AsWritten, b, s) || (s + 1 < 8 * |b| && Taken(AsWritten, b, s + 1))
  {
    hide ReadsSet;
    var i := OddOf(s, n);
    OddProbe(b[i / 8], i % 8);
  }

  lemma OddOf(s: nat, n: nat) returns (i: nat)
    requires s < 8 * n
    ensures (i == s || i == s + 1) && i / 8 < n && (i % 8) % 2 == 1
  {
    i := if s % 2 == 1 then s else s + 1;
    var q, r := s / 8, s % 8;
    assert s == 8 * q + r;
  }

  lemma BehindMark(b: seq<bv8>, n: nat, s: nat, nr: nat)
    requires Marked(b, n) && 8 * n <= s && s + nr <= 8 * |b|
    ensures Vacant(AsWritten, b, s, nr) && Free(b, s, nr)
  {
    forall i | s <= i < s + nr ensures !Taken(AsWritten, b, i) && !Bit(b, i) {
      assert b[i / 8] == 0;
      ZeroByte(i % 8);
    }
  }

  /** A request of two or more pages on a marked bitmap gets the first all-zero byte. */
  lemma MarkedStart(b: seq<bv8>, n: nat, nr: nat, start: nat)
    requires Marked(b, n) && nr >= 2 && 8 * n + nr <= 8 * |b|
    ensures LeastVacant(AsWritten, b, start, nr) <==> start == 8 * n
  {
    BehindMark(b, n, 8 * n, nr);
    forall s: nat | s < 8 * n ensures !Vacant(AsWritten, b, s, nr) {
      NoPairInUse(b, n, s, nr);
    }
  }

  /** Every request of two or more pages is answered with free pages only. */
  ghost predicate Safe(b: seq<bv8>) {
    forall start: nat, nr: nat :: nr >= 2 && LeastVacant(AsWritten, b, start, nr) ==> Free(b, start, nr)
  }

  lemma MarkedSafe(b: seq<bv8>, n: nat)
    requires Marked(b, n)
    ensures Safe(b)
  {
    forall start: nat, nr: nat | nr >= 2 && LeastVacant(AsWritten, b, start, nr) ensures Free(b, start, nr) {
      if start < 8 * n { NoPairInUse(b, n, start, nr); }
      BehindMark(b, n, start, nr);
    }
  }

  /** A first byte k without bit 0, and a non-empty byte m at or behind it with only empty ones
      between, make one request overlap the pages in use. */
  lemma UnmarkedUnsafe(b: seq<bv8>, k: nat, m: nat)
    requires k <= m < |b| && b[k] & 1 == 0 && b[m] != 0
    requires forall i :: 0 <= i < k ==> b[i] & 1 != 0
    requires forall i :: k <= i < m ==> b[i] == 0
    ensures !Safe(b)
  {
    var l := Lowest(b[m]);
    var nr := 8 * (m - k) + l + 1;
    forall i | 8 * k <= i < 8 * k + nr ensures !Taken(AsWritten, b, i) { LooksVacant(b, k, m, i); }
    forall s: nat | s < 8 * k ensures !Vacant(AsWritten, b, s, nr) { OddTaken(b, k, s); }
    assert LeastVacant(AsWritten, b, 8 * k, nr);
    assert (8 * m + l) / 8 == m && (8 * m + l) % 8 == l;
    assert Bit(b, 8 * m + l);
  }

  lemma LooksVacant(b: seq<bv8>, k: nat, m: nat, i: nat)
    requires k <= m < |b| && b[m] != 0 && (forall x :: k <= x < m ==> b[x] == 0)
    requires 8 * k <= i <= 8 * m + Lowest(b[m])
    ensures !Taken(AsWritten, b, i)
  {
    if i < 8 * m { ZeroByte(i % 8); } else { assert i / 8 == m && i % 8 <= Lowest(b[m]); }
  }

  /** Exactly when the written search is right for every request of two or more pages: the bytes
      in use form a prefix of the map and each has its bit 0 set. */
  lemma SafeIffMarked(b: seq<bv8>)
    ensures Safe(b) <==> exists n: nat :: Marked(b, n)
  {
    if n: nat :| Marked(b, n) {
      MarkedSafe(b, n);
    } else {
      var k := 0;
      while k < |b| && b[k] & 1 != 0
        invariant k <= |b| && forall i :: 0 <= i < k ==> b[i] & 1 != 0
      {
        k := k + 1;
      }
      var m := k;
      while m < |b| && b[m] == 0
        invariant k <= m <= |b| && forall i :: k <= i < m ==> b[i] == 0
      {
        m := m + 1;
      }
      assert m == |b| ==> Marked(b, k);
      UnmarkedUnsafe(b, k, m);
    }
  }

  /** A request of one page always gets page 0, whether or not it is in use. */
  lemma OnePageIsZero(b: seq<bv8>, start: nat)
    requires b != []
    ensures LeastVacant(AsWritten, b, start, 1) <==> start == 0
  {
    assert !Taken(AsWritten, b, 0);
    assert Vacant(AsWritten, b, 0, 1);
  }
}
