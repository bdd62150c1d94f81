/** What several parts of the model share. */

/** Bytes, and stores that stay inside a range. */
module Memory {

  type byte = b: int | 0 <= b < 0x100

  /** Nothing but the cells from lo to hi - 1 differs. */
  ghost predicate SameOutside<T>(m: seq<T>, m': seq<T>, lo: int, hi: int) {
    |m| == |m'| && forall x :: 0 <= x < |m| && !(lo <= x < hi) ==> m'[x] == m[x]
  }
}

module Options {

  datatype Option<T> = None | Some(value: T)
}

/** A disk as a function from block ids to contents. */
module Disks {
  import opened Memory

  type Disk = nat -> seq<byte>

  /** The little-endian 32-bit word at an offset of a block. */
  function Word32(s: seq<byte>, off: nat): nat
    requires off + 4 <= |s|
  {
    s[off] as nat + 0x100 * (s[off + 1] as nat) + 0x1_0000 * (s[off + 2] as nat) + 0x100_0000 * (s[off + 3] as nat)
  }

  /** A 32-bit number stored lowest byte first is read back. */
  lemma WordDecodes(s: seq<byte>, off: nat, v: nat)
    requires off + 4 <= |s| && v < 0x1_0000_0000
    requires s[off] == v % 0x100 && s[off + 1] == v / 0x100 % 0x100
    requires s[off + 2] == v / 0x1_0000 % 0x100 && s[off + 3] == v / 0x100_0000
    ensures Word32(s, off) == v
  {
    var x, y := v / 0x100, v / 0x1_0000;
    assert y == x / 0x100 && v / 0x100_0000 == y / 0x100;
    assert v == 0x100 * x + v % 0x100 && x == 0x100 * y + x % 0x100 && y == 0x100 * (y / 0x100) + y % 0x100;
  }
}

/** Products and quotients by a variable. */
module Division {

  lemma {:induction false} Fits(i: nat, count: nat, b: nat)
    requires i < count
    ensures i * b + b <= count * b
  {
    assert count * b == (count - 1) * b + b;
    if i + 1 < count { Fits(i, count - 1, b); }
  }

  lemma MulMono(x: nat, y: nat, b: nat)
    requires x <= y
    ensures x * b <= y * b
  {
    if x < y { Fits(x, y, b); }
  }

  lemma QuotientOf(x: nat, q: nat, n: nat)
    requires n > 0 && q * n <= x < q * n + n
    ensures x / n == q && x % n == x - q * n
  {
    var p := x / n;
    assert x == p * n + x % n;
    if p < q { Fits(p, q, n); }
    if q < p { Fits(q, p, n); }
  }
}
