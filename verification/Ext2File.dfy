/** Reading a whole ext2 file: direct, singly and doubly indirect blocks into one buffer, against
    a pure map from logical block number to block id. Block reads are an abstract function. */
module Ext2File {

  import opened Memory
  import opened Disks
  import opened Division

  const DIRECT := 12

  /** The block pointers of an inode. */
  datatype Inode = Inode(dbp: seq<nat>, singly: nat, doubly: nat)

  ghost predicate WfDisk(d: Disk, b: nat) {
    b >= 4 && b % 4 == 0 && forall id :: |d(id)| == b
  }

  /** The i-th little-endian 32-bit word of a block. */
  function Word(s: seq<byte>, i: nat): nat
    requires 4 * i + 4 <= |s|
  {
    Word32(s, 4 * i)
  }

  /** Entry i of the pointer block `id`. */
  function Pointer(d: Disk, b: nat, id: nat, i: nat): nat {
    if 4 * i + 4 <= |d(id)| then Word(d(id), i) else 0
  }

  // ---- The block map -----------------------------------------------------------------------------

  /** Id of logical block k. */
  function BlockMap(d: Disk, b: nat, ino: Inode, k: nat): nat
    requires |ino.dbp| == DIRECT && b >= 4
  {
    var n := b / 4;
    if k < DIRECT then ino.dbp[k]
    else if k < DIRECT + n then Pointer(d, b, ino.singly, k - DIRECT)
    else Pointer(d, b, Pointer(d, b, ino.doubly, (k - DIRECT - n) / n), (k - DIRECT - n) % n)
  }

  /** The block starts with these ids, each in four bytes, lowest first. */
  predicate Stores(block: seq<byte>, ids: seq<nat>) {
    4 * |ids| <= |block| && forall i :: 0 <= i < |ids| ==> StoredAt(block, 4 * i, ids[i])
  }

  predicate StoredAt(block: seq<byte>, off: nat, v: nat) {
    && off + 4 <= |block| && v < 0x1_0000_0000
    && block[off] == v % 0x100 && block[off + 1] == v / 0x100 % 0x100
    && block[off + 2] == v / 0x1_0000 % 0x100 && block[off + 3] == v / 0x100_0000
  }

  /** A pointer block is read as the ids it stores. */
  lemma PointersDecode(d: Disk, b: nat, id: nat, ids: seq<nat>, i: nat)
    requires Stores(d(id), ids) && i < |ids|
    ensures Pointer(d, b, id, i) == ids[i]
  {
    assert StoredAt(d(id), 4 * i, ids[i]);
    WordDecodes(d(id), 4 * i, ids[i]);
  }

  /** The block map in terms of the ids on disk: 12 direct blocks, then those the singly indirect block
      stores, then list after list those the doubly indirect block leads to. */
  lemma BlockMapDecodes(d: Disk, b: nat, ino: Inode, singly: seq<nat>, outer: seq<nat>, inner: seq<seq<nat>>)
    requires |ino.dbp| == 12 && b >= 4 && Stores(d(ino.singly), singly) && |singly| == b / 4
    requires Stores(d(ino.doubly), outer) && |inner| == |outer|
    requires forall x :: 0 <= x < |outer| ==> |inner[x]| == b / 4 && Stores(d(outer[x]), inner[x])
    ensures forall k :: 0 <= k < 12 ==> BlockMap(d, b, ino, k) == ino.dbp[k]
    ensures forall i :: 0 <= i < b / 4 ==> BlockMap(d, b, ino, 12 + i) == singly[i]
    ensures forall x, y :: 0 <= x < |outer| && 0 <= y < b / 4 ==>
              0 <= x * (b / 4) && BlockMap(d, b, ino, 12 + b / 4 + x * (b / 4) + y) == inner[x][y]
  {
    hide Stores;
    forall i | 0 <= i < b / 4 ensures BlockMap(d, b, ino, 12 + i) == singly[i] {
      PointersDecode(d, b, ino.singly, singly, i);
    }
    forall x, y | 0 <= x < |outer| && 0 <= y < b / 4
      ensures 0 <= x * (b / 4) && BlockMap(d, b, ino, 12 + b / 4 + x * (b / 4) + y) == inner[x][y]
    {
      MulMono(0, x, b / 4);
      QuotientOf(x * (b / 4) + y, x, b / 4);
      PointersDecode(d, b, ino.doubly, outer, x);
      PointersDecode(d, b, outer[x], inner[x], y);
    }
  }

  /** The first `count` pointers of block `id` are in use and end there or with a zero. */
  predicate Listing(d: Disk, b: nat, id: nat, count: nat) {
    && count <= b / 4
    && (forall i :: 0 <= i < count ==> Pointer(d, b, id, i) != 0)
    && (count < b / 4 ==> Pointer(d, b, id, count) == 0)
  }

  /** How many pointers of inner list o a doubly indirect part of m blocks uses. */
  function InnerCount(n: nat, m: nat, o: nat): nat
  {
    if m < o * n then 0 else if m - o * n >= n then n else m - o * n
  }

  function OuterCount(n: nat, m: nat): nat
    requires n > 0
  {
    if m % n == 0 then m / n else m / n + 1
  }

  /** A file of exactly N blocks without holes: every pointer up to the last block is set, and the
      next one the reader would look at is zero. */
  ghost predicate HoleFree(d: Disk, b: nat, ino: Inode, N: nat) {
    && b >= 4 && |ino.dbp| == DIRECT
    && (forall k :: 0 <= k < DIRECT && k < N ==> ino.dbp[k] != 0)
    && if N < DIRECT then ino.dbp[N] == 0
       else
         var n := b / 4;
         && (ino.singly != 0 <==> N > DIRECT)
         && (N > DIRECT ==> Listing(d, b, ino.singly, if N - DIRECT < n then N - DIRECT else n))
         && (ino.doubly != 0 <==> N > DIRECT + n)
         && (N > DIRECT + n ==> DoublyFree(d, b, ino.doubly, N - DIRECT - n))
  }

  ghost predicate DoublyFree(d: Disk, b: nat, id: nat, m: nat)
    requires b >= 4
  {
    && m <= (b / 4) * (b / 4)
    && Listing(d, b, id, OuterCount(b / 4, m))
    && forall o :: 0 <= o < OuterCount(b / 4, m) ==> InnerListing(d, b, id, m, o)
  }

  ghost predicate InnerListing(d: Disk, b: nat, id: nat, m: nat, o: nat)
    requires b >= 4
  {
    o * (b / 4) <= m && Listing(d, b, Pointer(d, b, id, o), InnerCount(b / 4, m, o))
  }

  // ---- Contents ------------------------------------------------------------------------------------

  /** The blocks in order. */
  function Content(d: Disk, ids: seq<nat>): seq<byte> {
    if ids == [] then [] else Content(d, ids[..|ids| - 1]) + d(ids[|ids| - 1])
  }

  lemma {:induction false} ContentConcat(d: Disk, x: seq<nat>, y: seq<nat>)
    ensures Content(d, x + y) == Content(d, x) + Content(d, y)
  {
    if y == [] {
      assert x + y == x;
    } else {
      var l := |y| - 1;
      assert (x + y)[..|x + y| - 1] == x + y[..l];
      ContentConcat(d, x, y[..l]);
    }
  }

  lemma {:induction false} ContentLength(d: Disk, b: nat, ids: seq<nat>)
    requires WfDisk(d, b)
    ensures |Content(d, ids)| == |ids| * b
  {
    if ids != [] {
      ContentLength(d, b, ids[..|ids| - 1]);
      assert |ids| * b == (|ids| - 1) * b + b;
    }
  }

  /** Block k of the contents sits at bytes k * b to (k + 1) * b. */
  lemma ContentAt(d: Disk, b: nat, ids: seq<nat>, k: nat)
    requires WfDisk(d, b) && k < |ids|
    ensures k * b + b <= |Content(d, ids)| == |ids| * b
    ensures Content(d, ids)[k * b..k * b + b] == d(ids[k])
  {
    assert ids == ids[..k] + ([ids[k]] + ids[k + 1..]);
    ContentConcat(d, ids[..k], [ids[k]] + ids[k + 1..]);
    ContentConcat(d, [ids[k]], ids[k + 1..]);
    ContentLength(d, b, ids[..k]);
    ContentLength(d, b, ids);
    ContentOne(d, ids[k]);
    hide Content;
    Fits(k, |ids|, b);
    Middle(Content(d, ids[..k]), d(ids[k]), Content(d, ids[k + 1..]));
  }

  lemma Middle(x: seq<byte>, y: seq<byte>, z: seq<byte>)
    ensures (x + (y + z))[|x|..|x| + |y|] == y
  {
  }

  lemma ContentOne(d: Disk, id: nat)
    ensures Content(d, [id]) == d(id)
  {
    assert [id][..0] == [];
    assert Content(d, [id]) == Content(d, []) + d(id);
  }

  /** `data` has been written at `off` and nothing else has changed. */
  predicate Filled(s: seq<byte>, t: seq<byte>, off: nat, data: seq<byte>) {
    off + |data| <= |s| && t == s[..off] + data + s[off + |data|..]
  }

  lemma FilledTwice(s: seq<byte>, t: seq<byte>, u: seq<byte>, off: nat, x: seq<byte>, y: seq<byte>)
    requires Filled(s, t, off, x) && Filled(t, u, off + |x|, y)
    ensures Filled(s, u, off, x + y)
  {
    var o, o' := off + |x|, off + |x| + |y|;
    assert t[..o] == s[..off] + x;
    assert t[o'..] == s[o'..];
    assert u == s[..off] + x + y + s[o'..];
    assert s[..off] + x + y == s[..off] + (x + y);
  }

  // ---- Reading -------------------------------------------------------------------------------------

  /** ext2_read_block into the buffer at `off`. */
  method ReadBlock(d: Disk, b: nat, id: nat, buf: array<byte>, off: nat)
    requires WfDisk(d, b) && off + b <= buf.Length
    modifies buf
    ensures Filled(old(buf[..]), buf[..], off, d(id))
  {
    var data := d(id);
    var i := 0;
    while i < b
      invariant i <= b
      invariant forall x :: 0 <= x < buf.Length ==>
                  buf[x] == if off <= x < off + i then data[x - off] else old(buf[x])
    {
      buf[off + i] := data[i];
      i := i + 1;
    }
  }

  /** The ids a pointer block lists. */
  function Ids(d: Disk, b: nat, id: nat, count: nat): (ids: seq<nat>)
    ensures |ids| == count && forall i :: 0 <= i < count ==> ids[i] == Pointer(d, b, id, i)
  {
    seq(count, i requires 0 <= i < count => Pointer(d, b, id, i))
  }

  lemma IdsNext(d: Disk, b: nat, id: nat, i: nat)
    ensures Content(d, Ids(d, b, id, i + 1)) == Content(d, Ids(d, b, id, i)) + d(Pointer(d, b, id, i))
  {
    assert Ids(d, b, id, i + 1)[..i] == Ids(d, b, id, i);
  }

  /** ext2_read_singly_linked. */
  method ReadSingly(d: Disk, b: nat, id: nat, buf: array<byte>, off: nat, ghost count: nat)
    requires WfDisk(d, b) && Listing(d, b, id, count) && off + count * b <= buf.Length
    modifies buf
    ensures Filled(old(buf[..]), buf[..], off, Content(d, Ids(d, b, id, count)))
  {
    hide Content; hide Filled; hide Word; hide Pointer; hide WfDisk;
    WfBlock(d, b);
    var maxblocks := b / 4;
    var root := d(id);
    var i := 0;
    ghost var was := buf[..];
    FilledNothing(d, b, id, was, off);
    while i < maxblocks
      invariant 0 <= i <= count <= maxblocks && |root| == b && root == d(id)
      invariant Filled(was, buf[..], off, Content(d, Ids(d, b, id, i)))
    {
      PointerIs(d, b, id, i);
      if Word(root, i) == 0 {
        break;
      }
      Fits(i, count, b);
      ContentLength(d, b, Ids(d, b, id, i));
      ghost var before := buf[..];
      ReadBlock(d, b, Word(root, i), buf, off + i * b);
      FilledTwice(was, before, buf[..], off, Content(d, Ids(d, b, id, i)), d(Pointer(d, b, id, i)));
      IdsNext(d, b, id, i);
      i := i + 1;
    }
  }

  lemma FilledNothing(d: Disk, b: nat, id: nat, s: seq<byte>, off: nat)
    requires off <= |s|
    ensures Filled(s, s, off, Content(d, Ids(d, b, id, 0)))
  {
  }

  // ---- Doubly indirect ----------------------------------------------------------------------------

  /** The ids the first o inner lists hold, of m in all. */
  function DoublyIds(d: Disk, b: nat, id: nat, m: nat, o: nat): seq<nat>
  {
    if o == 0 then []
    else DoublyIds(d, b, id, m, o - 1) + Ids(d, b, Pointer(d, b, id, o - 1), InnerCount(b / 4, m, o - 1))
  }

  lemma OuterBounds(n: nat, m: nat, o: nat)
    requires n > 0 && o < OuterCount(n, m)
    ensures o * n <= m && o * n < m
    ensures o + 1 < OuterCount(n, m) ==> InnerCount(n, m, o) == n
    ensures o + 1 == OuterCount(n, m) ==> o * n + InnerCount(n, m, o) == m
  {
    var q := m / n;
    assert m == q * n + m % n;
    assert OuterCount(n, m) * n >= m;
    Fits(o, OuterCount(n, m), n);
    if o + 1 < OuterCount(n, m) {
      Fits(o, q, n);
    } else if m % n != 0 {
      assert o == q;
    } else {
      assert o == q - 1 && q * n == (q - 1) * n + n;
    }
    if o < q { Fits(o, q, n); }
  }

  lemma {:induction false} DoublyLength(d: Disk, b: nat, id: nat, m: nat, o: nat)
    requires b >= 4 && o <= OuterCount(b / 4, m)
    ensures |DoublyIds(d, b, id, m, o)| == if o < OuterCount(b / 4, m) then o * (b / 4) else m
    decreases o
  {
    var n := b / 4;
    if o == 0 {
      if OuterCount(n, m) == 0 { assert m == m / n * n + m % n; }
    } else {
      OuterBounds(n, m, o - 1);
      DoublyLength(d, b, id, m, o - 1);
      assert o * n == (o - 1) * n + n;
    }
  }

  /** Entry x of the doubly indirect part sits in inner list x / n at x % n. */
  lemma {:induction false} DoublyAt(d: Disk, b: nat, id: nat, m: nat, o: nat, x: nat, n: nat)
    requires n == b / 4 > 0 && o <= OuterCount(n, m) && x < |DoublyIds(d, b, id, m, o)|
    ensures DoublyIds(d, b, id, m, o)[x] == Pointer(d, b, Pointer(d, b, id, x / n), x % n)
    decreases o
  {
    hide OuterCount;
    OuterBounds(n, m, o - 1);
    DoublyLength(d, b, id, m, o - 1);
    if x < |DoublyIds(d, b, id, m, o - 1)| {
      DoublyAt(d, b, id, m, o - 1, x, n);
    } else {
      QuotientOf(x, o - 1, n);
    }
  }

  /** The doubly indirect part has m entries; entry x is entry x mod n of inner list x div n. */
  lemma DoublyEntry(d: Disk, b: nat, id: nat, m: nat, x: nat)
    requires b >= 4 && x < m
    ensures var n, ids := b / 4, DoublyIds(d, b, id, m, OuterCount(b / 4, m));
            |ids| == m && ids[x] == Pointer(d, b, Pointer(d, b, id, x / n), x % n)
  {
    DoublyLength(d, b, id, m, OuterCount(b / 4, m));
    DoublyAt(d, b, id, m, OuterCount(b / 4, m), x, b / 4);
  }

  /** SIZE_OF_SINGLY as 32-bit arithmetic computes it. */
  function SizeOfSingly(b: nat): nat {
    b * b % 0x1_0000_0000 / 4
  }

  /** The 32-bit product is the span of a singly indirect block exactly for blocks under 64 KiB. */
  lemma SinglySpanIff(b: nat)
    requires b % 4 == 0
    ensures SizeOfSingly(b) == b / 4 * b <==> b < 0x1_0000
  {
    var n := b / 4;
    assert b == 4 * n;
    assert b * b == 4 * (n * b);
    if b < 0x1_0000 {
      SquareBelow(b, 0x1_0000);
    } else {
      SquareAbove(b, 0x1_0000);
    }
  }

  lemma SquareBelow(b: nat, m: nat)
    requires b < m
    ensures b * b < m * m
  {
    MulMono(b, m - 1, b);
    MulMono(b, m - 1, m - 1);
    assert m * m == (m - 1) * (m - 1) + (m - 1) + m;
  }

  lemma SquareAbove(b: nat, m: nat)
    requires b >= m
    ensures b * b >= m * m
  {
    MulMono(m, b, b);
    MulMono(m, b, m);
  }

  /** ext2_read_doubly_linked. From 64 KiB blocks on, only the first inner list lands in its place. */
  method ReadDoubly(d: Disk, b: nat, id: nat, buf: array<byte>, off: nat, ghost m: nat)
    requires WfDisk(d, b) && DoublyFree(d, b, id, m) && off + m * b <= buf.Length
    requires b < 0x1_0000 || m <= b / 4
    modifies buf
    ensures Filled(old(buf[..]), buf[..], off, Content(d, DoublyIds(d, b, id, m, OuterCount(b / 4, m))))
  {
    hide Content; hide Filled; hide Word; hide OuterCount; hide SizeOfSingly; hide Pointer; hide WfDisk;
    WfBlock(d, b);
    var maxblocks := b / 4;
    var block := d(id);
    SinglySpanIff(b);
    var s := SizeOfSingly(b);
    var i := 0;
    ghost var was, outer := buf[..], OuterCount(b / 4, m);
    FilledNothing(d, b, id, was, off);
    assert Ids(d, b, id, 0) == DoublyIds(d, b, id, m, 0);
    while i < maxblocks
      invariant 0 <= i <= outer <= maxblocks && |block| == b && block == d(id)
      invariant Filled(was, buf[..], off, Content(d, DoublyIds(d, b, id, m, i)))
    {
      PointerIs(d, b, id, i);
      if Word(block, i) == 0 {
        break;
      }
      assert InnerListing(d, b, id, m, i);
      ghost var span := b / 4 * b;
      ghost var count := DoublyStep(d, b, id, m, i, span);
      assert i * s == i * span by { if b >= 0x1_0000 { OneList(b / 4, m); } }
      ghost var before := buf[..];
      ReadSingly(d, b, Word(block, i), buf, off + i * s, count);
      FilledTwice(was, before, buf[..], off, Content(d, DoublyIds(d, b, id, m, i)), Content(d, Ids(d, b, Pointer(d, b, id, i), count)));
      ContentConcat(d, DoublyIds(d, b, id, m, i), Ids(d, b, Pointer(d, b, id, i), count));
      i := i + 1;
    }
  }

  lemma OneList(n: nat, m: nat)
    requires n > 0 && m <= n
    ensures OuterCount(n, m) <= 1
  {
    if m < n { QuotientOf(m, 0, n); } else { QuotientOf(m, 1, n); }
  }

  lemma WfBlock(d: Disk, b: nat)
    requires WfDisk(d, b)
    ensures b >= 4 && b % 4 == 0 && b / 4 > 0 && forall id :: |d(id)| == b
  {
  }

  lemma PointerIs(d: Disk, b: nat, id: nat, i: nat)
    requires WfDisk(d, b) && i < b / 4
    ensures 4 * i + 4 <= |d(id)| && Pointer(d, b, id, i) == Word(d(id), i)
  {
  }

  /** Inner list i starts where the lists before it end, and ends inside the part. */
  lemma DoublyStep(d: Disk, b: nat, id: nat, m: nat, i: nat, s: nat) returns (count: nat)
    requires WfDisk(d, b) && i < OuterCount(b / 4, m) && s == b / 4 * b
    ensures i * (b / 4) <= m && count == InnerCount(b / 4, m, i)
    ensures |Content(d, DoublyIds(d, b, id, m, i))| == i * s
    ensures i * s + count * b <= m * b
  {
    hide OuterCount; hide Content; hide DoublyIds; hide WfDisk;
    var n := b / 4;
    assert n > 0 by { WfBlock(d, b); }
    OuterBounds(n, m, i);
    DoublyLength(d, b, id, m, i);
    ContentLength(d, b, DoublyIds(d, b, id, m, i));
    count := InnerCount(n, m, i);
    Spread(i, n, b, count);
    MulMono(i * n + count, m, b);
  }

  lemma Spread(i: nat, n: nat, b: nat, count: nat)
    ensures (i * n) * b == i * (n * b)
    ensures (i * n + count) * b == i * (n * b) + count * b
  {
  }

  // ---- The whole file --------------------------------------------------------------------------------

  /** `for(;;);` after the complaint about a block outside the volume. */
  datatype Outcome = Done | Hang

  /** The ids of logical blocks 0 to N - 1. */
  function FileIds(d: Disk, b: nat, ino: Inode, N: nat): (ids: seq<nat>)
    requires |ino.dbp| == DIRECT && b >= 4
    ensures |ids| == N && forall k :: 0 <= k < N ==> ids[k] == BlockMap(d, b, ino, k)
  {
    seq(N, k requires 0 <= k < N => BlockMap(d, b, ino, k))
  }

  lemma SinglyIds(d: Disk, b: nat, ino: Inode, N: nat)
    requires |ino.dbp| == DIRECT && b >= 4 && N > DIRECT
    ensures var c := if N - DIRECT < b / 4 then N - DIRECT else b / 4;
            FileIds(d, b, ino, DIRECT + c) == FileIds(d, b, ino, DIRECT) + Ids(d, b, ino.singly, c)
  {
  }

  lemma DoublyPart(d: Disk, b: nat, ino: Inode, N: nat)
    requires |ino.dbp| == DIRECT && b >= 4 && N > DIRECT + b / 4
    ensures var n, m := b / 4, N - DIRECT - b / 4;
            FileIds(d, b, ino, N) == FileIds(d, b, ino, DIRECT + n) + DoublyIds(d, b, ino.doubly, m, OuterCount(n, m))
  {
    var n, m := b / 4, N - DIRECT - b / 4;
    var o := OuterCount(n, m);
    DoublyLength(d, b, ino.doubly, m, o);
    hide OuterCount; hide DoublyIds;
    var ids := DoublyIds(d, b, ino.doubly, m, o);
    var l, r := FileIds(d, b, ino, N), FileIds(d, b, ino, DIRECT + n) + ids;
    forall k | 0 <= k < N ensures l[k] == r[k] {
      if k >= DIRECT + n {
        assert ids[k - DIRECT - n] == BlockMap(d, b, ino, k) by { DoublyEntry(d, b, ino.doubly, m, k - DIRECT - n); }
      }
      hide BlockMap;
    }
  }

  /** The direct part of ext2_read_file_full: stops at a zero pointer or at one outside the volume. */
  method ReadDirect(d: Disk, b: nat, ino: Inode, volume: nat, buf: array<byte>, ghost N: nat) returns (r: Outcome, ended: bool)
    requires WfDisk(d, b) && HoleFree(d, b, ino, N) && N * b <= buf.Length
    modifies buf
    ensures r == Hang <==> exists k :: 0 <= k < DIRECT && k < N && ino.dbp[k] > volume
    ensures r == Done ==> (ended <==> N < DIRECT)
    ensures r == Done ==> Filled(old(buf[..]), buf[..], 0, Content(d, FileIds(d, b, ino, if N < DIRECT then N else DIRECT)))
  {
    hide Content; hide Filled; hide BlockMap; hide HoleFree; hide FileIds;
    DirectFacts(d, b, ino, N);
    ghost var was := buf[..];
    var i := 0;
    FilledNothing(d, b, 0, was, 0);
    assert Ids(d, b, 0, 0) == FileIds(d, b, ino, 0);
    hide Ids;
    ended := false;
    while i < DIRECT
      invariant 0 <= i <= DIRECT && i <= N && !ended
      invariant forall k :: 0 <= k < i ==> ino.dbp[k] <= volume
      invariant Filled(was, buf[..], 0, Content(d, FileIds(d, b, ino, i)))
    {
      var id := ino.dbp[i];
      if id == 0 {
        return Done, true;
      }
      if id > volume {
        return Hang, false;
      }
      Fits(i, N, b);
      ghost var before, so := buf[..], Content(d, FileIds(d, b, ino, i));
      assert |so| == i * b by { ContentLength(d, b, FileIds(d, b, ino, i)); }
      ReadBlock(d, b, id, buf, i * b);
      FilledTwice(was, before, buf[..], 0, so, d(id));
      FileIdsNext(d, b, ino, i);
      i := i + 1;
    }
    r := Done;
  }

  lemma DirectFacts(d: Disk, b: nat, ino: Inode, N: nat)
    requires HoleFree(d, b, ino, N)
    ensures b >= 4 && |ino.dbp| == DIRECT
    ensures forall k :: 0 <= k < DIRECT && k < N ==> ino.dbp[k] != 0
    ensures N < DIRECT ==> ino.dbp[N] == 0
  {
  }

  lemma FileIdsNext(d: Disk, b: nat, ino: Inode, i: nat)
    requires |ino.dbp| == DIRECT && b >= 4 && i < DIRECT
    ensures Content(d, FileIds(d, b, ino, i + 1)) == Content(d, FileIds(d, b, ino, i)) + d(ino.dbp[i])
  {
    assert FileIds(d, b, ino, i + 1)[..i] == FileIds(d, b, ino, i);
  }

  /** ext2_read_file_full behind the inode lookup, for a hole-free file of N blocks and a buffer of
      at least N whole blocks. `volume` is the number of blocks of the volume. */
  method ReadFileFull(d: Disk, b: nat, ino: Inode, volume: nat, buf: array<byte>, ghost N: nat) returns (r: Outcome)
    requires WfDisk(d, b) && HoleFree(d, b, ino, N) && N * b <= buf.Length
    requires b < 0x1_0000 || N <= DIRECT + b / 4
    modifies buf
    ensures r == Hang <==> exists k :: 0 <= k < DIRECT && k < N && ino.dbp[k] > volume
    ensures r == Done ==> Filled(old(buf[..]), buf[..], 0, Content(d, FileIds(d, b, ino, N)))
  {
    hide Content; hide Filled; hide BlockMap; hide OuterCount; hide DoublyFree; hide SizeOfSingly; hide DoublyStart; hide FileIds;
    ghost var was := buf[..];
    var ended;
    r, ended := ReadDirect(d, b, ino, volume, buf, N);
    if r == Hang || ended {
      return;
    }
    ghost var n := b / 4;
    if ino.singly != 0 {
      ghost var c := if N - DIRECT < n then N - DIRECT else n;
      SinglyRoom(d, b, ino, N, c);
      ghost var before := buf[..];
      ReadSingly(d, b, ino.singly, buf, DIRECT * b, c);
      FilledTwice(was, before, buf[..], 0, Content(d, FileIds(d, b, ino, DIRECT)), Content(d, Ids(d, b, ino.singly, c)));
      ContentConcat(d, FileIds(d, b, ino, DIRECT), Ids(d, b, ino.singly, c));
      SinglyIds(d, b, ino, N);
    }
    if ino.doubly != 0 {
      SinglySpanIff(b);
      DoublyStartIff(b);
      var s := DoublyStart(b);
      ghost var m := N - DIRECT - n;
      DoublyRoom(d, b, ino, N);
      DoublyPart(d, b, ino, N);
      ghost var before := buf[..];
      ReadDoubly(d, b, ino.doubly, buf, s, m);
      ghost var tail := DoublyIds(d, b, ino.doubly, m, OuterCount(n, m));
      FilledTwice(was, before, buf[..], 0, Content(d, FileIds(d, b, ino, DIRECT + n)), Content(d, tail));
      ContentConcat(d, FileIds(d, b, ino, DIRECT + n), tail);
    }
    r := Done;
  }

  /** Where ext2_read_file_full puts the doubly indirect part, in 32-bit arithmetic. */
  function DoublyStart(b: nat): nat {
    (SizeOfSingly(b) + DIRECT * b) % 0x1_0000_0000
  }

  /** That is behind the direct and singly indirect blocks if and only if blocks are below 64 KiB, so
      a file with a doubly indirect part is put together right only there. */
  lemma DoublyStartIff(b: nat)
    requires b >= 4 && b % 4 == 0
    ensures DoublyStart(b) == b / 4 * b + DIRECT * b <==> b < 0x1_0000
    ensures b / 4 * b + DIRECT * b == (DIRECT + b / 4) * b
  {
    SinglySpanIff(b);
    SumOfThree(b / 4, DIRECT, 0, b);
    if b < 0x1_0000 {
      MulMono(b / 4, 0x4000, b);
    } else {
      MulMono(0x4000, b / 4, b);
      assert SizeOfSingly(b) < 0x4000_0000;
    }
  }

  lemma SinglyRoom(d: Disk, b: nat, ino: Inode, N: nat, c: nat)
    requires WfDisk(d, b) && |ino.dbp| == DIRECT && DIRECT + c <= N
    ensures |Content(d, FileIds(d, b, ino, DIRECT))| == DIRECT * b
    ensures DIRECT * b + c * b <= N * b
  {
    hide BlockMap;
    ContentLength(d, b, FileIds(d, b, ino, DIRECT));
    assert (DIRECT + c) * b == DIRECT * b + c * b;
    MulMono(DIRECT + c, N, b);
  }

  lemma DoublyRoom(d: Disk, b: nat, ino: Inode, N: nat)
    requires WfDisk(d, b) && |ino.dbp| == DIRECT && DIRECT + b / 4 <= N
    ensures |Content(d, FileIds(d, b, ino, DIRECT + b / 4))| == b / 4 * b + DIRECT * b
    ensures b / 4 * b + DIRECT * b + (N - DIRECT - b / 4) * b == N * b
  {
    hide BlockMap;
    ContentLength(d, b, FileIds(d, b, ino, DIRECT + b / 4));
    SumOfThree(b / 4, DIRECT, N - DIRECT - b / 4, b);
  }

  lemma SumOfThree(x: nat, y: nat, z: nat, b: nat)
    ensures x * b + y * b + z * b == (x + y + z) * b
    ensures (x + y) * b == x * b + y * b
  {
  }

  /** After the read, logical block k of the file is at bytes k * b to (k + 1) * b of the buffer,
      and the buffer behind the file is untouched. */
  lemma BlockPlaced(d: Disk, b: nat, ino: Inode, N: nat, was: seq<byte>, buf: seq<byte>, k: nat)
    requires WfDisk(d, b) && |ino.dbp| == DIRECT && k < N && N * b <= |was|
    requires Filled(was, buf, 0, Content(d, FileIds(d, b, ino, N)))
    ensures |buf| == |was| && k * b + b <= N * b
    ensures buf[k * b..k * b + b] == d(BlockMap(d, b, ino, k))
    ensures buf[N * b..] == was[N * b..]
  {
    hide Content; hide BlockMap;
    var ids := FileIds(d, b, ino, N);
    ContentAt(d, b, ids, k);
    FilledRead(was, buf, Content(d, ids), N * b, k * b, b);
  }

  lemma FilledRead(was: seq<byte>, buf: seq<byte>, c: seq<byte>, end: nat, at: nat, b: nat)
    requires Filled(was, buf, 0, c) && |c| == end && at + b <= end
    ensures |buf| == |was| && buf[at..at + b] == c[at..at + b] && buf[end..] == was[end..]
  {
  }
}
