/** Reading, writing and locating ext2 inodes: one location function shared by all three, and the
    law that a write changes exactly the inode written. Layout after Poirier, "The Second Extended
    File System: Internal Layout", Inode Table. */
module Ext2Inode {

  import opened Memory
  import opened Disks
  import opened Division

  const INODE := 128           // sizeof(struct ext2_inode)
  const DESCRIPTOR := 32       // sizeof(struct ext2_block_group_desc)
  const TABLE_FIELD := 8       // offset of block_of_inode_table

  /** What the driver keeps about a mounted volume; `groups` is the number of block groups. */
  datatype Geometry = Geometry(b: nat, firstBgd: nat, ipg: nat, groups: nat) {
    function PerBlock(): nat { b / INODE }

    /** All descriptors are in the one block the driver reads; index arithmetic fits 32 bits. */
    ghost predicate Ok() {
      b > 0 && b % INODE == 0 && 0 < ipg && ipg * INODE < 0x1_0000_0000 && groups * DESCRIPTOR <= b
    }
  }

  ghost predicate WfDisk(d: Disk, b: nat) {
    forall id :: |d(id)| == b
  }

  // ---- Location -----------------------------------------------------------------------------------

  function Group(g: Geometry, ino: nat): nat
    requires g.ipg > 0 && ino >= 1
  {
    (ino - 1) / g.ipg
  }

  function Index(g: Geometry, ino: nat): nat
    requires g.ipg > 0 && ino >= 1
  {
    (ino - 1) % g.ipg
  }

  /** First block of the inode table of a group, from its descriptor. */
  function TableOf(d: Disk, g: Geometry, group: nat): nat {
    var off := group * DESCRIPTOR + TABLE_FIELD;
    if off + 4 <= |d(g.firstBgd)| then Word32(d(g.firstBgd), off) else 0
  }

  datatype Place = Place(block: nat, slot: nat)

  /** Where inode `ino` lives: the block, and its place among the inodes of that block. */
  function Location(d: Disk, g: Geometry, ino: nat): Place
    requires g.ipg > 0 && g.PerBlock() > 0 && ino >= 1
  {
    Place(TableOf(d, g, Group(g, ino)) + Index(g, ino) / g.PerBlock(), Index(g, ino) % g.PerBlock())
  }

  ghost predicate Exists(g: Geometry, ino: nat) {
    g.ipg > 0 && 1 <= ino && Group(g, ino) < g.groups
  }

  /** Block x belongs to the inode table of a group. */
  ghost predicate InTable(d: Disk, g: Geometry, group: nat, x: nat)
    requires g.PerBlock() > 0
  {
    exists i :: 0 <= i < g.ipg && x == TableOf(d, g, group) + i / g.PerBlock()
  }

  /** Inode tables share no block with one another or with the descriptors. */
  ghost predicate TablesApart(d: Disk, g: Geometry)
    requires g.PerBlock() > 0
  {
    && (forall group, x :: 0 <= group < g.groups && InTable(d, g, group, x) ==> x != g.firstBgd)
    && (forall h, k, x :: 0 <= h < g.groups && 0 <= k < g.groups && InTable(d, g, h, x) && InTable(d, g, k, x) ==> h == k)
  }

  lemma PerBlockPositive(g: Geometry)
    requires g.Ok()
    ensures g.PerBlock() > 0 && g.b == g.PerBlock() * INODE
  {
  }

  lemma LocatedInTable(d: Disk, g: Geometry, ino: nat)
    requires g.Ok() && g.PerBlock() > 0 && Exists(g, ino)
    ensures InTable(d, g, Group(g, ino), Location(d, g, ino).block)
    ensures Location(d, g, ino).slot < g.PerBlock()
  {
    var i := Index(g, ino);
    assert 0 <= i < g.ipg;
  }

  lemma SameDivMod(x: nat, y: nat, n: nat)
    requires n > 0 && x / n == y / n && x % n == y % n
    ensures x == y
  {
    assert x == x / n * n + x % n && y == y / n * n + y % n;
  }

  /** Different inodes live in different places. */
  lemma LocationInjective(d: Disk, g: Geometry, i: nat, j: nat)
    requires g.Ok() && g.PerBlock() > 0 && TablesApart(d, g) && Exists(g, i) && Exists(g, j)
    requires Location(d, g, i) == Location(d, g, j)
    ensures i == j
  {
    LocatedInTable(d, g, i);
    LocatedInTable(d, g, j);
    assert Group(g, i) == Group(g, j);
    SameDivMod(Index(g, i), Index(g, j), g.PerBlock());
    SameDivMod(i - 1, j - 1, g.ipg);
  }

  /** The bytes of the table at block t up to inode `ino` are those of the inodes of its group before it,
      128 each: t is the word at byte 32 * group + 8 of the descriptor block, and the group holds the ipg
      inodes from 1 + group * ipg on. */
  lemma AddressLaw(d: Disk, g: Geometry, ino: nat, group: nat, t: nat)
    requires g.Ok() && g.PerBlock() > 0 && WfDisk(d, g.b) && ino >= 1 && group < g.groups
    requires group * g.ipg <= ino - 1 < group * g.ipg + g.ipg
    requires 32 * group + 12 <= g.b && t == Word32(d(g.firstBgd), 32 * group + 8)
    ensures Exists(g, ino)
    ensures var p := Location(d, g, ino);
            && p.block >= t && p.slot * 128 + 128 <= g.b
            && (p.block - t) * g.b + p.slot * 128 == (ino - 1 - group * g.ipg) * 128
  {
    var i, n := ino - 1 - group * g.ipg, g.PerBlock();
    assert Group(g, ino) == group && Index(g, ino) == i by { QuotientOf(ino - 1, group, g.ipg); }
    assert TableOf(d, g, group) == t by { hide Group; hide Index; }
    assert g.b == n * 128 by { PerBlockPositive(g); }
    hide Word32; hide Group; hide Index; hide TableOf; hide WfDisk;
    assert i == i / n * n + i % n;
    InBytes(i / n, n, i % n, i);
    assert i % n * 128 + 128 <= g.b by { SlotInside(g, i % n); }
  }

  /** The same, of the block and slot a method computes. */
  ghost predicate Addresses(d: Disk, g: Geometry, ino: nat, block: nat, slot: nat)
    requires g.ipg > 0 && ino >= 1
  {
    var group := (ino - 1) / g.ipg;
    32 * group + 12 <= |d(g.firstBgd)| &&
    var t := Word32(d(g.firstBgd), 32 * group + 8);
    block >= t && (block - t) * g.b + slot * 128 == (ino - 1) % g.ipg * 128 && slot * 128 + 128 <= g.b
  }

  lemma LocationAddresses(d: Disk, g: Geometry, ino: nat)
    requires g.Ok() && g.PerBlock() > 0 && WfDisk(d, g.b) && Exists(g, ino)
    ensures Addresses(d, g, ino, Location(d, g, ino).block, Location(d, g, ino).slot)
  {
    hide Word32; hide Location;
    var group := (ino - 1) / g.ipg;
    assert group == Group(g, ino);
    DescriptorInside(g, ino);
    assert ino - 1 == group * g.ipg + (ino - 1) % g.ipg;
    AddressLaw(d, g, ino, group, Word32(d(g.firstBgd), 32 * group + 8));
  }

  lemma InBytes(q: nat, n: nat, r: nat, i: nat)
    requires i == q * n + r
    ensures q * (n * 128) + r * 128 == i * 128
  {
    assert q * (n * 128) == q * n * 128;
  }

  /** A write changes exactly the 128 bytes at that place. */
  lemma WrittenBytes(d: Disk, g: Geometry, ino: nat, data: seq<byte>, x: nat, o: nat)
    requires g.Ok() && g.PerBlock() > 0 && WfDisk(d, g.b) && Exists(g, ino) && |data| == 128 && o < g.b
    requires Location(d, g, ino).slot * 128 + 128 <= g.b
    ensures var p := Location(d, g, ino);
            var d' := Written(d, p.block, Patched(d(p.block), p.slot * INODE, data));
            |d'(x)| == g.b &&
            d'(x)[o] == if x == p.block && p.slot * 128 <= o < p.slot * 128 + 128 then data[o - p.slot * 128] else d(x)[o]
  {
  }

  // ---- Reading and writing -------------------------------------------------------------------------

  function InodeAt(d: Disk, g: Geometry, ino: nat): seq<byte>
    requires g.ipg > 0 && g.PerBlock() > 0 && ino >= 1
  {
    var p := Location(d, g, ino);
    if p.slot * INODE + INODE <= |d(p.block)| then d(p.block)[p.slot * INODE..p.slot * INODE + INODE] else []
  }

  function Patched(s: seq<byte>, off: nat, data: seq<byte>): seq<byte>
    requires off + |data| <= |s|
  {
    s[..off] + data + s[off + |data|..]
  }

  function Written(d: Disk, id: nat, data: seq<byte>): Disk {
    x => if x == id then data else d(x)
  }

  lemma SlotInside(g: Geometry, slot: nat)
    requires g.Ok() && g.PerBlock() > 0 && slot < g.PerBlock()
    ensures slot * INODE + INODE <= g.b
  {
  }

  /** idx * 128 / b is idx divided by the inodes per block. */
  lemma BlockOfIndex(g: Geometry, idx: nat)
    requires g.Ok() && g.PerBlock() > 0
    ensures idx * INODE / g.b == idx / g.PerBlock()
  {
    var n := g.PerBlock();
    PerBlockPositive(g);
    var q, r := idx / n, idx % n;
    assert idx == q * n + r;
    assert idx * INODE == q * (n * INODE) + r * INODE;
    QuotientOf(idx * INODE, q, g.b);
  }

  lemma DescriptorInside(g: Geometry, ino: nat)
    requires g.Ok() && Exists(g, ino)
    ensures Group(g, ino) * DESCRIPTOR + TABLE_FIELD + 4 <= g.b
  {
  }

  /** The loop that steps to the descriptor of a group. */
  method SeekDescriptor(bg: nat) returns (off: nat)
    ensures off == bg * DESCRIPTOR
  {
    off := 0;
    var i := 0;
    while i < bg
      invariant 0 <= i <= bg && off == i * DESCRIPTOR
    {
      off := off + DESCRIPTOR;
      i := i + 1;
    }
  }

  /** The computation the three inode functions share. */
  method Locate(d: Disk, g: Geometry, ino: nat) returns (block: nat, slot: nat)
    requires g.Ok() && WfDisk(d, g.b) && g.PerBlock() > 0 && Exists(g, ino)
    ensures Place(block, slot) == Location(d, g, ino)
    ensures Addresses(d, g, ino, block, slot)
  {
    LocationAddresses(d, g, ino);
    hide Word32; hide Addresses;
    var bg := (ino - 1) / g.ipg;
    assert bg == Group(g, ino);
    var desc := d(g.firstBgd);
    var bgd := SeekDescriptor(bg);
    assert bgd + TABLE_FIELD + 4 <= |desc| && TableOf(d, g, bg) == Word32(desc, bgd + TABLE_FIELD) by {
      DescriptorInside(g, ino);
    }
    hide TableOf; hide WfDisk; hide Group;
    var index := (ino - 1) % g.ipg;
    assert index == Index(g, ino);
    hide Index;
    BlockOfIndex(g, index);
    block := Word32(desc, bgd + TABLE_FIELD) + index * INODE / g.b;
    slot := index % g.PerBlock();
  }

  method SeekSlot(slot: nat) returns (off: nat)
    ensures off == slot * INODE
  {
    off := 0;
    var i := 0;
    while i < slot
      invariant 0 <= i <= slot && off == i * INODE
    {
      off := off + INODE;
      i := i + 1;
    }
  }

  class Volume {
    const g: Geometry
    var disk: Disk

    ghost predicate Valid()
      reads this
    {
      g.Ok() && g.PerBlock() > 0 && WfDisk(disk, g.b)
    }

    constructor (geometry: Geometry, d: Disk)
      requires geometry.Ok() && geometry.PerBlock() > 0 && WfDisk(d, geometry.b)
      ensures Valid() && g == geometry && disk == d
    {
      g, disk := geometry, d;
    }

    method ReadInode(ino: nat) returns (data: seq<byte>)
      requires Valid() && Exists(g, ino)
      ensures data == InodeAt(disk, g, ino) && |data| == INODE
    {
      var block, slot := Locate(disk, g, ino);
      LocatedInTable(disk, g, ino);
      SlotInside(g, slot);
      var off := SeekSlot(slot);
      data := disk(block)[off..off + INODE];
    }

    method WriteInode(ino: nat, data: seq<byte>)
      requires Valid() && Exists(g, ino) && |data| == INODE
      modifies this
      ensures Valid()
      ensures var p := Location(old(disk), g, ino);
              p.slot * INODE + INODE <= g.b &&
              disk == Written(old(disk), p.block, Patched(old(disk)(p.block), p.slot * INODE, data))
    {
      var block, slot := Locate(disk, g, ino);
      LocatedInTable(disk, g, ino);
      SlotInside(g, slot);
      var off := SeekSlot(slot);
      disk := Written(disk, block, Patched(disk(block), off, data));
    }

    method GetInodeBlock(ino: nat) returns (block: nat, ioff: nat)
      requires Valid() && Exists(g, ino)
      ensures Place(block, ioff) == Location(disk, g, ino) && Addresses(disk, g, ino, block, ioff)
    {
      block, ioff := Locate(disk, g, ino);
    }
  }

  lemma LocationKept(d: Disk, g: Geometry, block: nat, data: seq<byte>, j: nat)
    requires g.ipg > 0 && g.PerBlock() > 0 && j >= 1 && block != g.firstBgd
    ensures Location(Written(d, block, data), g, j) == Location(d, g, j)
  {
    assert Written(d, block, data)(g.firstBgd) == d(g.firstBgd);
  }

  /** Writing inode i and then reading inode j gives what was written if i and j are the same, and
      what was there otherwise. */
  lemma WriteThenRead(d: Disk, g: Geometry, i: nat, j: nat, data: seq<byte>)
    requires g.Ok() && g.PerBlock() > 0 && WfDisk(d, g.b) && TablesApart(d, g) && Exists(g, i) && Exists(g, j)
    requires |data| == INODE && Location(d, g, i).slot * INODE + INODE <= g.b
    ensures var p := Location(d, g, i);
            var d' := Written(d, p.block, Patched(d(p.block), p.slot * INODE, data));
            InodeAt(d', g, j) == if i == j then data else InodeAt(d, g, j)
  {
    var p, q := Location(d, g, i), Location(d, g, j);
    LocatedInTable(d, g, i);
    LocatedInTable(d, g, j);
    SlotInside(g, q.slot);
    var patched := Patched(d(p.block), p.slot * INODE, data);
    var d' := Written(d, p.block, patched);
    LocationKept(d, g, p.block, patched, j);
    hide Location; hide InTable; hide TablesApart;
    PatchRead(d(p.block), p.slot, q.slot, data);
    if i != j && p == q { LocationInjective(d, g, i, j); }
  }

  /** In the patched block a slot reads as the new data if it is the one patched, else as before. */
  lemma PatchRead(s: seq<byte>, slot: nat, other: nat, data: seq<byte>)
    requires |data| == INODE && slot * INODE + INODE <= |s|
    ensures var r := Patched(s, slot * INODE, data);
            && |r| == |s|
            && (other * INODE + INODE <= |s| ==>
                  r[other * INODE..other * INODE + INODE] ==
                  if other == slot then data else s[other * INODE..other * INODE + INODE])
  {
    if other * INODE + INODE <= |s| && other != slot {
      var o := other * INODE;
      assert o + INODE <= slot * INODE || slot * INODE + INODE <= o;
    }
  }
}
