/** The disk as the file system sees it: blocks of bytes, tables of 32-bit block numbers, the
    allocation bitmap, inodes, and the slots through which an inode reaches its blocks. */
module FsDisk {
  import opened Arith

  const BSIZE: nat := 1024
  const NDIRECT: nat := 11
  const NINDIRECT: nat := 256
  const NDINDIRECT: nat := 65536
  const MAXFILE: nat := 65803
  const BPB: nat := 8192
  const TWO32: int := 0x1_0000_0000

  type Block = b: seq<Byte> | |b| == BSIZE witness seq(BSIZE, _ => 0)
  type Disk = seq<Block>

  function ZeroBlock(): Block { seq(BSIZE, _ => 0) }

  /** Superblock fields the block layer uses; datastart is the first block past the metadata. */
  datatype Geometry = Geometry(size: nat, bmapstart: nat, datastart: nat)

  predicate GeoOk(g: Geometry) {
    0 < g.bmapstart && g.bmapstart + (g.size + BPB - 1) / BPB <= g.datastart <= g.size < TWO32
  }

  // ---------- Tables: 256 little-endian words per block ----------

  function Word(b: Block, j: nat): nat
    requires j < NINDIRECT
  {
    var b0: int, b1: int, b2: int, b3: int := b[4 * j], b[4 * j + 1], b[4 * j + 2], b[4 * j + 3];
    b0 + 256 * b1 + 0x1_0000 * b2 + 0x100_0000 * b3
  }

  function SetWord(b: Block, j: nat, v: nat): Block
    requires j < NINDIRECT
  {
    b[4 * j := v % 256][4 * j + 1 := v / 256 % 256][4 * j + 2 := v / 0x1_0000 % 256][4 * j + 3 := v / 0x100_0000 % 256]
  }

  lemma WordSet(b: Block, j: nat, v: nat, k: nat)
    requires j < NINDIRECT && k < NINDIRECT && v < TWO32
    ensures Word(SetWord(b, j, v), k) == if k == j then v else Word(b, k)
  {
    if k == j { Digits(v); }
  }

  lemma Digits(v: nat)
    requires v < TWO32
    ensures v % 256 + 256 * (v / 256 % 256) + 0x1_0000 * (v / 0x1_0000 % 256) + 0x100_0000 * (v / 0x100_0000 % 256) == v
  {
    assert v / 0x1_0000 == v / 256 / 256;
    assert v / 0x100_0000 == v / 0x1_0000 / 256;
    assert v / 0x100_0000 < 256;
  }

  // ---------- The allocation bitmap ----------

  function P2(k: nat): nat {
    match k case 0 => 1 case 1 => 2 case 2 => 4 case 3 => 8 case 4 => 16 case 5 => 32 case 6 => 64 case _ => 128
  }

  predicate BitOf(x: Byte, k: nat) { x / P2(k) % 2 == 1 }

  /** x | (1 << k) and x & ~(1 << k) on a byte. */
  function OrBit(x: Byte, k: nat): Byte
    requires k < 8
  { if BitOf(x, k) then x else assert x + P2(k) < 256 by { ClearRoom(x, k); } x + P2(k) }

  function AndNotBit(x: Byte, k: nat): Byte
    requires k < 8
  { if BitOf(x, k) then x - P2(k) else x }

  lemma ClearRoom(x: Byte, k: nat)
    requires k < 8 && !BitOf(x, k)
    ensures x + P2(k) < 256
  {}

  lemma ByteBits(x: Byte, k: nat, j: nat)
    requires k < 8 && j < 8
    ensures BitOf(OrBit(x, k), j) <==> j == k || BitOf(x, j)
    ensures BitOf(AndNotBit(x, k), j) <==> j != k && BitOf(x, j)
  {
    if BitOf(x, k) {
      Multiple(x, P2(k), -1);
      ClearRoom(x - P2(k), k);
      AddBit(x - P2(k), k, j);
    } else {
      ClearRoom(x, k);
      AddBit(x, k, j);
    }
  }

  /** Adding a clear bit sets it and leaves the others. */
  lemma AddBit(x: Byte, k: nat, j: nat)
    requires k < 8 && j < 8 && !BitOf(x, k) && x + P2(k) < 256
    ensures BitOf(x + P2(k), j) <==> j == k || BitOf(x, j)
  {
    var p, q := P2(k), P2(j);
    if j == k {
      Multiple(x, p, 1);
    } else if j < k {
      PowRatio(j, k);
      Multiple(x, q, 2 * P2(k - j - 1));
    } else {
      PowRatio(k, j);
      var m := P2(j - k - 1);
      Multiple(x, p, 1);
      assert (x + p) / p / 2 == x / p / 2;
      DivDiv(x, p, 2);
      DivDiv(x + p, p, 2);
      DivDiv(x, 2 * p, m);
      DivDiv(x + p, 2 * p, m);
    }
  }

  lemma PowRatio(j: nat, k: nat)
    requires j < k < 8
    ensures P2(k) == P2(j) * (2 * P2(k - j - 1)) && P2(k) == 2 * P2(j) * P2(k - j - 1) && P2(k - j - 1) > 0 && P2(j) > 0
  {}

  lemma Multiple(x: int, q: int, m: int)
    requires q > 0
    ensures (x + q * m) / q == x / q + m
  {
    assert x + q * m == q * (x / q + m) + x % q;
    ModUnique(x + q * m, q, x / q + m, x % q);
  }

  lemma DivDiv(x: int, a: int, b: int)
    requires a > 0 && b > 0 && a * b > 0
    ensures x / a / b == x / (a * b)
  {
    var q := x / a;
    assert x == a * q + x % a && q == b * (q / b) + q % b;
    var r := a * (q % b) + x % a;
    assert x == (a * b) * (q / b) + r by { assert a * (b * (q / b)) == (a * b) * (q / b); }
    assert 0 <= a * (q % b) <= a * (b - 1) by { Mono(a, q % b, b - 1); }
    assert a * (b - 1) == a * b - a;
    ModUnique(x, a * b, q / b, r);
  }

  lemma Mono(a: int, x: int, y: int)
    requires a > 0 && 0 <= x <= y
    ensures 0 <= a * x <= a * y
  {}

  predicate DiskOk(g: Geometry, disk: Disk) { GeoOk(g) && |disk| == g.size }

  /** The bitmap block that holds the bit of block b. */
  function BitBlock(g: Geometry, b: nat): nat { b / BPB + g.bmapstart }

  lemma BitBlockInMeta(g: Geometry, b: nat)
    requires GeoOk(g) && b < g.size
    ensures BitBlock(g, b) < g.datastart <= g.size
  {
    assert b / BPB < (g.size + BPB - 1) / BPB;
  }

  predicate Bit(g: Geometry, disk: Disk, b: nat)
    requires DiskOk(g, disk) && b < g.size
  {
    BitBlockInMeta(g, b);
    BitOf(disk[BitBlock(g, b)][b % BPB / 8], b % BPB % 8)
  }

  function MarkUsed(g: Geometry, disk: Disk, b: nat): Disk
    requires DiskOk(g, disk) && b < g.size
  {
    BitBlockInMeta(g, b);
    var k, bi := BitBlock(g, b), b % BPB;
    disk[k := disk[k][bi / 8 := OrBit(disk[k][bi / 8], bi % 8)]]
  }

  function MarkFree(g: Geometry, disk: Disk, b: nat): Disk
    requires DiskOk(g, disk) && b < g.size
  {
    BitBlockInMeta(g, b);
    var k, bi := BitBlock(g, b), b % BPB;
    disk[k := disk[k][bi / 8 := AndNotBit(disk[k][bi / 8], bi % 8)]]
  }

  /** Marking changes one bit and no block past the metadata. */
  lemma MarkBits(g: Geometry, disk: Disk, b: nat, c: nat)
    requires DiskOk(g, disk) && b < g.size && c < g.size
    ensures Bit(g, MarkUsed(g, disk, b), c) <==> c == b || Bit(g, disk, c)
    ensures Bit(g, MarkFree(g, disk, b), c) <==> c != b && Bit(g, disk, c)
  {
    BitBlockInMeta(g, b);
    BitBlockInMeta(g, c);
    var bi, ci := b % BPB, c % BPB;
    if BitBlock(g, b) == BitBlock(g, c) && bi / 8 == ci / 8 {
      ByteBits(disk[BitBlock(g, b)][bi / 8], bi % 8, ci % 8);
      SameBitPlace(b, c);
    }
  }

  lemma SameBitPlace(b: nat, c: nat)
    requires b / BPB == c / BPB && b % BPB / 8 == c % BPB / 8
    ensures b % BPB % 8 == c % BPB % 8 <==> b == c
  {}

  lemma MarkFrame(g: Geometry, disk: Disk, b: nat)
    requires DiskOk(g, disk) && b < g.size
    ensures |MarkUsed(g, disk, b)| == |MarkFree(g, disk, b)| == |disk|
    ensures forall k :: g.datastart <= k < |disk| ==> MarkUsed(g, disk, b)[k] == disk[k] && MarkFree(g, disk, b)[k] == disk[k]
  { BitBlockInMeta(g, b); }

  /** Bits only depend on the metadata blocks. */
  lemma BitFrame(g: Geometry, disk: Disk, disk': Disk, b: nat)
    requires DiskOk(g, disk) && DiskOk(g, disk') && b < g.size
    requires forall k :: 0 <= k < g.datastart ==> disk'[k] == disk[k]
    ensures Bit(g, disk', b) <==> Bit(g, disk, b)
  { BitBlockInMeta(g, b); }

  // ---------- Inodes and the slots of their block map ----------

  type Addrs = a: seq<nat> | |a| == NDIRECT + 2 witness seq(NDIRECT + 2, _ => 0)

  datatype Inode = Inode(size: nat, addrs: Addrs)

  /** Places where an inode's map holds a block number. */
  datatype Slot =
    | Direct(i: nat)          // addrs[i]
    | Ind                     // addrs[NDIRECT], a table
    | IndEntry(j: nat)        // an entry of that table
    | Dind                    // addrs[NDIRECT + 1], a table of tables
    | Mid(m: nat)             // an entry of that table, itself a table
    | DindEntry(m: nat, j: nat)

  predicate SlotOk(s: Slot) {
    match s
    case Direct(i) => i < NDIRECT
    case Ind => true
    case IndEntry(j) => j < NINDIRECT
    case Dind => true
    case Mid(m) => m < NINDIRECT
    case DindEntry(m, j) => m < NINDIRECT && j < NINDIRECT
  }

  predicate IsTable(s: Slot) { s.Ind? || s.Dind? || s.Mid? }

  /** An entry of the table at address a; an absent table has no entries. */
  function Entry(disk: Disk, a: nat, j: nat): nat
    requires j < NINDIRECT
  { if a == 0 || a >= |disk| then 0 else Word(disk[a], j) }

  /** The block number a slot holds, 0 when unmapped. */
  function SlotAddr(disk: Disk, ip: Inode, s: Slot): nat
    requires SlotOk(s)
  {
    match s
    case Direct(i) => ip.addrs[i]
    case Ind => ip.addrs[NDIRECT]
    case IndEntry(j) => Entry(disk, ip.addrs[NDIRECT], j)
    case Dind => ip.addrs[NDIRECT + 1]
    case Mid(m) => Entry(disk, ip.addrs[NDIRECT + 1], m)
    case DindEntry(m, j) => Entry(disk, Entry(disk, ip.addrs[NDIRECT + 1], m), j)
  }

  /** The slot of file block bn. */
  function DataSlot(bn: nat): (s: Slot)
    requires bn < MAXFILE
    ensures SlotOk(s) && !IsTable(s)
  {
    if bn < NDIRECT then Direct(bn)
    else if bn - NDIRECT < NINDIRECT then IndEntry(bn - NDIRECT)
    else
      var k := bn - NDIRECT - NINDIRECT;
      DindEntry(k / NINDIRECT, k % NINDIRECT)
  }

  lemma DataSlotInjective(b: nat, c: nat)
    requires b < MAXFILE && c < MAXFILE && DataSlot(b) == DataSlot(c)
    ensures b == c
  {}
}
