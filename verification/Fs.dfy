/** The kernel's block layer: allocation, the three-level block map, reading and writing files. */
module Fs {
  import opened Arith
  import opened FsDisk
  import opened FsInv

  const MAXBYTES: nat := 67382272  // MAXFILE * BSIZE

  ghost predicate AllUsed(g: Geometry, disk: Disk)
    requires DiskOk(g, disk)
  { forall c: nat :: c < g.size ==> Bit(g, disk, c) }

  ghost function FreeBlocks(g: Geometry, disk: Disk): set<nat>
    requires DiskOk(g, disk)
  { set c: nat | c < g.size && !Bit(g, disk, c) }

  /** No block became free. */
  ghost predicate KeepsUsed(g: Geometry, d0: Disk, d: Disk) {
    DiskOk(g, d0) && DiskOk(g, d) && FreeBlocks(g, d) <= FreeBlocks(g, d0)
  }

  lemma KeepsUsedTrans(g: Geometry, a: Disk, b: Disk, c: Disk)
    requires KeepsUsed(g, a, b) && KeepsUsed(g, b, c)
    ensures KeepsUsed(g, a, c)
  {}

  lemma GrownUsed(g: Geometry, st: St, st': St)
    requires Grown(g, st, st')
    ensures KeepsUsed(g, st.disk, st'.disk) && KeepsUsed(g, st'.disk, st'.disk)
  { hide Bit, At; }

  ghost predicate SizesOk(st: St) { forall n: nat :: n < |st.inodes| ==> st.inodes[n].size <= MAXBYTES }

  /** st is st0 with data written at byte off of inode n; every other byte of every file is the same. */
  ghost predicate Written(st0: St, st: St, n: nat, off: nat, data: seq<Byte>) {
    && |st.inodes| == |st0.inodes|
    && forall m: nat, k: nat :: m < |st0.inodes| ==>
         FileByte(st, m, k) == if m == n && off <= k < off + |data| then data[k - off] else FileByte(st0, m, k)
  }

  /** File block bn is a hole and there is no free block to fill it with. */
  ghost predicate Starved(g: Geometry, st: St, n: nat, bn: nat)
    requires bn < MAXFILE
  { DiskOk(g, st.disk) && AllUsed(g, st.disk) && RefOk(st, Ref(n, DataSlot(bn))) && At(st, Ref(n, DataSlot(bn))) == 0 }

  /** The length fs_readi settles on for a start within the file: the end of the range is added up in
      32 bits and compared with the size. */
  function ReadLength(off: nat, count: nat, size: nat): (want: nat)
    requires off <= size
  { if (off + count) % TWO32 > size then size - off else count }

  /** That is the part of the range that lies in the file exactly when the sum does not wrap, or wraps
      to more than the size. Otherwise the read goes on for all of count, past the end. */
  lemma ReadLengthExact(off: nat, count: nat, size: nat)
    requires off <= size < TWO32 && count < TWO32
    ensures ReadLength(off, count, size) == Min(count, size - off) <==> off + count < TWO32 || (off + count) % TWO32 > size
    ensures ReadLength(off, count, size) != Min(count, size - off) ==> ReadLength(off, count, size) == count > size - off
  {}

  /** The last kilobyte of a two-kilobyte file, asked for with the largest count. */
  lemma ReadsPastEnd()
    ensures ReadLength(1024, 0xFFFF_FFFF, 2048) == 0xFFFF_FFFF && Min(0xFFFF_FFFF, 2048 - 1024) == 1024
  {}

  /** A block with some bytes replaced. */
  function Patch(blk: Block, boff: nat, data: seq<Byte>): Block
    requires boff + |data| <= BSIZE
  { blk[..boff] + data + blk[boff + |data|..] }

  /** No mapped slot was lost or moved. */
  ghost predicate KeepsMapped(st: St, st': St) {
    forall r :: RefOk(st, r) && At(st, r) != 0 ==> RefOk(st', r) && At(st', r) == At(st, r)
  }

  /** The blocks of inode n that hold bytes from off up to pos are mapped. */
  ghost predicate Covered(st: St, n: nat, off: nat, pos: nat)
    requires n < |st.inodes|
  {
    forall b: nat :: off < pos && off / BSIZE <= b && b * BSIZE < pos ==> b < MAXFILE && At(st, Ref(n, DataSlot(b))) != 0
  }

  /** A file without holes. */
  ghost predicate Dense(st: St, n: nat)
    requires n < |st.inodes|
  { Covered(st, n, 0, st.inodes[n].size) }

  /** Writing keeps a file free of holes: writes start at or before the end. */
  lemma WriteKeepsDense(st: St, st': St, n: nat, off: nat, r: nat)
    requires n < |st.inodes| && |st'.inodes| == |st.inodes| && KeepsMapped(st, st') && Covered(st', n, off, off + r)
    requires off <= st.inodes[n].size && st'.inodes[n].size == Max(st.inodes[n].size, off + r) && Dense(st, n)
    ensures Dense(st', n)
  {}

  /** Reading a file without holes is never short: the read is exactly the requested part of the content. */
  lemma DenseReadsAll(g: Geometry, st: St, st': St, n: nat, off: nat, count: nat, dst: seq<Byte>)
    requires n < |st.inodes| && Dense(st, n) && KeepsMapped(st, st') && off <= st.inodes[n].size
    requires |dst| <= Min(count, st.inodes[n].size - off)
    requires forall i :: 0 <= i < |dst| ==> dst[i] == FileByte(st, n, off + i)
    requires |dst| < Min(count, st.inodes[n].size - off) ==>
               (off + |dst|) / BSIZE >= MAXFILE || Starved(g, st', n, (off + |dst|) / BSIZE)
    ensures dst == Content(st, n)[off..off + Min(count, st.inodes[n].size - off)]
  {
    hide At, DataSlot, FileByte, AllUsed;
    var b := (off + |dst|) / BSIZE;
    if b * BSIZE < st.inodes[n].size { DenseBlock(st, st', n, b); }
  }

  lemma DenseBlock(st: St, st': St, n: nat, b: nat)
    requires n < |st.inodes| && Dense(st, n) && KeepsMapped(st, st') && b * BSIZE < st.inodes[n].size
    ensures b < MAXFILE && RefOk(st', Ref(n, DataSlot(b))) && At(st', Ref(n, DataSlot(b))) != 0
  {}

  /** Reading where blocks are mapped is never short. */
  lemma CoveredReads(g: Geometry, st: St, st': St, n: nat, off: nat, pos: nat, at: nat)
    requires n < |st.inodes| && Covered(st, n, off, pos) && KeepsMapped(st, st') && off <= at < pos
    ensures at / BSIZE < MAXFILE && !Starved(g, st', n, at / BSIZE)
  {
    hide At, DataSlot, AllUsed;
    assert off / BSIZE <= at / BSIZE && at / BSIZE * BSIZE < pos;
    assert RefOk(st, Ref(n, DataSlot(at / BSIZE)));
  }

  lemma WrittenBytes(st0: St, st: St, n: nat, off: nat, data: seq<Byte>, dst: seq<Byte>)
    requires Written(st0, st, n, off, data) && n < |st.inodes| && |dst| == |data|
    requires forall i :: 0 <= i < |dst| ==> dst[i] == FileByte(st, n, off + i)
    ensures dst == data
  {}

  lemma CoveredStep(st: St, n: nat, off: nat, pos: nat, m: nat)
    requires n < |st.inodes| && Covered(st, n, off, pos) && off <= pos && pos % BSIZE + m <= BSIZE
    requires pos / BSIZE < MAXFILE && At(st, Ref(n, DataSlot(pos / BSIZE))) != 0
    ensures Covered(st, n, off, pos + m)
  {}

  lemma CoveredKept(st: St, st': St, n: nat, off: nat, pos: nat)
    requires n < |st.inodes| && n < |st'.inodes| && Covered(st, n, off, pos) && KeepsMapped(st, st')
    ensures Covered(st', n, off, pos)
  {}

  lemma SameContent(st: St, st': St, n: nat)
    requires n < |st.inodes| && SameBytes(st, st') && st'.inodes[n].size == st.inodes[n].size
    ensures Content(st', n) == Content(st, n)
  {}

  lemma DenseKept(st: St, st': St, n: nat)
    requires n < |st.inodes| && n < |st'.inodes| && Dense(st, n) && KeepsMapped(st, st') && st'.inodes[n].size == st.inodes[n].size
    ensures Dense(st', n)
  {}

  lemma KeepsTrans(a: St, b: St, c: St)
    requires KeepsMapped(a, b) && KeepsMapped(b, c)
    ensures KeepsMapped(a, c)
  {}

  lemma WrittenStart(st: St, n: nat, off: nat)
    ensures Written(st, st, n, off, [])
  {}

  lemma WrittenGrown(st0: St, st: St, st': St, n: nat, off: nat, data: seq<Byte>)
    requires Written(st0, st, n, off, data) && SameBytes(st, st')
    ensures Written(st0, st', n, off, data)
  {}

  /** Patching the block at the end of what is written so far extends it. */
  lemma WrittenStep(g: Geometry, st0: St, st: St, n: nat, off: nat, data: seq<Byte>, bn: nat, piece: seq<Byte>)
    requires Written(st0, st, n, off, data) && Inv(g, st) && n < |st.inodes| && bn < MAXFILE
    requires bn == (off + |data|) / BSIZE && (off + |data|) % BSIZE + |piece| <= BSIZE
    requires At(st, Ref(n, DataSlot(bn))) != 0
    ensures At(st, Ref(n, DataSlot(bn))) < |st.disk|
    ensures var a := At(st, Ref(n, DataSlot(bn)));
            var st' := st.(disk := st.disk[a := Patch(st.disk[a], (off + |data|) % BSIZE, piece)]);
            Written(st0, st', n, off, data + piece) && Inv(g, st') && st'.inodes == st.inodes
            && (AllUsed(g, st.disk) ==> AllUsed(g, st'.disk)) && KeepsMapped(st, st') && KeepsUsed(g, st.disk, st'.disk)
            && forall r :: RefOk(st, r) ==> RefOk(st', r) && At(st', r) == At(st, r)
  {
    hide At, Bit, Inv, DataSlot;
    DiskLen(g, st);
    var a := At(st, Ref(n, DataSlot(bn)));
    AtInRange(g, st, n, bn);
    var blk := Patch(st.disk[a], (off + |data|) % BSIZE, piece);
    WriteKeeps(g, st, n, bn, blk);
    var st' := st.(disk := st.disk[a := blk]);
    DiskLen(g, st');
    forall m: nat, k: nat | m < |st0.inodes|
      ensures FileByte(st', m, k) ==
                if m == n && off <= k < off + |data + piece| then (data + piece)[k - off] else FileByte(st0, m, k)
    {
      if m == n && k / BSIZE == bn { BlockByte(st, n, bn, k); PatchByte(st.disk[a], off + |data|, piece, k); }
    }
  }

  lemma AtInRange(g: Geometry, st: St, n: nat, bn: nat)
    requires Inv(g, st) && n < |st.inodes| && bn < MAXFILE && At(st, Ref(n, DataSlot(bn))) != 0
    ensures g.datastart <= At(st, Ref(n, DataSlot(bn))) < |st.disk|
  {}

  lemma BlockByte(st: St, n: nat, bn: nat, k: nat)
    requires n < |st.inodes| && bn < MAXFILE && k / BSIZE == bn && 0 < At(st, Ref(n, DataSlot(bn))) < |st.disk|
    ensures FileByte(st, n, k) == st.disk[At(st, Ref(n, DataSlot(bn)))][k % BSIZE]
  {}

  lemma PatchByte(blk: Block, pos: nat, piece: seq<Byte>, k: nat)
    requires pos % BSIZE + |piece| <= BSIZE && k / BSIZE == pos / BSIZE
    ensures Patch(blk, pos % BSIZE, piece)[k % BSIZE] ==
              if pos <= k < pos + |piece| then piece[k - pos] else blk[k % BSIZE]
  {}

  lemma BitPlace(g: Geometry, disk: Disk, base: nat, bi: nat)
    requires DiskOk(g, disk) && base % BPB == 0 && bi < BPB && base + bi < g.size
    ensures base / BPB + g.bmapstart < |disk| && BitBlock(g, base + bi) == base / BPB + g.bmapstart
    ensures (base + bi) % BPB == bi
    ensures Bit(g, disk, base + bi) <==> BitOf(disk[base / BPB + g.bmapstart][bi / 8], bi % 8)
    ensures MarkUsed(g, disk, base + bi) ==
              disk[base / BPB + g.bmapstart := disk[base / BPB + g.bmapstart][bi / 8 := OrBit(disk[base / BPB + g.bmapstart][bi / 8], bi % 8)]]
  {}

  lemma AllUsedNot(g: Geometry, disk: Disk, b: nat)
    requires DiskOk(g, disk) && b < g.size && !Bit(g, disk, b)
    ensures !AllUsed(g, disk)
  {}

  lemma MappedInRange(g: Geometry, st: St, r: Ref)
    requires Inv(g, st) && RefOk(st, r) && At(st, r) != 0
    ensures g.datastart <= At(st, r) < |st.disk|
  {}

  /** Taking a block does not move the table the slot is stored in. */
  lemma TakenSame(g: Geometry, st: St, r: Ref, b: nat)
    requires Inv(g, st) && Reachable(st, r) && b < g.size && !Bit(g, st.disk, b)
    ensures !InInode(r.s) ==> At(Take(g, st, b), Ref(r.n, Parent(r.s))) == At(st, Ref(r.n, Parent(r.s)))
  { TakeKeeps(g, st, b); }

  /** A failed fill means a full disk, before and after. */
  lemma FullStays(g: Geometry, st: St, st': St, r: Ref, addr: nat)
    requires Inv(g, st) && (addr == 0 ==> AllUsed(g, st.disk) && st' == st && RefOk(st, r) && At(st, r) == 0)
    ensures addr == 0 ==> DiskOk(g, st'.disk) && AllUsed(g, st'.disk) && RefOk(st', r) && At(st', r) == 0
  {}

  lemma EmptyBelow(st: St, r: Ref)
    requires RefOk(st, r) && !InInode(r.s) && At(st, Ref(r.n, Parent(r.s))) == 0
    ensures At(st, r) == 0
  {}

  lemma MappedAbove(st: St, r: Ref)
    requires RefOk(st, r) && !InInode(r.s)
    ensures RefOk(st, Ref(r.n, Parent(r.s)))
    ensures At(st, r) != 0 ==> At(st, Ref(r.n, Parent(r.s))) != 0
  {}

  lemma GrownParts(g: Geometry, st: St, st': St, n: nat)
    requires Grown(g, st, st')
    ensures Inv(g, st) && Inv(g, st') && DiskOk(g, st'.disk) && SameBytes(st, st') && |st'.inodes| == |st.inodes|
    ensures n < |st.inodes| ==> st'.inodes[n].size == st.inodes[n].size
  {}

  lemma SameByte(st: St, st': St, n: nat, k: nat)
    requires SameBytes(st, st') && n < |st.inodes|
    ensures n < |st'.inodes| && FileByte(st', n, k) == FileByte(st, n, k)
  {}

  lemma NothingCovered(st: St, n: nat, off: nat)
    requires n < |st.inodes|
    ensures Covered(st, n, off, off) && KeepsMapped(st, st)
  {}

  lemma GrownKeeps(g: Geometry, st: St, st': St)
    requires Grown(g, st, st')
    ensures KeepsMapped(st, st')
  {}

  lemma GrownSizes(g: Geometry, a: St, b: St, c: St)
    requires SameSizes(a, b) && Grown(g, b, c)
    ensures SameSizes(a, c)
  {}

  /** The size field plays no part in the block map. */
  lemma ResizeKeeps(g: Geometry, st: St, s1: St, s2: St, n: nat, off: nat, data: seq<Byte>)
    requires Inv(g, s1) && Written(st, s1, n, off, data) && s2.disk == s1.disk && |s2.inodes| == |s1.inodes|
    requires forall m: nat :: m < |s1.inodes| ==> s2.inodes[m].addrs == s1.inodes[m].addrs
    ensures Inv(g, s2) && Written(st, s2, n, off, data)
    ensures AllUsed(g, s1.disk) ==> AllUsed(g, s2.disk)
    ensures KeepsMapped(s1, s2) && forall r :: RefOk(s1, r) ==> RefOk(s2, r) && At(s2, r) == At(s1, r)
  {
    hide Entry, Bit;
    assert forall r :: RefOk(s2, r) <==> RefOk(s1, r);
    assert forall r :: RefOk(s1, r) ==> At(s2, r) == At(s1, r);
    forall m: nat, k: nat | m < |s1.inodes| ensures FileByte(s2, m, k) == FileByte(s1, m, k) {
      if k / BSIZE < MAXFILE { assert RefOk(s1, Ref(m, DataSlot(k / BSIZE))); }
    }
    WrittenGrown(st, s1, s2, n, off, data);
  }

  class FileSystem {
    const g: Geometry
    var disk: Disk
    var inodes: seq<Inode>

    constructor (g: Geometry, disk: Disk, inodes: seq<Inode>)
      ensures this.g == g && this.disk == disk && this.inodes == inodes
    { this.g := g; this.disk := disk; this.inodes := inodes; }

    function S(): St
      reads this
    { St(disk, inodes) }

    /** balloc: takes the lowest free block, zeroed; fails exactly when every block is used. */
    method Balloc() returns (b: nat)
      requires Inv(g, S())
      modifies this`disk
      ensures b == 0 ==> disk == old(disk) && DiskOk(g, disk) && AllUsed(g, disk)
      ensures b != 0 ==> DiskOk(g, old(disk)) && b < g.size && !Bit(g, old(disk), b) && S() == Take(g, old(S()), b)
      ensures b != 0 ==> forall c: nat :: c < b ==> Bit(g, old(disk), c)
    {
      hide BitOf, OrBit, Ranged, Distinct;
      var base: nat := 0;
      while base < g.size
        invariant base % BPB == 0 && disk == old(disk)
        invariant forall c: nat :: c < base && c < g.size ==> Bit(g, disk, c)
      {
        BitBlockInMeta(g, base);
        var k := base / BPB + g.bmapstart;
        var bi := 0;
        while bi < BPB && base + bi < g.size
          invariant 0 <= bi <= BPB && disk == old(disk)
          invariant forall c: nat :: c < base + bi && c < g.size ==> Bit(g, disk, c)
        {
          BitPlace(g, disk, base, bi);
          if !BitOf(disk[k][bi / 8], bi % 8) {
            b := base + bi;
            assert b != 0;
            disk := disk[k := disk[k][bi / 8 := OrBit(disk[k][bi / 8], bi % 8)]];
            disk := disk[b := ZeroBlock()];
            return;
          }
          bi := bi + 1;
        }
        base := base + BPB;
      }
      b := 0;
    }

    /** bfree */
    method Bfree(b: nat)
      requires DiskOk(g, disk) && b < g.size
      modifies this`disk
      ensures disk == MarkFree(g, old(disk), b)
    {
      BitBlockInMeta(g, b);
      var k, bi := b / BPB + g.bmapstart, b % BPB;
      disk := disk[k := disk[k][bi / 8 := AndNotBit(disk[k][bi / 8], bi % 8)]];
    }

    /** One level of fs_bmap: the block in a slot, allocated and linked if the slot is empty. */
    method Fill(n: nat, s: Slot) returns (addr: nat)
      requires Inv(g, S()) && Reachable(S(), Ref(n, s))
      modifies this
      ensures Grown(g, old(S()), S())
      ensures addr != 0 ==> RefOk(S(), Ref(n, s)) && At(S(), Ref(n, s)) == addr && addr < |disk|
      ensures addr == 0 <==> At(old(S()), Ref(n, s)) == 0 && AllUsed(g, old(disk))
      ensures addr == 0 || At(old(S()), Ref(n, s)) != 0 ==> S() == old(S())
    {
      hide Word, SetWord, Bit, Ranged, Distinct, MetaUsed, ZeroBlock;
      ghost var st, r := S(), Ref(n, s);
      GrownRefl(g, st);
      var table: nat := 0;
      if InInode(s) {
        addr := inodes[n].addrs[AddrIndex(s)];
      } else {
        table := TableOf(n, s);
        addr := Word(disk[table], EntryIndex(s));
        AtEntry(st, r);
      }
      assert addr == At(st, r);
      if addr != 0 {
        MappedInRange(g, st, r);
        return;
      }
      addr := Balloc();
      if addr == 0 { return; }
      FillGrows(g, st, r, addr);
      TakenSame(g, st, r, addr);
      if InInode(s) {
        inodes := inodes[n := inodes[n].(addrs := inodes[n].addrs[AddrIndex(s) := addr])];
      } else {
        disk := disk[table := SetWord(disk[table], EntryIndex(s), addr)];
      }
      assert S() == Link(Take(g, st, addr), r, addr);
      AllUsedNot(g, st.disk, addr);
    }

    /** The table a slot below the inode is stored in. */
    method TableOf(n: nat, s: Slot) returns (t: nat)
      requires Reachable(S(), Ref(n, s)) && !InInode(s)
      ensures t == At(S(), Ref(n, Parent(s))) && t < |disk|
    {
      match s {
        case IndEntry(_) => t := inodes[n].addrs[NDIRECT];
        case Mid(_) => t := inodes[n].addrs[NDIRECT + 1];
        case DindEntry(m, _) => t := Word(disk[inodes[n].addrs[NDIRECT + 1]], m);
      }
    }

    /** fs_bmap: the block of file block bn, filling holes at up to three levels. It fails exactly
        beyond the largest file or when a needed block cannot be had because every block is used. */
    method Bmap(n: nat, bn: nat) returns (addr: nat)
      requires Inv(g, S()) && n < |inodes|
      modifies this
      ensures Grown(g, old(S()), S())
      ensures addr != 0 ==> bn < MAXFILE && RefOk(S(), Ref(n, DataSlot(bn))) && At(S(), Ref(n, DataSlot(bn))) == addr && addr < |disk|
      ensures addr == 0 && bn < MAXFILE ==>
                DiskOk(g, disk) && AllUsed(g, disk) && RefOk(S(), Ref(n, DataSlot(bn))) && At(S(), Ref(n, DataSlot(bn))) == 0
      ensures bn < MAXFILE && RefOk(old(S()), Ref(n, DataSlot(bn))) && At(old(S()), Ref(n, DataSlot(bn))) != 0 ==> addr != 0 && S() == old(S())
    {
      hide Word, Bit, Inv, ZeroBlock, FileByte, At, AllUsed, Grown, Entry;
      ghost var st := S();
      GrownRefl(g, st);
      if bn < NDIRECT {
        addr := Fill(n, Direct(bn));
        FullStays(g, st, S(), Ref(n, Direct(bn)), addr);
        return;
      }
      var k := bn - NDIRECT;
      if k < NINDIRECT {
        MappedAbove(st, Ref(n, IndEntry(k)));
        addr := Fill(n, Ind);
        FullStays(g, st, S(), Ref(n, Ind), addr);
        ghost var s1 := S();
        GrownParts(g, st, s1, n);
        if addr == 0 { EmptyBelow(s1, Ref(n, IndEntry(k))); return; }
        addr := Fill(n, IndEntry(k));
        FullStays(g, s1, S(), Ref(n, IndEntry(k)), addr);
        GrownTrans(g, st, s1, S());
        return;
      }
      k := k - NINDIRECT;
      if k < NDINDIRECT {
        addr := BmapDouble(n, k / NINDIRECT, k % NINDIRECT);
        return;
      }
      addr := 0;
    }

    /** The two table levels and the entry of the double-indirect part. */
    method BmapDouble(n: nat, m: nat, j: nat) returns (addr: nat)
      requires Inv(g, S()) && n < |inodes| && m < NINDIRECT && j < NINDIRECT
      modifies this
      ensures Grown(g, old(S()), S())
      ensures addr != 0 ==> RefOk(S(), Ref(n, DindEntry(m, j))) && At(S(), Ref(n, DindEntry(m, j))) == addr && addr < |disk|
      ensures addr == 0 ==>
                DiskOk(g, disk) && AllUsed(g, disk) && RefOk(S(), Ref(n, DindEntry(m, j))) && At(S(), Ref(n, DindEntry(m, j))) == 0
      ensures RefOk(old(S()), Ref(n, DindEntry(m, j))) && At(old(S()), Ref(n, DindEntry(m, j))) != 0 ==> addr != 0 && S() == old(S())
    {
      hide Word, Bit, Inv, ZeroBlock, FileByte, At, AllUsed, Grown, Entry;
      ghost var st := S();
      GrownRefl(g, st);
      MappedAbove(st, Ref(n, DindEntry(m, j)));
      MappedAbove(st, Ref(n, Mid(m)));
      addr := Fill(n, Dind);
      FullStays(g, st, S(), Ref(n, Dind), addr);
      ghost var s1 := S();
      GrownParts(g, st, s1, n);
      if addr == 0 {
        EmptyBelow(s1, Ref(n, Mid(m)));
        EmptyBelow(s1, Ref(n, DindEntry(m, j)));
        return;
      }
      addr := Fill(n, Mid(m));
      FullStays(g, s1, S(), Ref(n, Mid(m)), addr);
      ghost var s2 := S();
      GrownParts(g, s1, s2, n);
      GrownTrans(g, st, s1, s2);
      if addr == 0 { EmptyBelow(s2, Ref(n, DindEntry(m, j))); return; }
      addr := Fill(n, DindEntry(m, j));
      FullStays(g, s2, S(), Ref(n, DindEntry(m, j)), addr);
      GrownTrans(g, st, s2, S());
    }

    /** fs_readi. The bytes returned are those of the file from off on, zeros past its end. The read has
        the length ReadLength says unless a hole is met on a full disk or the largest file is passed.
        Files do not change. */
    method Readi(n: nat, off: nat, count: nat) returns (dst: seq<Byte>)
      requires Inv(g, S()) && n < |inodes| && off < TWO32 && count < TWO32
      modifies this
      ensures Grown(g, old(S()), S())
      ensures forall i :: 0 <= i < |dst| ==> dst[i] == FileByte(old(S()), n, off + i)
      ensures off > old(inodes[n].size) ==> dst == []
      ensures off <= old(inodes[n].size) ==>
                var want := ReadLength(off, count, old(inodes[n].size));
                && |dst| <= want
                && (|dst| < want ==> (off + |dst|) / BSIZE >= MAXFILE || Starved(g, S(), n, (off + |dst|) / BSIZE))
                && (0 < |dst| < want ==> (off + |dst|) % BSIZE == 0)
    {
      hide Inv, FileByte, At, AllUsed, Grown, Bit;
      ghost var st := S();
      GrownRefl(g, st);
      dst := [];
      if off > inodes[n].size { return; }
      var want := count;
      if (off + count) % TWO32 > inodes[n].size { want := inodes[n].size - off; }
      var pos := off;
      while |dst| < want
        invariant pos == off + |dst| && |dst| <= want && Grown(g, st, S()) && n < |inodes|
        invariant 0 < |dst| < want ==> pos % BSIZE == 0
        invariant forall i :: 0 <= i < |dst| ==> dst[i] == FileByte(st, n, off + i)
        decreases want - |dst|
      {
        GrownParts(g, st, S(), n);
        ghost var s0 := S();
        var addr := Bmap(n, pos / BSIZE);
        GrownTrans(g, st, s0, S());
        GrownParts(g, st, S(), n);
        if addr == 0 { return; }
        var boff := pos % BSIZE;
        var m := BSIZE - boff;
        if m > want - |dst| { m := want - |dst|; }
        var piece := disk[addr][boff..boff + m];
        forall i | 0 <= i < m ensures piece[i] == FileByte(st, n, pos + i) {
          BlockByte(S(), n, pos / BSIZE, pos + i);
          SameByte(st, S(), n, pos + i);
        }
        dst := dst + piece;
        pos := pos + m;
      }
      GrownParts(g, st, S(), n);
    }

    /** fs_writei: rejects a start past the end, a 32-bit overflow and a file past the maximum size,
        changing nothing; otherwise stores a prefix of the source at off, all of it unless the disk
        fills up, extends the file to cover it, and changes no other byte of any file. */
    method Writei(n: nat, src: seq<Byte>, off: nat) returns (r: int)
      requires Inv(g, S()) && n < |inodes| && off < TWO32 && |src| < TWO32
      modifies this
      ensures Inv(g, S()) && (SizesOk(old(S())) ==> SizesOk(S()))
      ensures r == -1 <==> off > old(inodes[n].size) || off + |src| >= TWO32 || off + |src| > MAXBYTES
      ensures r == -1 ==> S() == old(S())
      ensures r != -1 ==>
                && 0 <= r <= |src| && Written(old(S()), S(), n, off, src[..r])
                && (r < |src| ==> DiskOk(g, disk) && AllUsed(g, disk)) && KeepsUsed(g, old(disk), disk)
                && KeepsMapped(old(S()), S()) && n < |inodes| && Covered(S(), n, off, off + r)
                && |inodes| == |old(inodes)|
                && inodes[n].size == Max(old(inodes[n].size), off + r)
                && forall m: nat :: m < |inodes| && m != n ==> inodes[m].size == old(inodes[m].size)
    {
      hide Inv, FileByte, At, AllUsed, Grown, Bit, Written, KeepsMapped, Covered, KeepsUsed;
      if off > inodes[n].size || (off + |src|) % TWO32 < off { return -1; }
      if off + |src| > MAXBYTES { return -1; }
      ghost var st := S();
      WrittenStart(st, n, off);
      NothingCovered(st, n, off);
      GrownRefl(g, st);
      GrownUsed(g, st, st);
      var tot, pos := 0, off;
      while tot < |src|
        invariant 0 <= tot <= |src| && pos == off + tot && Inv(g, S()) && n < |inodes|
        invariant Written(st, S(), n, off, src[..tot]) && SameSizes(st, S())
        invariant KeepsMapped(st, S()) && Covered(S(), n, off, pos) && KeepsUsed(g, st.disk, disk)
        decreases |src| - tot
      {
        ghost var s0 := S();
        var addr := Bmap(n, pos / BSIZE);
        GrownParts(g, s0, S(), n);
        GrownUsed(g, s0, S());
        KeepsUsedTrans(g, st.disk, s0.disk, disk);
        GrownSizes(g, st, s0, S());
        WrittenGrown(st, s0, S(), n, off, src[..tot]);
        GrownKeeps(g, s0, S());
        KeepsTrans(st, s0, S());
        CoveredKept(s0, S(), n, off, pos);
        if addr == 0 { break; }
        var boff := pos % BSIZE;
        var m := BSIZE - boff;
        if m > |src| - tot { m := |src| - tot; }
        WrittenStep(g, st, S(), n, off, src[..tot], pos / BSIZE, src[tot..tot + m]);
        assert src[..tot] + src[tot..tot + m] == src[..tot + m];
        ghost var s2 := S();
        CoveredStep(s2, n, off, pos, m);
        disk := disk[addr := Patch(disk[addr], boff, src[tot..tot + m])];
        KeepsTrans(st, s2, S());
        KeepsUsedTrans(g, st.disk, s2.disk, disk);
        CoveredKept(s2, S(), n, off, pos + m);
        tot := tot + m;
        pos := pos + m;
      }
      ghost var s1 := S();
      if pos > inodes[n].size {
        inodes := inodes[n := inodes[n].(size := pos)];
      }
      ResizeKeeps(g, st, s1, S(), n, off, src[..tot]);
      KeepsTrans(st, s1, S());
      CoveredKept(s1, S(), n, off, pos);
      r := tot;
    }

    /** What fs_writei reports as written fs_readi reads back, whole. */
    method WriteThenRead(n: nat, src: seq<Byte>, off: nat) returns (r: int, dst: seq<Byte>)
      requires Inv(g, S()) && n < |inodes| && off < TWO32 && |src| < TWO32
      modifies this
      ensures r == -1 <==> off > old(inodes[n].size) || off + |src| >= TWO32 || off + |src| > MAXBYTES
      ensures r != -1 ==> 0 <= r <= |src| && dst == src[..r]
    {
      hide Inv, FileByte, At, AllUsed, Grown, Written, KeepsMapped, Covered, Starved;
      ghost var st := S();
      dst := [];
      r := Writei(n, src, off);
      if r == -1 { return; }
      ghost var s1 := S();
      dst := Readi(n, off, r);
      GrownKeeps(g, s1, S());
      if |dst| < r { CoveredReads(g, s1, S(), n, off, off + r, off + |dst|); }
      WrittenBytes(st, s1, n, off, src[..r], dst);
    }
  }
}
