/** The image builder: appending to files on a blank image and writing the bitmap at the end. */
module Mkfs {
  import opened Arith
  import opened FsDisk
  import opened FsInv
  import opened Fs
  import opened FsCut
  import opened FsTrunc
  import opened Capacity

  const MAXIMAGE: nat := 0x40_0000

  /** Byte offset of a sector, computed in 32 bits. */
  function SectorOffset(sec: nat): nat { sec * BSIZE % TWO32 }

  /** The size of a directory rounded up to the next block, by a whole block if it ends on one. */
  function Rounded(size: nat): nat { (size / BSIZE + 1) * BSIZE }

  /** Every sector of an image has its own offset exactly up to four gigabytes. */
  lemma Addressable(size: nat)
    ensures (forall a: nat, b: nat :: a < b < size ==> SectorOffset(a) != SectorOffset(b)) <==> size <= MAXIMAGE
  {
    if size > MAXIMAGE { assert SectorOffset(MAXIMAGE) == SectorOffset(0); }
  }

  /** Exactly the blocks below f are marked used. */
  ghost predicate UsedBelow(g: Geometry, disk: Disk, f: nat)
    requires DiskOk(g, disk)
  { forall c: nat :: c < g.size ==> (Bit(g, disk, c) <==> c < f) }

  ghost predicate ZeroFrom(disk: Disk, f: nat) { forall k: nat :: f <= k < |disk| ==> disk[k] == ZeroBlock() }

  /** The boot block and the bitmap are blank. */
  ghost predicate BlankMeta(g: Geometry, disk: Disk) {
    forall k: nat :: (k == 0 || g.bmapstart <= k < g.datastart) && k < |disk| ==> disk[k] == ZeroBlock()
  }

  function BlankDisk(g: Geometry): Disk { seq(g.size, _ => ZeroBlock()) }

  function BlankInodes(k: nat): seq<Inode> { seq(k, _ => Inode(0, seq(NDIRECT + 2, _ => 0))) }

  /** The disk with the bits of the first k blocks set. */
  ghost function MarkFirst(g: Geometry, k: nat): (d: Disk)
    requires GeoOk(g) && k <= g.size
    ensures DiskOk(g, d)
  {
    if k == 0 then BlankDisk(g)
    else
      MarkFrame(g, MarkFirst(g, k - 1), k - 1);
      MarkUsed(g, MarkFirst(g, k - 1), k - 1)
  }

  lemma {:induction false} MarkFirstBits(g: Geometry, k: nat)
    requires GeoOk(g) && k <= g.size
    ensures UsedBelow(g, MarkFirst(g, k), k) && DataSame(g, BlankDisk(g), MarkFirst(g, k))
  {
    hide Bit, MarkUsed;
    if k == 0 {
      forall c: nat | c < g.size ensures !Bit(g, BlankDisk(g), c) { BlankBit(g, c); }
    } else {
      MarkFirstBits(g, k - 1);
      MarkFrame(g, MarkFirst(g, k - 1), k - 1);
      forall c: nat | c < g.size ensures Bit(g, MarkFirst(g, k), c) <==> c < k {
        MarkBits(g, MarkFirst(g, k - 1), k - 1, c);
      }
    }
  }

  lemma BlankBit(g: Geometry, c: nat)
    requires GeoOk(g) && c < g.size
    ensures !Bit(g, BlankDisk(g), c)
  {}

  /** Empty inodes reach nothing. */
  lemma BlankInv(g: Geometry, d: Disk, k: nat)
    requires DiskOk(g, d) && UsedBelow(g, d, g.datastart)
    ensures Inv(g, St(d, BlankInodes(k)))
  {}

  /** Linking the next block keeps the count and touches no block from there on. */
  lemma LinkNext(g: Geometry, st: St, r: Ref, f: nat)
    requires Inv(g, st) && Reachable(st, r) && At(st, r) == 0 && g.datastart <= f < g.size && DiskOk(g, st.disk) && UsedBelow(g, st.disk, f)
    requires Reachable(Take(g, st, f), r)
    ensures var st' := Link(Take(g, st, f), r, f); DiskOk(g, st'.disk) && UsedBelow(g, st'.disk, f + 1)
  {
    hide Bit, At, Link, Take, Unreferenced;
    TakeKeeps(g, st, f);
    TakeLen(g, st, f);
    LinkBits(g, Take(g, st, f), r, f);
  }

  lemma TakeLen(g: Geometry, st: St, b: nat)
    requires DiskOk(g, st.disk) && b < g.size
    ensures DiskOk(g, Take(g, st, b).disk)
  {}

  /** The state the readers see differs from the bookkept one in the bitmap only. */
  lemma SameFiles(g: Geometry, st: St, d: Disk)
    requires Inv(g, st) && DataSame(g, st.disk, d)
    ensures forall r :: RefOk(st, r) ==> RefOk(st.(disk := d), r) && At(st.(disk := d), r) == At(st, r)
    ensures SameBytes(st, st.(disk := d))
  {
    hide At, Bit, DataSlot;
    forall r | RefOk(st, r) ensures RefOk(st.(disk := d), r) && At(st.(disk := d), r) == At(st, r) { DiskOnly(g, st, d, r); }
    MappedData(g, st);
    forall m: nat, k: nat | m < |st.inodes| ensures FileByte(st.(disk := d), m, k) == FileByte(st, m, k) {
      if k / BSIZE < MAXFILE { assert RefOk(st, Ref(m, DataSlot(k / BSIZE))); }
    }
  }

  lemma TableSame(g: Geometry, st: St, d: Disk, r: Ref)
    requires Inv(g, st) && DataSame(g, st.disk, d) && Reachable(st, r) && !InInode(r.s)
    ensures Reachable(st.(disk := d), r)
    ensures var p := Ref(r.n, Parent(r.s)); At(st.(disk := d), p) == At(st, p) && d[At(st, p)] == st.disk[At(st, p)] && g.datastart <= At(st, p)
  {
    hide At, Bit;
    DiskOnly(g, st, d, Ref(r.n, Parent(r.s)));
    MappedData(g, st);
  }

  lemma TableBelow(g: Geometry, st: St, r: Ref, f: nat)
    requires Inv(g, st) && UsedBelow(g, st.disk, f) && Reachable(st, r) && !InInode(r.s)
    ensures At(st, Ref(r.n, Parent(r.s))) < f
  {}

  lemma FreeIs(g: Geometry, st: St, f: nat)
    requires DiskOk(g, st.disk) && UsedBelow(g, st.disk, f) && g.datastart <= f < g.size
    ensures !Bit(g, st.disk, f) && f != 0
  {}

  lemma TakenSameTable(g: Geometry, st: St, r: Ref, b: nat)
    requires Inv(g, st) && Reachable(st, r) && b < g.size && !Bit(g, st.disk, b)
    ensures !InInode(r.s) ==> At(Take(g, st, b), Ref(r.n, Parent(r.s))) == At(st, Ref(r.n, Parent(r.s))) != b
  { TakeKeeps(g, st, b); }

  /** The image and its bookkept twin receive the same data. */
  lemma FillData(g: Geometry, st: St, d0: Disk, r: Ref, b: nat, t: nat, zeroed: bool, d: Disk, sh: Disk)
    requires DiskOk(g, st.disk) && DataSame(g, st.disk, d0) && ZeroFrom(d0, b) && BlankMeta(g, d0) && SlotOk(r.s)
    requires g.datastart <= b < g.size && (!InInode(r.s) ==> g.datastart <= t < b)
    requires |MarkUsed(g, st.disk, b)| == |st.disk|
    requires var z := if zeroed then d0[b := ZeroBlock()] else d0;
             var y := MarkUsed(g, st.disk, b)[b := ZeroBlock()];
             d == (if InInode(r.s) then z else z[t := SetWord(z[t], EntryIndex(r.s), b)])
             && sh == (if InInode(r.s) then y else y[t := SetWord(y[t], EntryIndex(r.s), b)])
    ensures DataSame(g, sh, d) && DiskOk(g, sh) && DiskOk(g, d) && ZeroFrom(d, b + 1) && BlankMeta(g, d)
  {
    hide SetWord, ZeroBlock, MarkUsed;
    MarkFrame(g, st.disk, b);
  }

  lemma GrownSame(g: Geometry, st: St, st': St)
    requires Grown(g, st, st')
    ensures |st'.inodes| == |st.inodes| && forall m: nat :: m < |st.inodes| ==> st'.inodes[m].size == st.inodes[m].size
  {}

  lemma GrownFacts(g: Geometry, st: St, s0: St, s1: St, n: nat, start: nat, data: seq<Byte>, pos: nat)
    requires Grown(g, s0, s1) && Written(st, s0, n, start, data) && SameSizes(st, s0) && KeepsMapped(st, s0)
    requires n < |s0.inodes| && Covered(s0, n, start, pos)
    ensures n < |s1.inodes| && Written(st, s1, n, start, data) && SameSizes(st, s1) && KeepsMapped(st, s1) && Covered(s1, n, start, pos)
  {}

  /** Writing a data block keeps the image and its twin in step. */
  lemma PatchData(g: Geometry, st: St, n: nat, bn: nat, d0: Disk, d: Disk, sh: Disk, boff: nat, piece: seq<Byte>, f: nat)
    requires Inv(g, st) && DiskOk(g, st.disk) && DiskOk(g, d0) && DataSame(g, st.disk, d0) && UsedBelow(g, st.disk, f) && ZeroFrom(d0, f) && BlankMeta(g, d0)
    requires n < |st.inodes| && bn < MAXFILE && At(st, Ref(n, DataSlot(bn))) != 0 && At(st, Ref(n, DataSlot(bn))) < |st.disk|
    requires boff + |piece| <= BSIZE
    requires var x := At(st, Ref(n, DataSlot(bn))); d == d0[x := Patch(d0[x], boff, piece)] && sh == st.disk[x := Patch(st.disk[x], boff, piece)]
    ensures DiskOk(g, d) && DiskOk(g, sh) && DataSame(g, sh, d) && UsedBelow(g, sh, f) && ZeroFrom(d, f) && BlankMeta(g, d)
  {
    hide At, Bit, DataSlot, Patch;
    AtInRange(g, st, n, bn);
    assert RefOk(st, Ref(n, DataSlot(bn)));
    forall c: nat | c < g.size ensures Bit(g, sh, c) <==> Bit(g, st.disk, c) { BitFrame(g, st.disk, sh, c); }
  }

  lemma ZeroBits(buf: Block)
    requires buf == ZeroBlock()
    ensures forall j: nat :: j < BPB ==> !BitOf(buf[j / 8], j % 8)
  {}

  lemma BlankBits(g: Geometry, d: Disk)
    requires DiskOk(g, d) && BlankMeta(g, d)
    ensures forall c: nat :: c < g.size ==> !Bit(g, d, c)
  {}

  /** One bitmap block written: its bits are final, the other bits are as before. */
  lemma BitmapStep(g: Geometry, d0: Disk, d1: Disk, d2: Disk, b: nat, used: nat, buf: Block)
    requires DiskOk(g, d0) && DiskOk(g, d1) && b % BPB == 0 && b < used <= g.size && DataSame(g, d0, d1)
    requires g.bmapstart + b / BPB < g.datastart && d2 == d1[g.bmapstart + b / BPB := buf]
    requires forall c: nat :: c < g.size && c < b ==> (Bit(g, d1, c) <==> c < used)
    requires forall j: nat :: j < BPB ==> (BitOf(buf[j / 8], j % 8) <==> j < (if b + BPB > used then used else b + BPB) - b)
    requires forall k: nat :: g.bmapstart + b / BPB <= k < g.datastart ==> d1[k] == d0[k]
    ensures DiskOk(g, d2) && DataSame(g, d0, d2)
    ensures forall c: nat :: c < g.size && c < b + BPB ==> (Bit(g, d2, c) <==> c < used)
    ensures forall k: nat :: g.bmapstart + (b + BPB) / BPB <= k < g.datastart ==> d2[k] == d0[k]
  {
    hide BitOf;
    assert (b + BPB) / BPB == b / BPB + 1;
    forall c: nat | c < g.size && c < b + BPB ensures Bit(g, d2, c) <==> c < used {
      BitBlockInMeta(g, c);
      if c < b {
        assert c / BPB < b / BPB;
        assert Bit(g, d1, c) <==> c < used;
      } else {
        assert c / BPB == b / BPB && c % BPB == c - b;
      }
    }
  }

  /** Bitmap blocks never written have clear bits. */
  lemma TailClear(g: Geometry, d0: Disk, d: Disk, b: nat, used: nat)
    requires DiskOk(g, d0) && DiskOk(g, d) && b % BPB == 0 && b >= used
    requires forall k: nat :: g.bmapstart + b / BPB <= k < g.datastart ==> d[k] == d0[k]
    requires forall c: nat :: c < g.size ==> !Bit(g, d0, c)
    requires forall c: nat :: c < g.size && c < b ==> (Bit(g, d, c) <==> c < used)
    ensures UsedBelow(g, d, used)
  {
    hide BitOf;
    forall c: nat | c < g.size ensures Bit(g, d, c) <==> c < used {
      BitBlockInMeta(g, c);
      if c >= b {
        assert b / BPB <= c / BPB;
        assert !Bit(g, d0, c);
      }
    }
  }

  /** The bookkept twin's invariant carries over once the bitmap is written. */
  lemma ImageReady(g: Geometry, st: St, d: Disk, f: nat)
    requires Inv(g, st) && DiskOk(g, st.disk) && DiskOk(g, d) && DataSame(g, st.disk, d) && UsedBelow(g, st.disk, f) && UsedBelow(g, d, f)
    ensures Inv(g, st.(disk := d)) && KeepsMapped(st, st.(disk := d)) && SameBytes(st, st.(disk := d))
  {
    hide At, Bit, FileByte;
    SameFiles(g, st, d);
    InvCarries(g, st, st.(disk := d), g.size);
  }

  class Image {
    const g: Geometry
    var disk: Disk
    var inodes: seq<Inode>
    var freeblock: nat
    /** The disk as it would be with the bitmap kept up to date. */
    ghost var shadow: Disk

    ghost function V(): St
      reads this
    { St(shadow, inodes) }

    function S(): St
      reads this
    { St(disk, inodes) }

    ghost predicate Valid()
      reads this
    {
      && DiskOk(g, disk) && DiskOk(g, shadow) && DataSame(g, shadow, disk) && Inv(g, V())
      && g.datastart <= freeblock <= g.size && UsedBelow(g, shadow, freeblock)
      && ZeroFrom(disk, freeblock) && BlankMeta(g, disk)
    }

    /** main: a zeroed image with empty inodes; the next block to hand out is the first past the metadata. */
    constructor (g: Geometry, ninodes: nat)
      requires GeoOk(g) && g.size <= MAXIMAGE
      ensures Valid() && this.g == g && inodes == BlankInodes(ninodes) && freeblock == g.datastart
    {
      hide UsedBelow, Inv, Bit;
      this.g := g;
      disk := BlankDisk(g);
      inodes := BlankInodes(ninodes);
      freeblock := g.datastart;
      shadow := MarkFirst(g, g.datastart);
      MarkFirstBits(g, g.datastart);
      BlankInv(g, MarkFirst(g, g.datastart), ninodes);
    }

    /** The block in a slot, the next block of the image linked into it if it is empty. It fails, changing
        nothing, exactly when the slot is empty and no block is left: reading the data block past the end
        fails and the builder exits. A table past the end is written, but the data block needed next is
        then past the end too. */
    method FillSlot(n: nat, s: Slot) returns (addr: nat)
      requires Valid() && Reachable(V(), Ref(n, s))
      modifies this
      ensures addr == 0 <==> At(old(V()), Ref(n, s)) == 0 && old(freeblock) == g.size
      ensures addr == 0 ==> V() == old(V()) && disk == old(disk) && freeblock == old(freeblock)
      ensures addr != 0 ==> Valid() && Grown(g, old(V()), V()) && RefOk(V(), Ref(n, s)) && At(V(), Ref(n, s)) == addr && addr < |disk|
      ensures addr != 0 ==> OneFilled(old(V()), V(), Ref(n, s)) && freeblock == old(freeblock) + if At(old(V()), Ref(n, s)) == 0 then 1 else 0
    {
      hide Word, SetWord, Bit, Inv, ZeroBlock, UsedBelow, BlankMeta, ZeroFrom, SlotOk, OneFilled;
      ghost var st, r := V(), Ref(n, s);
      GrownRefl(g, st);
      var table: nat := 0;
      if InInode(s) {
        addr := inodes[n].addrs[AddrIndex(s)];
      } else {
        TableSame(g, st, disk, r);
        TableBelow(g, st, r, freeblock);
        table := TableAddr(n, s);
        addr := Word(disk[table], EntryIndex(s));
        AtEntry(st, r);
      }
      assert addr == At(st, r);
      if addr != 0 {
        MappedInRange(g, st, r);
        NothingFilled(st, r);
        return;
      }
      if freeblock >= g.size { return; }
      addr := freeblock;
      FreeIs(g, st, addr);
      FillGrows(g, st, r, addr);
      FilledIs(st, Link(Take(g, st, addr), r, addr), r);
      TakenSameTable(g, st, r, addr);
      LinkNext(g, st, r, addr);
      freeblock := freeblock + 1;
      ghost var d0 := disk;
      shadow := MarkUsed(g, shadow, addr)[addr := ZeroBlock()];
      if IsTable(s) { disk := disk[addr := ZeroBlock()]; }
      if InInode(s) {
        inodes := inodes[n := inodes[n].(addrs := inodes[n].addrs[AddrIndex(s) := addr])];
      } else {
        disk := disk[table := SetWord(disk[table], EntryIndex(s), addr)];
        shadow := shadow[table := SetWord(shadow[table], EntryIndex(s), addr)];
      }
      assert V() == Link(Take(g, st, addr), r, addr);
      FillData(g, st, d0, r, addr, table, IsTable(s), disk, shadow);
    }

    /** The table a slot is stored in, read from the image. */
    method TableAddr(n: nat, s: Slot) returns (t: nat)
      requires Reachable(S(), Ref(n, s)) && !InInode(s)
      ensures t == At(S(), Ref(n, Parent(s))) && t < |disk|
    {
      match s {
        case IndEntry(_) => t := inodes[n].addrs[NDIRECT];
        case Mid(_) => t := inodes[n].addrs[NDIRECT + 1];
        case DindEntry(m, _) => t := Word(disk[inodes[n].addrs[NDIRECT + 1]], m);
      }
    }

    /** The block for file block bn: the three branches of iappend. It takes exactly the blocks missing on
        the way, and fails exactly when fewer are left. */
    method BlockFor(n: nat, bn: nat) returns (addr: nat)
      requires Valid() && n < |inodes| && bn < MAXFILE
      modifies this
      ensures addr == 0 <==> old(freeblock) + Missing(old(V()), n, bn) > g.size
      ensures addr != 0 ==> Valid() && Grown(g, old(V()), V()) && RefOk(V(), Ref(n, DataSlot(bn)))
                            && At(V(), Ref(n, DataSlot(bn))) == addr && addr < |disk|
      ensures addr != 0 ==> PathFilled(old(V()), V(), n, bn) && freeblock == old(freeblock) + Missing(old(V()), n, bn)
    {
      hide Word, Bit, Inv, ZeroBlock, FileByte, At, Grown, Entry, UsedBelow, BlankMeta, ZeroFrom, DataSame, OneFilled, PathFilled;
      ghost var st := V();
      ValidInv();
      if bn < NDIRECT {
        addr := FillSlot(n, Direct(bn));
        if addr != 0 { FilledDirect(st, V(), n, bn); }
      } else if bn < NDIRECT + NINDIRECT {
        addr := FillSlot(n, Ind);
        if addr == 0 { return; }
        ghost var s1 := V();
        ValidInv();
        GrownSame(g, st, s1);
        FilledOther(st, s1, Ref(n, Ind), Ref(n, IndEntry(bn - NDIRECT)));
        addr := FillSlot(n, IndEntry(bn - NDIRECT));
        if addr != 0 {
          GrownTrans(g, st, s1, V());
          FilledIndirect(st, s1, V(), n, bn);
        }
      } else {
        var bn2 := bn - NDIRECT - NINDIRECT;
        addr := FillSlot(n, Dind);
        if addr == 0 { return; }
        ghost var s1 := V();
        ValidInv();
        GrownSame(g, st, s1);
        FilledOther(st, s1, Ref(n, Dind), Ref(n, Mid(bn2 / NINDIRECT)));
        FilledOther(st, s1, Ref(n, Dind), Ref(n, DindEntry(bn2 / NINDIRECT, bn2 % NINDIRECT)));
        addr := FillSlot(n, Mid(bn2 / NINDIRECT));
        if addr == 0 { return; }
        ghost var s2 := V();
        ValidInv();
        GrownSame(g, s1, s2);
        GrownTrans(g, st, s1, s2);
        FilledOther(s1, s2, Ref(n, Mid(bn2 / NINDIRECT)), Ref(n, DindEntry(bn2 / NINDIRECT, bn2 % NINDIRECT)));
        addr := FillSlot(n, DindEntry(bn2 / NINDIRECT, bn2 % NINDIRECT));
        if addr != 0 {
          GrownTrans(g, st, s2, V());
          FilledDouble(st, s1, s2, V(), n, bn);
        }
      }
    }

    lemma ValidInv()
      requires Valid()
      ensures Inv(g, V()) && DataSame(g, shadow, disk) && DiskOk(g, shadow) && DiskOk(g, disk)
    {}

    /** iappend: adds data at the end of a file. It fails only past the largest file or when the image
        is full; otherwise the file has grown by exactly the data and every other file is the same. */
    method Append(n: nat, data: seq<Byte>) returns (ok: bool)
      requires Valid() && n < |inodes| && Dense(V(), n) && Snug(V(), n, FirstFree(inodes[n].size))
      modifies this
      ensures ok <==> old(inodes[n].size) + |data| <= MAXBYTES
                      && old(freeblock) + Needs(FirstFree(old(inodes[n].size) + |data|)) <= g.size + Needs(FirstFree(old(inodes[n].size)))
      ensures ok ==> Counted(old(V()), V(), n, old(inodes[n].size), old(inodes[n].size) + |data|, old(freeblock), freeblock)
      ensures ok ==> Valid() && |inodes| == |old(inodes)| && Dense(V(), n) && KeepsMapped(old(V()), V())
      ensures ok ==> inodes[n].size == old(inodes[n].size) + |data|
                     && forall m: nat :: m < |inodes| && m != n ==> inodes[m].size == old(inodes[m].size)
      ensures ok ==> Written(old(V()), V(), n, old(inodes[n].size), data)
    {
      hide Inv, FileByte, At, Grown, Bit, Written, KeepsMapped, Covered, DataSame, UsedBelow, BlankMeta, ZeroFrom, DataSlot, Dense, Counted, PathFilled, Snug, SameMap, Needs, Missing, FirstFree;
      ghost var st, f0, size0 := V(), freeblock, inodes[n].size;
      DenseSmall(st, n);
      CountedStart(st, n, size0, f0);
      ValidInv();
      var off, tot := inodes[n].size, 0;
      WrittenStart(st, n, off);
      NothingCovered(st, n, off);
      while tot < |data|
        invariant 0 <= tot <= |data| && off == st.inodes[n].size + tot && Valid() && n < |inodes|
        invariant Written(st, V(), n, st.inodes[n].size, data[..tot]) && SameSizes(st, V())
        invariant KeepsMapped(st, V()) && Covered(V(), n, st.inodes[n].size, off)
        invariant Counted(st, V(), n, size0, off, f0, freeblock)
      {
        var fbn := off / BSIZE;
        if fbn >= MAXFILE { return false; }
        ghost var s0, f := V(), freeblock;
        var x := BlockFor(n, fbn);
        if x == 0 {
          CountedFull(st, s0, n, size0, off, size0 + |data|, f0, f, g.size);
          return false;
        }
        GrownFacts(g, st, s0, V(), n, st.inodes[n].size, data[..tot], off);
        var n1 := BSIZE - off % BSIZE;
        if n1 > |data| - tot { n1 := |data| - tot; }
        ghost var s2 := V();
        ValidInv();
        WrittenStep(g, st, s2, n, st.inodes[n].size, data[..tot], fbn, data[tot..tot + n1]);
        assert data[..tot] + data[tot..tot + n1] == data[..tot + n1];
        CoveredStep(s2, n, st.inodes[n].size, off, n1);
        ghost var d2, sh2 := disk, shadow;
        disk := disk[x := Patch(disk[x], off % BSIZE, data[tot..tot + n1])];
        shadow := shadow[x := Patch(shadow[x], off % BSIZE, data[tot..tot + n1])];
        PatchData(g, s2, n, fbn, d2, disk, shadow, off % BSIZE, data[tot..tot + n1], freeblock);
        KeepsTrans(st, s2, V());
        CoveredKept(s2, V(), n, st.inodes[n].size, off + n1);
        SameMapIs(s2, V());
        CountedStep(st, s0, s2, V(), n, size0, off, n1, f0, f, freeblock);
        tot := tot + n1;
        off := off + n1;
      }
      ghost var s1 := V();
      inodes := inodes[n := inodes[n].(size := off)];
      assert data[..tot] == data;
      ResizeKeeps(g, st, s1, V(), n, st.inodes[n].size, data);
      SameMapIs(s1, V());
      CountedSame(st, s1, V(), n, size0, off, f0, freeblock);
      CountedSums(st, V(), n, size0, off, f0, freeblock);
      KeepsTrans(st, s1, V());
      CoveredKept(s1, V(), n, st.inodes[n].size, off);
      WriteKeepsDense(st, V(), n, st.inodes[n].size, |data|);
      DenseSmall(V(), n);
      ok := true;
    }

    /** main rounds the size of the root directory up before the bitmap is written. */
    method RoundSize(n: nat)
      requires Valid() && n < |inodes|
      modifies this`inodes
      ensures Valid() && inodes == old(inodes)[n := old(inodes)[n].(size := Rounded(old(inodes)[n].size))]
      ensures KeepsMapped(old(V()), V()) && SameBytes(old(V()), V())
    {
      hide Inv, FileByte, At, Bit, KeepsMapped, DataSame, UsedBelow, BlankMeta, ZeroFrom;
      ghost var st := V();
      ValidInv();
      WrittenStart(st, n, 0);
      var off := inodes[n].size;
      off := (off / BSIZE + 1) * BSIZE;
      inodes := inodes[n := inodes[n].(size := off)];
      ResizeKeeps(g, st, st, V(), n, 0, []);
    }

    /** balloc: writes the bitmap. The image then satisfies the kernel's block invariant, exactly the
        handed-out blocks are marked used, the boot block is blank, and every file is what was appended. */
    method WriteBitmap()
      requires Valid()
      modifies this`disk
      ensures Inv(g, S()) && DiskOk(g, disk) && UsedBelow(g, disk, freeblock) && disk[0] == ZeroBlock()
      ensures KeepsMapped(V(), S()) && SameBytes(V(), S())
    {
      hide Inv, Bit, BitOf, OrBit, At, KeepsMapped, SameBytes;
      ghost var d0 := disk;
      var used := freeblock;
      var b := 0;
      BlankBits(g, d0);
      while b < used
        invariant b % BPB == 0 && DiskOk(g, disk) && DataSame(g, d0, disk) && disk[0] == ZeroBlock()
        invariant forall k: nat :: g.bmapstart + b / BPB <= k < g.datastart ==> disk[k] == d0[k]
        invariant forall c: nat :: c < g.size && c < b ==> (Bit(g, disk, c) <==> c < used)
        decreases used - b
      {
        var buf, end := ZeroBlock(), if b + BPB > used then used else b + BPB;
        ZeroBits(buf);
        var i := b;
        while i < end
          modifies {}
          invariant b <= i <= end
          invariant forall j: nat :: j < BPB ==> (BitOf(buf[j / 8], j % 8) <==> j < i - b)
        {
          buf := SetBit(buf, i - b);
          i := i + 1;
        }
        BitBlockInMeta(g, b);
        ghost var d1 := disk;
        disk := disk[g.bmapstart + b / BPB := buf];
        BitmapStep(g, d0, d1, disk, b, used, buf);
        b := b + BPB;
      }
      TailClear(g, d0, disk, b, used);
      ImageReady(g, V(), disk, freeblock);
    }

    /** Sets the bit of block k in a bitmap block whose lower bits are set. */
    method SetBit(buf: Block, k: nat) returns (r: Block)
      requires k < BPB && forall j: nat :: j < BPB ==> (BitOf(buf[j / 8], j % 8) <==> j < k)
      ensures forall j: nat :: j < BPB ==> (BitOf(r[j / 8], j % 8) <==> j < k + 1)
    {
      hide BitOf, OrBit;
      r := buf[k / 8 := OrBit(buf[k / 8], k % 8)];
      forall j: nat | j < BPB ensures BitOf(r[j / 8], j % 8) <==> j < k + 1 {
        if j / 8 == k / 8 { ByteBits(buf[k / 8], k % 8, j % 8); }
      }
    }
  }
}
