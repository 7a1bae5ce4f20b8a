/** The boot loader's reader, and the agreement of the three block maps. */
module BootFs {
  import opened Arith
  import opened FsDisk
  import opened FsInv
  import opened Fs
  import opened FsCut
  import opened FsTrunc
  import opened Capacity
  import opened Mkfs

  const TWO31: int := 0x8000_0000

  /** An unsigned 32-bit value kept in an int. */
  function AsInt(v: nat): (r: int)
    ensures -TWO31 <= r < TWO31 && (v - r) % TWO32 == 0
  { if v % TWO32 >= TWO31 then v % TWO32 - TWO32 else v % TWO32 }

  /** Every block number an inode reaches is on the disk. */
  ghost predicate InRange(st: St, n: nat)
    requires n < |st.inodes|
  { forall s :: SlotOk(s) ==> At(st, Ref(n, s)) < |st.disk| }

  ghost predicate BlocksMapped(st: St, n: nat)
    requires n < |st.inodes|
  { forall b: nat :: b * BSIZE < st.inodes[n].size ==> b < MAXFILE && At(st, Ref(n, DataSlot(b))) != 0 }

  /** What the loader takes for the second-level table of entry i: it does not notice an absent first
      level, and the sector number it computes keeps 31 bits of the block number. */
  function SecondLevel(disk: Disk, top: nat, i: nat): nat
    requires i < NINDIRECT && top < |disk|
  { Word(disk[top], i) % TWO31 }

  /** The word the loader reads for file block bn where a table is absent is zero, as a hole should be. */
  predicate HoleSeen(disk: Disk, ip: Inode, bn: nat)
    requires bn < MAXFILE && 0 < |disk| && ip.addrs[NDIRECT + 1] < |disk|
  {
    if bn < NDIRECT then true
    else if bn < NDIRECT + NINDIRECT then ip.addrs[NDIRECT] != 0 || Word(disk[0], bn - NDIRECT) == 0
    else
      var k, top := bn - NDIRECT - NINDIRECT, ip.addrs[NDIRECT + 1];
      var t := SecondLevel(disk, top, k / NINDIRECT);
      (top != 0 && Word(disk[top], k / NINDIRECT) != 0) || (t < |disk| && Word(disk[t], k % NINDIRECT) == 0)
  }

  /** Below its size, every hole of an inode is seen as one. */
  ghost predicate HolesSeen(st: St, n: nat)
    requires n < |st.inodes| && 0 < |st.disk| && st.inodes[n].addrs[NDIRECT + 1] < |st.disk|
  { forall b: nat :: b < MAXFILE && b * BSIZE < st.inodes[n].size ==> HoleSeen(st.disk, st.inodes[n], b) }

  /** That is so when block 0 is blank, as on every image the builder writes. */
  lemma BlankBootBlock(st: St, n: nat)
    requires n < |st.inodes| && 0 < |st.disk| && st.inodes[n].addrs[NDIRECT + 1] < |st.disk| && st.disk[0] == ZeroBlock()
    ensures HolesSeen(st, n)
  {}

  /** With a boot block that starts with the number 5, an inode without tables seems to have block 5
      where it has a hole. */
  lemma HoleUnseen(disk: Disk, ip: Inode)
    requires 0 < |disk| && disk[0] == SetWord(ZeroBlock(), 0, 5) && ip == Inode(NDIRECT * BSIZE + 1, seq(NDIRECT + 2, _ => 0))
    ensures !HoleSeen(disk, ip, NDIRECT) && At(St(disk, [ip]), Ref(0, DataSlot(NDIRECT))) == 0
  {}

  lemma WordBound(b: Block, j: nat)
    requires j < NINDIRECT
    ensures Word(b, j) < TWO32
  {}

  lemma InvInRange(g: Geometry, st: St, n: nat)
    requires Inv(g, st) && n < |st.inodes|
    ensures InRange(st, n)
  {}

  lemma DenseIsMapped(st: St, n: nat)
    requires n < |st.inodes|
    ensures Dense(st, n) <==> BlocksMapped(st, n)
  {}

  class Loader {
    const disk: Disk
    const inodes: seq<Inode>
    var blockBuf: Block
    var indirectBuf: Block

    constructor (disk: Disk, inodes: seq<Inode>)
      ensures this.disk == disk && this.inodes == inodes
    {
      this.disk, this.inodes := disk, inodes;
      blockBuf, indirectBuf := ZeroBlock(), ZeroBlock();
    }

    function S(): St { St(disk, inodes) }

    /** read_block: two 512-byte sectors, their number computed in 32 bits. */
    method ReadBlock(blockno: nat) returns (ok: bool, blk: Block)
      ensures ok <==> blockno % TWO31 < |disk|
      ensures ok ==> blk == disk[blockno % TWO31]
    {
      var sector := blockno * 2 % TWO32;
      if sector / 2 >= |disk| { return false, ZeroBlock(); }
      return true, disk[sector / 2];
    }

    /** bmap. It agrees with the kernel's map on every mapped block; on a hole it agrees exactly when the
        words it reads from block 0 in place of an absent table are zero. */
    method Bmap(n: nat, bn: nat) returns (r: int)
      requires n < |inodes| && bn < MAXFILE
      modifies this`indirectBuf
      ensures 0 < |disk| <= TWO31 && InRange(S(), n) ==>
                inodes[n].addrs[NDIRECT + 1] < |disk|
                && (r == At(S(), Ref(n, DataSlot(bn))) <==> HoleSeen(disk, inodes[n], bn))
                && (At(S(), Ref(n, DataSlot(bn))) != 0 ==> HoleSeen(disk, inodes[n], bn))
    {
      hide Word, InRange, ZeroBlock;
      ghost var st := S();
      Ranges(st, n, bn);
      if bn < NDIRECT { return AsInt(inodes[n].addrs[bn]); }
      var k := bn - NDIRECT;
      if k < NINDIRECT {
        var ok, blk := ReadBlock(inodes[n].addrs[NDIRECT]);
        if !ok { return -1; }
        indirectBuf := blk;
        WordBound(indirectBuf, k);
        return AsInt(Word(indirectBuf, k));
      }
      k := k - NINDIRECT;
      var ok, blk := ReadBlock(inodes[n].addrs[NDIRECT + 1]);
      if !ok { return -1; }
      indirectBuf := blk;
      ok, blk := ReadBlock(Word(indirectBuf, k / NINDIRECT));
      if !ok { return -1; }
      indirectBuf := blk;
      WordBound(indirectBuf, k % NINDIRECT);
      return AsInt(Word(indirectBuf, k % NINDIRECT));
    }

    /** fs_read_file, from the inode on: the whole file when every block below the size is mapped and the
        buffer is large enough; where holes are seen as holes it fails in every other case. */
    method ReadFile(n: nat, maxSize: nat) returns (r: int, dst: seq<Byte>)
      requires n < |inodes| && inodes[n].size <= MAXBYTES
      modifies this
      ensures inodes[n].size > maxSize ==> r == -1
      ensures r == -1 || r == |dst| == inodes[n].size
      ensures 0 < |disk| <= TWO31 && InRange(S(), n) && inodes[n].size <= maxSize && BlocksMapped(S(), n) ==>
                r != -1 && dst == Content(S(), n)
      ensures 0 < |disk| <= TWO31 && InRange(S(), n) && inodes[n].addrs[NDIRECT + 1] < |disk| && HolesSeen(S(), n) ==>
                (r == -1 <==> inodes[n].size > maxSize || !BlocksMapped(S(), n))
    {
      hide At, InRange, HoleSeen, DataSlot, FileByte;
      var size := inodes[n].size;
      dst := [];
      if size > maxSize { return -1, []; }
      ghost var st := S();
      var off := 0;
      while off < size
        invariant off == |dst| <= size && S() == st
        invariant off == size || off % BSIZE == 0
        invariant 0 < |disk| <= TWO31 && InRange(st, n) && inodes[n].addrs[NDIRECT + 1] < |disk| && HolesSeen(st, n) ==>
                    forall b: nat :: b * BSIZE < off ==> b < MAXFILE && At(st, Ref(n, DataSlot(b))) != 0
        invariant 0 < |disk| <= TWO31 && InRange(st, n) && BlocksMapped(st, n) ==>
                    forall k :: 0 <= k < off ==> dst[k] == FileByte(st, n, k)
      {
        var bn := off / BSIZE;
        var blockno := Bmap(n, bn);
        Ranges(st, n, bn);
        if blockno <= 0 { return -1, dst; }
        var ok, blk := ReadBlock(blockno);
        if !ok { return -1, dst; }
        blockBuf := blk;
        var boff := off % BSIZE;
        var chunk := BSIZE - boff;
        if off + chunk > size { chunk := size - off; }
        BytesOf(st, n, bn, off, chunk, blk);
        dst := dst + blockBuf[boff..boff + chunk];
        off := off + chunk;
      }
      r := size;
    }
  }

  lemma Ranges(st: St, n: nat, bn: nat)
    requires n < |st.inodes| && bn < MAXFILE
    ensures InRange(st, n) ==> At(st, Ref(n, DataSlot(bn))) < |st.disk|
    ensures InRange(st, n) ==> st.inodes[n].addrs[NDIRECT] < |st.disk| && st.inodes[n].addrs[NDIRECT + 1] < |st.disk|
    ensures InRange(st, n) && bn >= NDIRECT + NINDIRECT ==> Entry(st.disk, st.inodes[n].addrs[NDIRECT + 1], (bn - NDIRECT - NINDIRECT) / NINDIRECT) < |st.disk|
  {
    if InRange(st, n) {
      assert At(st, Ref(n, Ind)) < |st.disk| && At(st, Ref(n, Dind)) < |st.disk|;
      if bn >= NDIRECT + NINDIRECT { assert At(st, Ref(n, Mid((bn - NDIRECT - NINDIRECT) / NINDIRECT))) < |st.disk|; }
    }
  }

  lemma BytesOf(st: St, n: nat, bn: nat, off: nat, chunk: nat, blk: Block)
    requires n < |st.inodes| && bn < MAXFILE && off % BSIZE + chunk <= BSIZE && bn == off / BSIZE
    ensures 0 < At(st, Ref(n, DataSlot(bn))) < |st.disk| && blk == st.disk[At(st, Ref(n, DataSlot(bn)))] ==>
              forall k: nat :: off <= k < off + chunk ==> FileByte(st, n, k) == blk[off % BSIZE..off % BSIZE + chunk][k - off]
  {}

  // ---------- Building an image and reading it ----------

  /** One call of iappend. */
  datatype Piece = Piece(n: nat, data: seq<Byte>)

  const ROOTINO: nat := 1

  /** What a run of appends puts into file n. */
  function Of(script: seq<Piece>, n: nat): seq<Byte> {
    if script == [] then []
    else
      var last := script[|script| - 1];
      Of(script[..|script| - 1], n) + (if last.n == n then last.data else [])
  }

  ghost predicate AllDense(st: St) { forall n: nat :: n < |st.inodes| ==> Dense(st, n) }

  /** Past the end of a file, its last block holds zeros. */
  ghost predicate ZeroTails(st: St) {
    forall n: nat, k: nat :: n < |st.inodes| && k >= st.inodes[n].size ==> FileByte(st, n, k) == 0
  }

  /** Every file holds what it held in st0 followed by what the script gives it. */
  ghost predicate Holds(st0: St, st: St, script: seq<Piece>) {
    && |st.inodes| == |st0.inodes| && AllDense(st)
    && (forall n: nat :: n < |st.inodes| ==> Content(st, n) == Content(st0, n) + Of(script, n))
    && (ZeroTails(st0) ==> ZeroTails(st))
  }

  /** Appending to one file extends its content and leaves the others and the zero tails alone. */
  lemma AppendHolds(st0: St, st: St, st': St, script: seq<Piece>, p: Piece)
    requires Holds(st0, st, script) && p.n < |st.inodes| == |st'.inodes|
    requires Written(st, st', p.n, st.inodes[p.n].size, p.data) && KeepsMapped(st, st') && Dense(st', p.n)
    requires st'.inodes[p.n].size == st.inodes[p.n].size + |p.data|
    requires forall m: nat :: m < |st.inodes| && m != p.n ==> st'.inodes[m].size == st.inodes[m].size
    ensures Holds(st0, st', script + [p])
  {
    hide FileByte, Dense, KeepsMapped;
    assert (script + [p])[..|script|] == script;
    forall n: nat | n < |st'.inodes| ensures Dense(st', n) && Content(st', n) == Content(st0, n) + Of(script + [p], n) {
      if n != p.n { DenseKept(st, st', n); }
      assert Content(st', n) == Content(st, n) + if n == p.n then p.data else [];
    }
  }

  lemma HoldsStart(st: St)
    requires AllDense(st)
    ensures Holds(st, st, [])
  {}

  lemma HoldsParts(st0: St, st: St, script: seq<Piece>, n: nat)
    requires Holds(st0, st, script) && n < |st0.inodes|
    ensures |st.inodes| == |st0.inodes| && Dense(st, n) && st.inodes[n].size == st0.inodes[n].size + |Of(script, n)|
  {}

  /** How long a script makes each of so many files. */
  function Lengths(script: seq<Piece>, files: nat): seq<nat> { seq(files, n requires 0 <= n => |Of(script, n)|) }

  /** The same for a blank image: inodes that exist, no file too large, blocks enough. */
  ghost predicate ScriptFits(script: seq<Piece>, files: nat, first: nat, size: nat) {
    && (forall i :: 0 <= i < |script| ==> script[i].n < files)
    && (forall n: nat :: n < files ==> |Of(script, n)| <= MAXBYTES)
    && first + SumNeeds(Lengths(script, files)) <= size
  }

  ghost predicate AllSnug(st: St) { forall n: nat :: n < |st.inodes| ==> Snug(st, n, FirstFree(st.inodes[n].size)) }

  /** Sizes of the files once the script is through. */
  ghost function SizesWith(st: St, script: seq<Piece>): seq<nat> {
    seq(|st.inodes|, n requires 0 <= n < |st.inodes| => st.inodes[n].size + |Of(script, n)|)
  }

  /** Every piece goes to an inode that exists, no file gets too large, and the blocks left are enough. */
  ghost predicate Fits(st: St, script: seq<Piece>, first: nat, size: nat) {
    && (forall i :: 0 <= i < |script| ==> script[i].n < |st.inodes|)
    && (forall n :: 0 <= n < |st.inodes| ==> SizesWith(st, script)[n] <= MAXBYTES)
    && first + SumNeeds(SizesWith(st, script)) <= size + SumNeeds(SizesWith(st, []))
  }

  /** Appends pieces to the files of an image, in any order. It succeeds exactly if everything fits, and
      takes exactly the blocks the files need. */
  method Build(img: Image, script: seq<Piece>) returns (ok: bool)
    requires img.Valid() && AllDense(img.V()) && AllSnug(img.V())
    modifies img
    ensures ok <==> Fits(old(img.V()), script, old(img.freeblock), img.g.size)
    ensures ok ==> img.Valid() && Holds(old(img.V()), img.V(), script)
    ensures ok ==> img.freeblock + SumNeeds(SizesWith(old(img.V()), [])) == old(img.freeblock) + SumNeeds(SizesWith(old(img.V()), script))
  {
    hide Dense, AllDense, Holds, Written, KeepsMapped, Of, AllSnug, Snug, Counted, Fits, SizesWith, SumNeeds;
    ghost var st0, f0 := img.V(), img.freeblock;
    HoldsStart(st0);
    var i := 0;
    while i < |script|
      invariant i <= |script| && img.Valid() && Holds(st0, img.V(), script[..i]) && |img.inodes| == |st0.inodes| && AllSnug(img.V())
      invariant forall j :: 0 <= j < i ==> script[j].n < |st0.inodes|
      invariant img.freeblock + SumNeeds(SizesWith(st0, [])) == f0 + SumNeeds(SizesWith(st0, script[..i]))
    {
      ghost var st, n, f := img.V(), script[i].n, img.freeblock;
      if script[i].n >= |img.inodes| {
        NoInode(st0, script, f0, img.g.size, i);
        return false;
      }
      HoldsParts(st0, st, script[..i], n);
      OfStep(script, i, n);
      SnugAt(st, n);
      SizesStep(st0, st, script, i);
      ok := img.Append(script[i].n, script[i].data);
      if !ok {
        DoesNotFit(st0, script, f0, img.g.size, i, f, st.inodes[n].size);
        return;
      }
      AppendHolds(st0, st, img.V(), script[..i], script[i]);
      AppendSnug(st, img.V(), n, st.inodes[n].size, |script[i].data|, f, img.freeblock);
      assert script[..i] + [script[i]] == script[..i + 1];
      i := i + 1;
    }
    assert script[..i] == script;
    HoldsFits(st0, img.V(), script, f0, img.freeblock, img.g.size);
    ok := true;
  }

  lemma SnugAt(st: St, n: nat)
    requires AllSnug(st) && n < |st.inodes|
    ensures Snug(st, n, FirstFree(st.inodes[n].size))
  {}

  lemma AppendSnug(st: St, st': St, n: nat, size: nat, more: nat, f: nat, f': nat)
    requires AllSnug(st) && n < |st.inodes| == |st'.inodes| && size == st.inodes[n].size && Counted(st, st', n, size, size + more, f, f')
    requires st'.inodes[n].size == size + more && forall m: nat :: m < |st.inodes| && m != n ==> st'.inodes[m].size == st.inodes[m].size
    ensures AllSnug(st') && f' + Needs(FirstFree(size)) == f + Needs(FirstFree(size + more))
  { hide Snug, Needs; }

  /** One more piece changes one size. */
  lemma SizesStep(st0: St, st: St, script: seq<Piece>, i: nat)
    requires i < |script| && script[i].n < |st0.inodes| && Holds(st0, st, script[..i])
    ensures var n, a := script[i].n, SizesWith(st0, script[..i]);
            && |a| == |st0.inodes| == |st.inodes| && a[n] == st.inodes[n].size
            && SumNeeds(SizesWith(st0, script[..i + 1])) + Needs(FirstFree(a[n])) == SumNeeds(a) + Needs(FirstFree(a[n] + |script[i].data|))
  {
    hide Of, SumNeeds, Holds, Needs;
    var n, a := script[i].n, SizesWith(st0, script[..i]);
    HoldsParts(st0, st, script[..i], n);
    var b := SizesWith(st0, script[..i + 1]);
    forall m | 0 <= m < |b| ensures b[m] == if m == n then a[n] + |script[i].data| else a[m] { OfStep(script, i, m); }
    assert b == a[n := a[n] + |script[i].data|];
    SumUpdate(a, n, a[n] + |script[i].data|);
  }

  lemma {:induction false} OfGrows(script: seq<Piece>, i: nat, n: nat)
    requires i <= |script|
    ensures |Of(script[..i], n)| <= |Of(script, n)|
    decreases |script| - i
  {
    if i == |script| {
      assert script[..i] == script;
    } else {
      OfStep(script, i, n);
      OfGrows(script, i + 1, n);
    }
  }

  lemma NoInode(st0: St, script: seq<Piece>, f0: nat, size: nat, i: nat)
    requires i < |script| && script[i].n >= |st0.inodes|
    ensures !Fits(st0, script, f0, size)
  {}

  /** When a piece does not fit after those before it, the script does not. */
  lemma DoesNotFit(st0: St, script: seq<Piece>, f0: nat, gsize: nat, i: nat, f: nat, size: nat)
    requires i < |script| && script[i].n < |st0.inodes| && size == st0.inodes[script[i].n].size + |Of(script[..i], script[i].n)|
    requires f + SumNeeds(SizesWith(st0, [])) == f0 + SumNeeds(SizesWith(st0, script[..i]))
    requires SumNeeds(SizesWith(st0, script[..i + 1])) + Needs(FirstFree(size)) == SumNeeds(SizesWith(st0, script[..i])) + Needs(FirstFree(size + |script[i].data|))
    requires !(size + |script[i].data| <= MAXBYTES && f + Needs(FirstFree(size + |script[i].data|)) <= gsize + Needs(FirstFree(size)))
    ensures !Fits(st0, script, f0, gsize)
  {
    hide Of, SumNeeds, Needs;
    var n := script[i].n;
    OfStep(script, i, n);
    OfGrows(script, i + 1, n);
    if Fits(st0, script, f0, gsize) {
      assert SizesWith(st0, script)[n] <= MAXBYTES;
      forall m | 0 <= m < |st0.inodes| ensures SizesWith(st0, script[..i + 1])[m] <= SizesWith(st0, script)[m] { OfGrows(script, i + 1, m); }
      SumMono(SizesWith(st0, script[..i + 1]), SizesWith(st0, script));
    }
  }

  lemma HoldsFits(st0: St, st: St, script: seq<Piece>, f0: nat, f: nat, gsize: nat)
    requires Holds(st0, st, script) && (forall i :: 0 <= i < |script| ==> script[i].n < |st0.inodes|) && f <= gsize
    requires f + SumNeeds(SizesWith(st0, [])) == f0 + SumNeeds(SizesWith(st0, script))
    ensures Fits(st0, script, f0, gsize)
  {
    hide Of, SumNeeds, Dense;
    forall n | 0 <= n < |st0.inodes| ensures SizesWith(st0, script)[n] <= MAXBYTES {
      HoldsParts(st0, st, script, n);
      DenseSmall(st, n);
    }
  }

  lemma OfStep(script: seq<Piece>, i: nat, n: nat)
    requires i < |script|
    ensures Of(script[..i + 1], n) == Of(script[..i], n) + (if script[i].n == n then script[i].data else [])
  { assert script[..i + 1][..i] == script[..i]; }

  /** What a finished image holds: the kernel's block invariant, a blank boot block, every file without
      holes and exactly as appended, but the root directory rounded up to a block and followed by zeros. */
  ghost predicate Packed(g: Geometry, st: St, script: seq<Piece>) {
    && Inv(g, st) && 0 < |st.disk| && st.disk[0] == ZeroBlock() && ROOTINO < |st.inodes|
    && (forall n: nat :: n < |st.inodes| && n != ROOTINO ==> Dense(st, n) && Content(st, n) == Of(script, n))
    && st.inodes[ROOTINO].size == Rounded(|Of(script, ROOTINO)|)
    && Covered(st, ROOTINO, 0, |Of(script, ROOTINO)|)
    && Content(st, ROOTINO) == Of(script, ROOTINO) + seq(Rounded(|Of(script, ROOTINO)|) - |Of(script, ROOTINO)|, _ => 0)
  }

  /** main: a blank image, the appends, the rounded root directory and the bitmap. It succeeds exactly if
      everything fits: the metadata, and every file with its block-map tables. */
  method MakeImage(g: Geometry, ninodes: nat, script: seq<Piece>) returns (ok: bool, img: Image)
    requires GeoOk(g) && g.size <= MAXIMAGE
    ensures fresh(img) && img.g == g && (ok ==> |img.inodes| == ninodes && Packed(g, img.S(), script))
    ensures ok <==> ROOTINO < ninodes && ScriptFits(script, ninodes, g.datastart, g.size)
  {
    hide AllDense, Holds, Inv, KeepsMapped, SameBytes, Packed, ZeroTails, AllSnug, Fits, ScriptFits;
    img := new Image(g, ninodes);
    ok := false;
    if ROOTINO >= ninodes { return; }
    ghost var st0 := img.V();
    BlankDense(st0);
    BlankSnug(st0);
    BlankFits(st0, script, g.datastart, g.size);
    ok := Build(img, script);
    if !ok { return; }
    ghost var st1 := img.V();
    HoldsParts(st0, st1, script, ROOTINO);
    img.RoundSize(ROOTINO);
    ghost var st2 := img.V();
    img.WriteBitmap();
    PackedAfter(g, st0, st1, st2, img.S(), script);
  }

  lemma BlankSnug(st: St)
    requires st.inodes == BlankInodes(|st.inodes|)
    ensures AllSnug(st)
  {}

  lemma BlankFits(st: St, script: seq<Piece>, first: nat, size: nat)
    requires st.inodes == BlankInodes(|st.inodes|)
    ensures Fits(st, script, first, size) <==> ScriptFits(script, |st.inodes|, first, size)
  {
    hide Of, SumNeeds;
    forall n: nat ensures Of([], n) == [] { NothingYet(n); }
    SumZero(SizesWith(st, []));
    assert SizesWith(st, script) == Lengths(script, |st.inodes|);
    assert SumNeeds(SizesWith(st, [])) == 0;
    forall n: nat | n < |st.inodes| ensures SizesWith(st, script)[n] == |Of(script, n)| {}
    var small := forall n: nat :: n < |st.inodes| ==> |Of(script, n)| <= MAXBYTES;
    if small {
      forall n | 0 <= n < |st.inodes| ensures SizesWith(st, script)[n] <= MAXBYTES { assert |Of(script, n)| <= MAXBYTES; }
    } else {
      var n: nat :| n < |st.inodes| && |Of(script, n)| > MAXBYTES;
      assert SizesWith(st, script)[n] > MAXBYTES;
    }
  }

  lemma NothingYet(n: nat)
    ensures Of([], n) == []
  {}

  lemma BlankDense(st: St)
    requires st.inodes == BlankInodes(|st.inodes|)
    ensures AllDense(st) && ZeroTails(st) && forall n: nat :: n < |st.inodes| ==> Content(st, n) == []
  {}

  lemma PackedAfter(g: Geometry, st0: St, st1: St, st2: St, st: St, script: seq<Piece>)
    requires Holds(st0, st1, script) && ZeroTails(st0) && ROOTINO < |st0.inodes| && forall n: nat :: n < |st0.inodes| ==> Content(st0, n) == []
    requires KeepsMapped(st1, st2) && SameBytes(st1, st2) && KeepsMapped(st2, st) && SameBytes(st2, st) && st.inodes == st2.inodes
    requires st2.inodes == st1.inodes[ROOTINO := st1.inodes[ROOTINO].(size := Rounded(st1.inodes[ROOTINO].size))]
    requires Inv(g, st) && 0 < |st.disk| && st.disk[0] == ZeroBlock()
    ensures Packed(g, st, script)
  {
    hide Inv, FileByte, KeepsMapped, Covered, Of;
    KeepsTrans(st1, st2, st);
    assert SameBytes(st1, st);
    forall n: nat | n < |st.inodes| && n != ROOTINO ensures Dense(st, n) && Content(st, n) == Of(script, n) {
      HoldsParts(st0, st1, script, n);
      DenseKept(st1, st, n);
      SameContent(st1, st, n);
    }
    HoldsParts(st0, st1, script, ROOTINO);
    var want := Of(script, ROOTINO) + seq(Rounded(|Of(script, ROOTINO)|) - |Of(script, ROOTINO)|, _ => 0);
    assert Content(st1, ROOTINO) == Of(script, ROOTINO);
    CoveredKept(st1, st, ROOTINO, 0, |Of(script, ROOTINO)|);
    forall k | 0 <= k < |want| ensures Content(st, ROOTINO)[k] == want[k] {
      assert FileByte(st, ROOTINO, k) == FileByte(st1, ROOTINO, k);
      if k < |Of(script, ROOTINO)| { assert Content(st1, ROOTINO)[k] == Of(script, ROOTINO)[k]; }
    }
  }

  /** Every file of the image has an admissible size unless the root directory filled the largest file. */
  lemma PackedSizes(g: Geometry, st: St, script: seq<Piece>)
    requires Packed(g, st, script)
    ensures SizesOk(st) <==> |Of(script, ROOTINO)| < MAXBYTES
  {
    hide Inv, Covered, Of, Content;
    forall n: nat | n < |st.inodes| && n != ROOTINO ensures st.inodes[n].size <= MAXBYTES { DenseSmall(st, n); }
    assert Rounded(|Of(script, ROOTINO)|) <= MAXBYTES <==> |Of(script, ROOTINO)| < MAXBYTES;
  }

  /** The root directory with zeros up to the end of a block, or as appended if it ends on one. */
  ghost predicate RootRead(data: seq<Byte>, root: seq<Byte>) {
    data == root + seq(Rounded(|root|) - |root|, _ => 0) || (|root| % BSIZE == 0 && data == root)
  }

  /** Bytes appended to the files of an image in any order and any chunks are read back unchanged, from
      every file, by the boot loader and by the kernel. A builder run that reports success is the only
      condition. The root directory, which the loader does not read as a file, comes back from the
      kernel with zeros up to a block boundary, cut short at its own end only if that is one. */
  method PackAndRead(g: Geometry, ninodes: nat, script: seq<Piece>) returns (ok: bool, boot: seq<seq<Byte>>, kernel: seq<seq<Byte>>)
    requires GeoOk(g) && g.size <= MAXIMAGE
    ensures ok <==> ROOTINO < ninodes && ScriptFits(script, ninodes, g.datastart, g.size)
    ensures ok ==> |boot| == |kernel| == ninodes
    ensures ok ==> forall n: nat :: n < ninodes && n != ROOTINO ==> boot[n] == kernel[n] == Of(script, n)
    ensures ok ==> RootRead(kernel[ROOTINO], Of(script, ROOTINO))
  {
    hide Inv, Packed, InRange, BlocksMapped, Grown, Of, ScriptFits, FileByte, Content, At, Word, Starved;
    boot, kernel := [], [];
    var img;
    ok, img := MakeImage(g, ninodes, script);
    if !ok { return; }
    ghost var st := img.S();
    PackedParts(g, st, script);
    var loader := new Loader(img.disk, img.inodes);
    var fs := new FileSystem(g, img.disk, img.inodes);
    GrownRefl(g, st);
    var n := 0;
    while n < ninodes
      invariant n <= ninodes && |boot| == |kernel| == n && loader.S() == st && fs.g == g && Grown(g, st, fs.S())
      invariant forall m: nat :: m < n && m != ROOTINO ==> boot[m] == kernel[m] == Of(script, m)
      invariant n > ROOTINO ==> RootRead(kernel[ROOTINO], Of(script, ROOTINO))
    {
      ghost var s1 := fs.S();
      GrownParts(g, st, s1, n);
      PackedSmall(g, st, script, n);
      var size, data := 0, [];
      if n != ROOTINO { size, data := loader.ReadFile(n, loader.inodes[n].size); }
      boot := boot + [data];
      data := fs.Readi(n, 0, loader.inodes[n].size);
      GrownTrans(g, st, s1, fs.S());
      ReadsFile(g, st, s1, fs.S(), script, n, data);
      kernel := kernel + [data];
      n := n + 1;
    }
  }

  lemma PackedParts(g: Geometry, st: St, script: seq<Piece>)
    requires Packed(g, st, script)
    ensures Inv(g, st) && ROOTINO < |st.inodes| && DiskOk(g, st.disk)
  {}

  lemma PackedSmall(g: Geometry, st: St, script: seq<Piece>, n: nat)
    requires Packed(g, st, script) && n < |st.inodes|
    ensures InRange(st, n) && st.inodes[n].size < TWO32 - BSIZE
    ensures n != ROOTINO ==> st.inodes[n].size <= MAXBYTES && BlocksMapped(st, n) && Content(st, n) == Of(script, n)
  {
    hide Inv, InRange, BlocksMapped, Of, Content;
    InvInRange(g, st, n);
    if n == ROOTINO {
      CoveredSmall(st, n, |Of(script, n)|);
    } else {
      hide Covered;
      DenseSmall(st, n);
      DenseIsMapped(st, n);
    }
  }

  /** The kernel's read of one whole file. */
  lemma ReadsFile(g: Geometry, st: St, s1: St, st': St, script: seq<Piece>, n: nat, data: seq<Byte>)
    requires Packed(g, st, script) && n < |st.inodes| && Grown(g, st, s1) && Grown(g, st, st') && Grown(g, s1, st') && st.inodes[n].size < TWO32 - BSIZE
    requires n < |s1.inodes| && s1.inodes[n].size == st.inodes[n].size
    requires forall i :: 0 <= i < |data| ==> data[i] == FileByte(s1, n, i)
    requires |data| <= st.inodes[n].size
    requires |data| < st.inodes[n].size ==> |data| % BSIZE == 0 && (|data| / BSIZE >= MAXFILE || Starved(g, st', n, |data| / BSIZE))
    ensures n != ROOTINO ==> data == Of(script, n)
    ensures n == ROOTINO ==> RootRead(data, Of(script, n))
  {
    hide Inv, FileByte, At, Covered, Starved, KeepsMapped, Of, SameBytes, Content;
    GrownKeeps(g, st, st');
    GrownParts(g, st, s1, n);
    forall i | 0 <= i < |data| ensures data[i] == FileByte(st, n, i) { SameByte(st, s1, n, i); }
    if n != ROOTINO {
      assert Dense(st, n);
      if |data| < st.inodes[n].size { CoveredReads(g, st, st', n, 0, st.inodes[n].size, |data|); }
    } else {
      if |data| < |Of(script, n)| { CoveredReads(g, st, st', n, 0, |Of(script, n)|, |data|); }
    }
    Prefix(st, n, data);
  }

  lemma Prefix(st: St, n: nat, data: seq<Byte>)
    requires n < |st.inodes| && |data| <= st.inodes[n].size && forall i :: 0 <= i < |data| ==> data[i] == FileByte(st, n, i)
    ensures |Content(st, n)| == st.inodes[n].size && data == Content(st, n)[..|data|]
  {}

  lemma CoveredSmall(st: St, n: nat, size: nat)
    requires n < |st.inodes| && Covered(st, n, 0, size)
    ensures size <= MAXBYTES
  {
    hide At, DataSlot;
    if size > 0 { assert (size - 1) / BSIZE * BSIZE < size; }
  }
}
