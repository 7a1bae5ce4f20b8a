/** fs_itrunc and fs_itrunc_to: what a truncation to a length gives back and what it keeps. */
module FsCut {
  import opened Arith
  import opened FsDisk
  import opened FsInv
  import opened Fs
  import opened FsTrunc

  const NSINGLE: nat := 267  // NDIRECT + NINDIRECT

  /** Number of blocks that hold the first len bytes. */
  function FirstFree(len: nat): nat { (len + BSIZE - 1) / BSIZE }

  function IndStart(first: nat): (k: nat)
    ensures k <= NINDIRECT
  { if first <= NDIRECT then 0 else Min(first - NDIRECT, NINDIRECT) }

  function DindStart(first: nat): nat { if first <= NSINGLE then 0 else first - NSINGLE }

  ghost function DindPart(st: St, n: nat, first: nat): set<Slot>
    requires n < |st.inodes|
  { if first < MAXFILE then DindFrom(st, n, DindStart(first)) else {} }

  /** The slots a truncation to `first` blocks unmaps. */
  ghost function CutSlots(st: St, n: nat, first: nat): set<Slot>
    requires n < |st.inodes|
  { DirectFrom(first) + IndFrom(IndStart(first)) + DindPart(st, n, first) }

  ghost predicate Stale(st: St, n: nat, first: nat)
    requires n < |st.inodes|
  { first < MAXFILE && StaleTop(st, n, DindStart(first)) }

  /** st' is st with inode n cut to len bytes: exactly the cut slots are unmapped and exactly their
      blocks given back, the first len bytes and every other file stay. */
  ghost predicate Cut(g: Geometry, st: St, st': St, n: nat, len: nat) {
    && Inv(g, st) && Inv(g, st') && n < |st.inodes| == |st'.inodes|
    && (forall m: nat :: m < |st.inodes| ==> st'.inodes[m].size == if m == n then len else st.inodes[m].size)
    && (forall r :: RefOk(st, r) ==> RefOk(st', r) && At(st', r) == if r.n == n && r.s in CutSlots(st, n, FirstFree(len)) then 0 else At(st, r))
    && BitsLost(g, st.disk, st'.disk, Freed(st, n, CutSlots(st, n, FirstFree(len))))
    && (forall m: nat, k: nat :: m < |st.inodes| && (m != n || k < len) ==> FileByte(st', m, k) == FileByte(st, m, k))
  }

  // ---------- What is cut ----------

  /** The data blocks cut are those at or past the end. */
  lemma CutData(st: St, n: nat, first: nat, bn: nat)
    requires n < |st.inodes| && bn < MAXFILE
    ensures DataSlot(bn) in CutSlots(st, n, first) <==> bn >= first
  {
    hide MidGone, DindGone, SomeKept, At;
    DindGoneIs(st, n, DindStart(first), NINDIRECT, DataSlot(bn));
    if bn >= NSINGLE {
      var k := bn - NSINGLE;
      assert NINDIRECT * (k / NINDIRECT) + k % NINDIRECT == k;
    }
  }

  /** A cut second-level table held no block before the end, and one past the end is always cut. */
  lemma CutTable(st: St, n: nat, first: nat, m: nat)
    requires n < |st.inodes| && m < NINDIRECT && first < MAXFILE
    ensures Mid(m) in CutSlots(st, n, first) ==>
              forall bn: nat :: NSINGLE + NINDIRECT * m <= bn < NSINGLE + NINDIRECT * (m + 1) && bn < MAXFILE && bn < first ==>
                At(st, Ref(n, DataSlot(bn))) == 0
    ensures first <= NSINGLE + NINDIRECT * m ==> Mid(m) in CutSlots(st, n, first)
  {
    hide At, DindGone, SomeKept;
    DindGoneIs(st, n, DindStart(first), NINDIRECT, Mid(m));
    forall bn: nat | Mid(m) in CutSlots(st, n, first) && NSINGLE + NINDIRECT * m <= bn < NSINGLE + NINDIRECT * (m + 1) && bn < MAXFILE && bn < first
      ensures At(st, Ref(n, DataSlot(bn))) == 0
    {
      var k := bn - NSINGLE;
      assert k / NINDIRECT == m && NINDIRECT * m + k % NINDIRECT == k;
      assert DataSlot(bn) == DindEntry(m, k % NINDIRECT);
      assert Before(DindStart(first), m, k % NINDIRECT);
    }
  }

  /** Up to the single-indirect limit every double-indirect slot is cut, and nothing stale is left. */
  lemma ShortCut(st: St, n: nat, first: nat)
    requires n < |st.inodes| && first <= NSINGLE
    ensures !Stale(st, n, first)
    ensures forall s :: SlotOk(s) && (s.Dind? || s.Mid? || s.DindEntry?) ==> s in CutSlots(st, n, first)
    ensures Ind in CutSlots(st, n, first) <==> first <= NDIRECT
  {
    hide At, DindGone;
    assert forall m: nat :: m < NINDIRECT ==> MidGone(st, n, 0, m);
    forall s | SlotOk(s) && (s.Dind? || s.Mid? || s.DindEntry?) ensures s in CutSlots(st, n, first) {
      DindGoneIs(st, n, 0, NINDIRECT, s);
    }
    DindGoneIs(st, n, 0, NINDIRECT, Ind);
  }

  /** fs_itrunc's cut is everything. */
  lemma CutEverything(st: St, n: nat, s: Slot)
    requires n < |st.inodes| && SlotOk(s)
    ensures s in CutSlots(st, n, 0)
  {
    hide DindGone, At, MidGone, SomeKept;
    ShortCut(st, n, 0);
  }

  /** A file without holes and with nothing mapped past its end, not even an empty table. */
  ghost predicate Tight(st: St, n: nat)
    requires n < |st.inodes|
  {
    Dense(st, n) && forall m: nat :: m < NINDIRECT && (NSINGLE + NINDIRECT * m) * BSIZE >= st.inodes[n].size ==> At(st, Ref(n, Mid(m))) == 0
  }

  /** A file without holes meets the stale case whenever the cut keeps a double-indirect block and the
      file goes on past the end of the second-level table the cut falls in, and, with nothing mapped
      past its end, only then. */
  lemma DenseStale(st: St, n: nat, len: nat)
    requires n < |st.inodes| && Dense(st, n) && len < st.inodes[n].size
    ensures NSINGLE < FirstFree(len) && TableEnd(FirstFree(len)) * BSIZE < st.inodes[n].size ==> Stale(st, n, FirstFree(len))
    ensures Tight(st, n) ==> (Stale(st, n, FirstFree(len)) <==> NSINGLE < FirstFree(len) && TableEnd(FirstFree(len)) * BSIZE < st.inodes[n].size)
  {
    hide At, DindGone, MidGone, Dense, SomeKept;
    var first := FirstFree(len);
    if first <= NSINGLE {
      ShortCut(st, n, first);
    } else {
      var k := first - NSINGLE;
      var m1 := (k + 255) / NINDIRECT;
      KeptBefore(st, n, k);
      if TableEnd(first) * BSIZE < st.inodes[n].size {
        assert NINDIRECT * m1 / NINDIRECT == m1;
        DenseMapped(st, n, NINDIRECT * m1);
        GoneAfter(st, n, k, m1);
      } else if Tight(st, n) {
        forall m: nat | m < NINDIRECT && MidGone(st, n, k, m) ensures At(st, Ref(n, Mid(m))) == 0 {
          GoneOnlyAfter(st, n, k, m);
          MulLe(NSINGLE + NINDIRECT * m1, NSINGLE + NINDIRECT * m, BSIZE);
        }
      }
    }
  }

  /** The first file block past the second-level table that holds the last block kept. */
  function TableEnd(first: nat): nat
    requires NSINGLE < first
  { NSINGLE + NINDIRECT * ((first - NSINGLE + 255) / NINDIRECT) }

  /** The table of the last block kept stays. */
  lemma KeptBefore(st: St, n: nat, k: nat)
    requires n < |st.inodes| && Dense(st, n) && 0 < k && (NSINGLE + k - 1) * BSIZE < st.inodes[n].size
    ensures SomeKept(st, n, k, NINDIRECT)
  {
    hide At;
    DenseMapped(st, n, k - 1);
    assert Before(k, (k - 1) / NINDIRECT, (k - 1) % NINDIRECT);
    assert !MidGone(st, n, k, (k - 1) / NINDIRECT);
  }

  lemma GoneAfter(st: St, n: nat, k: nat, m: nat)
    requires n < |st.inodes| && m < NINDIRECT && m >= (k + 255) / NINDIRECT
    ensures MidGone(st, n, k, m)
  {}

  /** A table is given back only past that of the last block kept. */
  lemma GoneOnlyAfter(st: St, n: nat, k: nat, m: nat)
    requires n < |st.inodes| && Dense(st, n) && 0 < k && (NSINGLE + k - 1) * BSIZE < st.inodes[n].size && m < NINDIRECT && MidGone(st, n, k, m)
    ensures m >= (k + 255) / NINDIRECT
  {}

  /** A double-indirect block within the size of a file without holes is mapped, and so is its table. */
  lemma DenseMapped(st: St, n: nat, k: nat)
    requires n < |st.inodes| && Dense(st, n) && (NSINGLE + k) * BSIZE < st.inodes[n].size
    ensures k / NINDIRECT < NINDIRECT && At(st, Ref(n, DindEntry(k / NINDIRECT, k % NINDIRECT))) != 0
    ensures At(st, Ref(n, Mid(k / NINDIRECT))) != 0
  {}

  // ---------- The file as seen by readers ----------

  lemma CutContent(g: Geometry, st: St, st': St, n: nat, len: nat, m: nat)
    requires Cut(g, st, st', n, len) && m < |st.inodes| && len <= st.inodes[n].size
    ensures Content(st', m) == if m == n then Content(st, n)[..len] else Content(st, m)
  { hide FileByte, At, Bit, Inv, BitsLost; }

  /** A block given back by the cut belongs to no file any more. */
  lemma CutUnreferenced(g: Geometry, st: St, st': St, n: nat, len: nat, b: nat)
    requires Cut(g, st, st', n, len) && b in Freed(st, n, CutSlots(st, n, FirstFree(len)))
    ensures b < g.size && DiskOk(g, st'.disk) && !Bit(g, st'.disk, b) && Unreferenced(st', b)
  {
    hide At, Bit, CutSlots, FileByte;
    MetaApart(g, st, n, CutSlots(st, n, FirstFree(len)));
  }

  // ---------- Steps ----------

  /** The first bytes of n and all of the other files survive an unmapping of cut slots. */
  ghost predicate KeepsBytes(st: St, st': St, n: nat, len: nat) {
    && |st'.inodes| == |st.inodes|
    && forall m: nat, k: nat :: m < |st.inodes| && (m != n || k < len) ==> FileByte(st', m, k) == FileByte(st, m, k)
  }

  lemma DroppedBytes(g: Geometry, st: St, st': St, n: nat, gone: set<Slot>, len: nat)
    requires Dropped(g, st, st', n, gone)
    requires forall bn: nat :: bn < MAXFILE && bn < FirstFree(len) ==> DataSlot(bn) !in gone
    ensures KeepsBytes(st, st', n, len)
  {}

  lemma KeepsTrans3(a: St, b: St, c: St, d: St, n: nat, len: nat)
    requires KeepsBytes(a, b, n, len) && KeepsBytes(b, c, n, len) && KeepsBytes(c, d, n, len)
    ensures KeepsBytes(a, d, n, len)
  {}

  /** The double-indirect decisions depend on the addresses of the double-indirect slots only. */
  lemma SameDind(st: St, st': St, n: nat, start: nat)
    requires n < |st.inodes| == |st'.inodes|
    requires forall s :: SlotOk(s) && (s.Mid? || s.DindEntry?) ==> At(st', Ref(n, s)) == At(st, Ref(n, s))
    ensures StaleTop(st', n, start) <==> StaleTop(st, n, start)
    ensures DindFrom(st', n, start) == DindFrom(st, n, start)
  {
    hide At, DindGone;
    assert forall m: nat :: m < NINDIRECT ==> (MidGone(st', n, start, m) <==> MidGone(st, n, start, m));
    SameGone(st, st', n, start, NINDIRECT);
  }

  lemma {:induction false} SameGone(st: St, st': St, n: nat, start: nat, hi: nat)
    requires n < |st.inodes| == |st'.inodes| && hi <= NINDIRECT
    requires forall m: nat :: m < NINDIRECT ==> (MidGone(st', n, start, m) <==> MidGone(st, n, start, m))
    ensures DindGone(st', n, start, hi) == DindGone(st, n, start, hi)
    decreases hi
  {
    hide MidGone, At;
    if hi > 0 { SameGone(st, st', n, start, hi - 1); }
  }

  /** Zeroing the tail of the last kept block. */
  lemma ZeroTail(g: Geometry, st: St, n: nat, len: nat)
    requires Inv(g, st) && n < |st.inodes| && 0 < len && (len - 1) / BSIZE < MAXFILE
    requires At(st, Ref(n, DataSlot((len - 1) / BSIZE))) != 0 && len % BSIZE != 0
    ensures At(st, Ref(n, DataSlot((len - 1) / BSIZE))) < |st.disk|
    ensures var a := At(st, Ref(n, DataSlot((len - 1) / BSIZE)));
            var st' := st.(disk := st.disk[a := Patch(st.disk[a], len % BSIZE, seq(BSIZE - len % BSIZE, _ => 0))]);
            && Inv(g, st') && KeepsBytes(st, st', n, len)
            && (forall r :: RefOk(st, r) ==> RefOk(st', r) && At(st', r) == At(st, r))
            && (forall c: nat :: c < g.size && DiskOk(g, st.disk) ==> (Bit(g, st'.disk, c) <==> Bit(g, st.disk, c)))
  {
    hide At, Bit, Inv, DataSlot;
    DiskLen(g, st);
    var bn := (len - 1) / BSIZE;
    AtInRange(g, st, n, bn);
    var a := At(st, Ref(n, DataSlot(bn)));
    var zeros: seq<Byte> := seq(BSIZE - len % BSIZE, _ => 0);
    var blk := Patch(st.disk[a], len % BSIZE, zeros);
    WriteKeeps(g, st, n, bn, blk);
    var st' := st.(disk := st.disk[a := blk]);
    DiskLen(g, st');
    forall k: nat | k < len ensures FileByte(st', n, k) == FileByte(st, n, k) {
      if k / BSIZE == bn { BlockByte(st, n, bn, k); PatchByte(st.disk[a], len, zeros, k); }
    }
  }

  /** Composition of the three steps after the tail was zeroed, and the change of size. */
  lemma CutDone(g: Geometry, st: St, s1: St, s2: St, s3: St, s4: St, st': St, n: nat, len: nat)
    requires Inv(g, st) && n < |st.inodes| && |s1.inodes| == |st.inodes| && SameSizes(st, s1)
    requires Inv(g, s1) && KeepsBytes(st, s1, n, len)
    requires forall r :: RefOk(st, r) ==> RefOk(s1, r) && At(s1, r) == At(st, r)
    requires forall c: nat :: c < g.size && DiskOk(g, st.disk) && DiskOk(g, s1.disk) ==> (Bit(g, s1.disk, c) <==> Bit(g, st.disk, c))
    requires Dropped(g, s1, s2, n, DirectFrom(FirstFree(len)))
    requires Dropped(g, s2, s3, n, IndFrom(IndStart(FirstFree(len))))
    requires Dropped(g, s3, s4, n, DindPart(st, n, FirstFree(len)))
    requires st'.disk == s4.disk && n < |s4.inodes| && st'.inodes == s4.inodes[n := s4.inodes[n].(size := len)]
    ensures Cut(g, st, st', n, len) && KeepsBytes(s1, st', n, FirstFree(len) * BSIZE)
  {
    hide At, Bit, Inv, DataSlot, FileByte, DirectFrom, IndFrom, DindPart, Dropped, SameSizes, KeepsBytes;
    var first := FirstFree(len);
    DroppedTrans(g, s1, s2, s3, n, DirectFrom(first), IndFrom(IndStart(first)));
    DroppedTrans(g, s1, s3, s4, n, DirectFrom(first) + IndFrom(IndStart(first)), DindPart(st, n, first));
    var gone := CutSlots(st, n, first);
    assert gone == DirectFrom(first) + IndFrom(IndStart(first)) + DindPart(st, n, first);
    forall bn: nat | bn < MAXFILE && bn < first ensures DataSlot(bn) !in gone { CutData(st, n, first, bn); }
    assert FirstFree(first * BSIZE) == first && len <= first * BSIZE;
    DroppedBytes(g, s1, s4, n, gone, first * BSIZE);
    KeepsFewer(s1, s4, n, first * BSIZE, len);
    DroppedParts(g, s3, s4, n, DindPart(st, n, first));
    SizeOnly(g, s4, st', n, len, len);
    SizeOnly(g, s4, st', n, len, first * BSIZE);
    KeepsTwice(s1, s4, st', n, first * BSIZE);
    CutFinish(g, st, s1, s4, st', n, len, gone);
  }

  lemma KeepsFewer(a: St, b: St, n: nat, more: nat, len: nat)
    requires KeepsBytes(a, b, n, more) && len <= more
    ensures KeepsBytes(a, b, n, len)
  {}

  lemma KeepsTwice(a: St, b: St, c: St, n: nat, len: nat)
    requires KeepsBytes(a, b, n, len) && KeepsBytes(b, c, n, len)
    ensures KeepsBytes(a, c, n, len)
  {}

  lemma SizeOnly(g: Geometry, s4: St, st': St, n: nat, len: nat, kept: nat)
    requires Inv(g, s4) && st'.disk == s4.disk && n < |s4.inodes| && st'.inodes == s4.inodes[n := s4.inodes[n].(size := len)]
    ensures Inv(g, st') && forall r :: RefOk(s4, r) ==> RefOk(st', r) && At(st', r) == At(s4, r)
    ensures KeepsBytes(s4, st', n, kept)
  {
    hide Entry, Bit;
    assert forall r :: RefOk(st', r) <==> RefOk(s4, r);
    assert forall r :: RefOk(s4, r) ==> At(st', r) == At(s4, r);
    forall m: nat, k: nat | m < |s4.inodes| ensures FileByte(st', m, k) == FileByte(s4, m, k) {
      if k / BSIZE < MAXFILE { assert RefOk(s4, Ref(m, DataSlot(k / BSIZE))); }
    }
  }

  lemma CutFinish(g: Geometry, st: St, s1: St, s4: St, st': St, n: nat, len: nat, gone: set<Slot>)
    requires Inv(g, st) && n < |st.inodes| && gone == CutSlots(st, n, FirstFree(len)) && Inv(g, s1)
    requires SameSizes(st, s1) && KeepsBytes(st, s1, n, len) && KeepsBytes(s1, s4, n, len) && KeepsBytes(s4, st', n, len)
    requires forall r :: RefOk(st, r) ==> RefOk(s1, r) && At(s1, r) == At(st, r)
    requires forall c: nat :: c < g.size && DiskOk(g, st.disk) && DiskOk(g, s1.disk) ==> (Bit(g, s1.disk, c) <==> Bit(g, st.disk, c))
    requires Dropped(g, s1, s4, n, gone) && Inv(g, st') && forall r :: RefOk(s4, r) ==> RefOk(st', r) && At(st', r) == At(s4, r)
    requires st'.disk == s4.disk && n < |s4.inodes| && st'.inodes == s4.inodes[n := s4.inodes[n].(size := len)]
    ensures Cut(g, st, st', n, len)
  {
    hide At, Bit, Inv, FileByte, CutSlots;
    DiskLen(g, st);
    DiskLen(g, s1);
    assert KeepsBytes(st, st', n, len) by { KeepsTrans3(st, s1, s4, st', n, len); }
    assert Freed(s1, n, gone) == Freed(st, n, gone) by {
      forall s | SlotOk(s) ensures At(s1, Ref(n, s)) == At(st, Ref(n, s)) { assert RefOk(st, Ref(n, s)); }
    }
  }

  /** The first two steps leave the double-indirect slots alone. */
  lemma DindUntouched(g: Geometry, st: St, s1: St, s2: St, s3: St, n: nat, first: nat)
    requires n < |st.inodes| && |s1.inodes| == |st.inodes|
    requires forall r :: RefOk(st, r) ==> RefOk(s1, r) && At(s1, r) == At(st, r)
    requires Dropped(g, s1, s2, n, DirectFrom(first)) && Dropped(g, s2, s3, n, IndFrom(IndStart(first)))
    ensures n < |s3.inodes|
    ensures StaleTop(s3, n, DindStart(first)) <==> StaleTop(st, n, DindStart(first))
    ensures DindFrom(s3, n, DindStart(first)) == DindFrom(st, n, DindStart(first))
  {
    hide At, Bit, Inv, StaleTop, DindFrom, BitsLost, Freed;
    forall s | SlotOk(s) && (s.Mid? || s.DindEntry?) ensures At(s3, Ref(n, s)) == At(st, Ref(n, s)) {
      assert RefOk(st, Ref(n, s)) && RefOk(s1, Ref(n, s)) && RefOk(s2, Ref(n, s));
    }
    SameDind(st, s3, n, DindStart(first));
  }

  lemma NoTail(g: Geometry, st: St, n: nat, len: nat)
    requires Inv(g, st)
    ensures SameSizes(st, st) && KeepsBytes(st, st, n, len)
  {}

  lemma SkipIndPart(g: Geometry, st: St, n: nat, first: nat)
    requires Inv(g, st) && n < |st.inodes| && first > NSINGLE - 1
    ensures Dropped(g, st, st, n, IndFrom(IndStart(first)))
  {}

  lemma SkipDindPart(g: Geometry, st: St, s3: St, n: nat, first: nat)
    requires Inv(g, s3) && n < |st.inodes| && n < |s3.inodes| && first >= MAXFILE
    ensures !Stale(st, n, first) && Dropped(g, s3, s3, n, DindPart(st, n, first))
  {}

  lemma DroppedParts(g: Geometry, st: St, st': St, n: nat, gone: set<Slot>)
    requires Dropped(g, st, st', n, gone)
    ensures Inv(g, st) && Inv(g, st') && n < |st.inodes| == |st'.inodes| && SameSizes(st, st')
  {}

  lemma SmallEnough(st: St, n: nat, len: nat)
    requires n < |st.inodes| && len < st.inodes[n].size <= MAXBYTES
    ensures FirstFree(len) <= MAXFILE && (len > 0 ==> (len - 1) / BSIZE < MAXFILE && FirstFree(len) == (len - 1) / BSIZE + 1)
  {}

  /** The size field plays no part in the invariant. */
  lemma SizeFree(g: Geometry, s4: St, st': St, n: nat, len: nat)
    requires st'.disk == s4.disk && n < |s4.inodes| && st'.inodes == s4.inodes[n := s4.inodes[n].(size := len)]
    ensures Inv(g, st') <==> Inv(g, s4)
  {
    hide Inv;
    if Inv(g, s4) { SizeOnly(g, s4, st', n, len, len); }
    if Inv(g, st') { SizeOnly(g, st', s4, n, s4.inodes[n].size, len); }
  }

  /** What the blocks hold past the new end: zeros, but for the rest of the last block kept when that is
      not a direct one, which stays as it was. */
  ghost predicate TailIs(st: St, st': St, n: nat, len: nat)
    requires n < |st.inodes| && n < |st'.inodes|
  {
    forall k: nat :: len <= k ==>
      FileByte(st', n, k) == if k / BSIZE < FirstFree(len) && FirstFree(len) > NDIRECT then FileByte(st, n, k) else 0
  }

  /** The tail before anything was unmapped. */
  ghost predicate TailZeroed(st: St, s1: St, n: nat, len: nat)
    requires n < |st.inodes| && n < |s1.inodes|
  {
    forall k: nat :: len <= k && k / BSIZE < FirstFree(len) ==>
      FileByte(s1, n, k) == if FirstFree(len) > NDIRECT then FileByte(st, n, k) else 0
  }

  lemma ZeroedTail(g: Geometry, st: St, s1: St, n: nat, len: nat)
    requires Inv(g, st) && n < |st.inodes| && 0 < len && (len - 1) / BSIZE < MAXFILE
    requires var last := (len - 1) / BSIZE; var a := At(st, Ref(n, DataSlot(last)));
             if len % BSIZE != 0 && last < NDIRECT && a != 0 then
               a < |st.disk| && s1 == st.(disk := st.disk[a := Patch(st.disk[a], len % BSIZE, seq(BSIZE - len % BSIZE, _ => 0))])
             else s1 == st
    ensures |s1.inodes| == |st.inodes| && TailZeroed(st, s1, n, len)
  {
    hide At, Inv, DataSlot;
    var last := (len - 1) / BSIZE;
    var a := At(st, Ref(n, DataSlot(last)));
    forall k: nat | len <= k && k / BSIZE < FirstFree(len) ensures FileByte(s1, n, k) == if FirstFree(len) > NDIRECT then FileByte(st, n, k) else 0 {
      assert k / BSIZE == last && len % BSIZE != 0;
      if last < NDIRECT && a != 0 {
        var zeros: seq<Byte> := seq(BSIZE - len % BSIZE, _ => 0);
        WriteKeeps(g, st, n, last, Patch(st.disk[a], len % BSIZE, zeros));
        PatchByte(st.disk[a], len, zeros, k);
      }
    }
  }

  lemma TailDone(g: Geometry, st: St, s1: St, st': St, n: nat, len: nat)
    requires Cut(g, st, st', n, len) && |s1.inodes| == |st.inodes| && TailZeroed(st, s1, n, len)
    requires KeepsBytes(s1, st', n, FirstFree(len) * BSIZE)
    ensures TailIs(st, st', n, len)
  {
    hide At, Bit, Inv, BitsLost, CutSlots, DataSlot;
    forall k: nat | len <= k
      ensures FileByte(st', n, k) == if k / BSIZE < FirstFree(len) && FirstFree(len) > NDIRECT then FileByte(st, n, k) else 0
    {
      if k / BSIZE >= FirstFree(len) && k / BSIZE < MAXFILE {
        CutData(st, n, FirstFree(len), k / BSIZE);
        assert RefOk(st, Ref(n, DataSlot(k / BSIZE)));
      }
    }
  }

  // ---------- The operations ----------

  /** fs_itrunc: gives back every block of the inode and empties it. */
  method Itrunc(fs: FileSystem, n: nat)
    requires Inv(fs.g, fs.S()) && n < |fs.inodes|
    modifies fs
    ensures Cut(fs.g, old(fs.S()), fs.S(), n, 0) && n < |fs.inodes| && TailIs(old(fs.S()), fs.S(), n, 0)
  {
    hide TailIs, TailZeroed, At, Bit, Inv, Dropped, SameSizes, KeepsBytes, StaleTop, DindFrom, IndFrom, DirectFrom, Cut;
    ghost var st := fs.S();
    NoTail(fs.g, st, n, 0);
    ShortCut(st, n, 0);
    DropDirect(fs, n, 0);
    ghost var s2 := fs.S();
    DroppedParts(fs.g, st, s2, n, DirectFrom(0));
    DropInd(fs, n, 0);
    ghost var s3 := fs.S();
    DroppedParts(fs.g, s2, s3, n, IndFrom(0));
    DindUntouched(fs.g, st, st, s2, s3, n, 0);
    var cached := DropDind(fs, n, 0);
    ghost var s4 := fs.S();
    DroppedParts(fs.g, s3, s4, n, DindPart(st, n, 0));
    fs.inodes := fs.inodes[n := fs.inodes[n].(size := 0)];
    CutDone(fs.g, st, st, s2, s3, s4, fs.S(), n, 0);
    AllGone(st, n);
    TailDone(fs.g, st, st, fs.S(), n, 0);
  }

  lemma AllGone(st: St, n: nat)
    requires n < |st.inodes|
    ensures TailZeroed(st, st, n, 0)
  {}

  /** fs_itrunc_to: nothing for a length at or past the end, otherwise the cut. The first-level table of
      the double-indirect part, if it stays, is changed in its buffer but not written. cached is the disk
      with that buffer in place of its block, what the kernel sees until the buffer is reused: there the
      cut is always as it should be. On the disk it is so exactly when no number in the table is stale. */
  method ItruncTo(fs: FileSystem, n: nat, len: nat) returns (cached: Disk)
    requires Inv(fs.g, fs.S()) && n < |fs.inodes| && fs.inodes[n].size <= MAXBYTES
    modifies fs
    ensures len >= old(fs.inodes[n].size) ==> fs.S() == old(fs.S()) && cached == fs.disk
    ensures len < old(fs.inodes[n].size) ==> Cut(fs.g, old(fs.S()), St(cached, fs.inodes), n, len)
    ensures len < old(fs.inodes[n].size) ==> n < |fs.inodes| && TailIs(old(fs.S()), St(cached, fs.inodes), n, len)
    ensures len < old(fs.inodes[n].size) ==> (Stale(old(fs.S()), n, FirstFree(len)) <==> !Inv(fs.g, fs.S()))
    ensures len < old(fs.inodes[n].size) && !Stale(old(fs.S()), n, FirstFree(len)) ==> cached == fs.disk
    ensures len < old(fs.inodes[n].size) && Stale(old(fs.S()), n, FirstFree(len)) ==> n < |fs.inodes| && OnlyTop(fs.S(), n, cached)
  {
    hide At, Bit, Inv, Dropped, SameSizes, KeepsBytes, StaleTop, DindFrom, IndFrom, DirectFrom, Cut, Patch, FirstFree, OnlyTop, TailIs, TailZeroed, FileByte, DataSlot;
    ghost var st := fs.S();
    cached := fs.disk;
    if len >= fs.inodes[n].size { return; }
    SmallEnough(st, n, len);
    if len == 0 {
      CutStart(st, n);
      Itrunc(fs, n);
      cached := fs.disk;
      CutInv(fs.g, st, fs.S(), n, 0);
      return;
    }
    var last := (len - 1) / BSIZE;
    var first := last + 1;
    var partial := len % BSIZE;
    NoTail(fs.g, st, n, len);
    DirectAddr(st, n, last);
    if partial != 0 && last < NDIRECT && fs.inodes[n].addrs[last] != 0 {
      ZeroTail(fs.g, st, n, len);
      fs.disk := fs.disk[fs.inodes[n].addrs[last] := Patch(fs.disk[fs.inodes[n].addrs[last]], partial, seq(BSIZE - partial, _ => 0))];
    }
    ghost var s1 := fs.S();
    ZeroedTail(fs.g, st, s1, n, len);
    SameSizesOf(st, s1);
    DropDirect(fs, n, first);
    ghost var s2 := fs.S();
    DroppedParts(fs.g, s1, s2, n, DirectFrom(first));
    if first <= NSINGLE - 1 {
      DropInd(fs, n, if first > NDIRECT then first - NDIRECT else 0);
    } else {
      SkipIndPart(fs.g, s2, n, first);
    }
    ghost var s3 := fs.S();
    DroppedParts(fs.g, s2, s3, n, IndFrom(IndStart(first)));
    DindUntouched(fs.g, st, s1, s2, s3, n, first);
    cached := fs.disk;
    if first <= MAXFILE - 1 {
      cached := DropDind(fs, n, if first > NSINGLE then first - NSINGLE else 0);
    } else {
      SkipDindPart(fs.g, st, s3, n, first);
    }
    ghost var s4 := St(cached, fs.inodes);
    DroppedParts(fs.g, s3, s4, n, DindPart(st, n, first));
    ghost var s5 := fs.S();
    fs.inodes := fs.inodes[n := fs.inodes[n].(size := len)];
    SizeFree(fs.g, s5, fs.S(), n, len);
    ResizeTop(s5, fs.S(), n, len, cached);
    CutDone(fs.g, st, s1, s2, s3, s4, St(cached, fs.inodes), n, len);
    TailDone(fs.g, st, s1, St(cached, fs.inodes), n, len);
    CutInv(fs.g, st, St(cached, fs.inodes), n, len);
  }

  lemma DirectAddr(st: St, n: nat, last: nat)
    requires n < |st.inodes| && last < MAXFILE
    ensures last < NDIRECT ==> At(st, Ref(n, DataSlot(last))) == st.inodes[n].addrs[last]
  {}

  lemma ResizeTop(s4: St, st': St, n: nat, len: nat, d: Disk)
    requires st'.disk == s4.disk && n < |s4.inodes| && st'.inodes == s4.inodes[n := s4.inodes[n].(size := len)]
    ensures OnlyTop(st', n, d) <==> OnlyTop(s4, n, d)
  {}

  lemma SameSizesOf(st: St, s1: St)
    requires s1.inodes == st.inodes
    ensures SameSizes(st, s1)
  {}

  lemma CutStart(st: St, n: nat)
    requires n < |st.inodes|
    ensures FirstFree(0) == 0 && !Stale(st, n, 0)
  {}

  lemma CutInv(g: Geometry, st: St, st': St, n: nat, len: nat)
    requires Cut(g, st, st', n, len)
    ensures Inv(g, st')
  {}
}
