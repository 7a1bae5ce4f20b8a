/** The block-level invariant of the file system and what each elementary change does to it. */
module FsInv {
  import opened Arith
  import opened FsDisk

  /** Disk blocks and inodes. */
  datatype St = St(disk: Disk, inodes: seq<Inode>)

  /** A slot of one inode. */
  datatype Ref = Ref(n: nat, s: Slot)

  predicate RefOk(st: St, r: Ref) { r.n < |st.inodes| && SlotOk(r.s) }

  /** The block number the slot holds, 0 when unmapped. */
  function At(st: St, r: Ref): nat
    requires RefOk(st, r)
  { SlotAddr(st.disk, st.inodes[r.n], r.s) }

  /** Mapped blocks lie past the metadata and are marked used. */
  ghost predicate Ranged(g: Geometry, st: St)
    requires DiskOk(g, st.disk)
  {
    forall r :: RefOk(st, r) && At(st, r) != 0 ==> g.datastart <= At(st, r) < g.size && Bit(g, st.disk, At(st, r))
  }

  /** No block is reached through two slots. */
  ghost predicate Distinct(st: St) {
    forall r, q :: RefOk(st, r) && RefOk(st, q) && At(st, r) != 0 && At(st, r) == At(st, q) ==> r == q
  }

  /** The metadata blocks are marked used. */
  ghost predicate MetaUsed(g: Geometry, disk: Disk)
    requires DiskOk(g, disk)
  { forall b: nat :: b < g.datastart ==> Bit(g, disk, b) }

  ghost predicate Inv(g: Geometry, st: St) {
    DiskOk(g, st.disk) && Ranged(g, st) && Distinct(st) && MetaUsed(g, st.disk)
  }

  ghost predicate Unreferenced(st: St, b: nat) { forall r :: RefOk(st, r) ==> At(st, r) != b }

  /** The slot whose table holds the entry of s. */
  function Parent(s: Slot): (p: Slot)
    requires !s.Direct? && !s.Ind? && !s.Dind?
    ensures IsTable(p) && (SlotOk(s) ==> SlotOk(p))
  {
    match s
    case IndEntry(_) => Ind
    case Mid(_) => Dind
    case DindEntry(m, _) => Mid(m)
  }

  predicate InInode(s: Slot) { s.Direct? || s.Ind? || s.Dind? }

  /** Index of the entry inside its parent table. */
  function EntryIndex(s: Slot): (j: nat)
    requires !InInode(s)
    ensures SlotOk(s) ==> j < NINDIRECT
  { match s case IndEntry(j) => j case Mid(m) => m case DindEntry(_, j) => j }

  lemma AtEntry(st: St, r: Ref)
    requires RefOk(st, r) && !InInode(r.s)
    ensures RefOk(st, Ref(r.n, Parent(r.s))) && At(st, r) == Entry(st.disk, At(st, Ref(r.n, Parent(r.s))), EntryIndex(r.s))
  {}

  /** Addresses survive any disk change that leaves the tables in use alone. */
  lemma AtSame(g: Geometry, st: St, disk': Disk, r: Ref)
    requires Inv(g, st) && RefOk(st, r) && |disk'| == |st.disk|
    requires forall q :: RefOk(st, q) && IsTable(q.s) && At(st, q) != 0 ==> At(st, q) < |disk'| && disk'[At(st, q)] == st.disk[At(st, q)]
    ensures RefOk(st.(disk := disk'), r) && At(st.(disk := disk'), r) == At(st, r)
  {
    hide Inv, Word;
    var st' := st.(disk := disk');
    if !InInode(r.s) {
      AtEntry(st, r);
      AtEntry(st', r);
      var p := Ref(r.n, Parent(r.s));
      if !InInode(p.s) {
        AtEntry(st, p);
        AtEntry(st', p);
        assert At(st', Ref(r.n, Parent(p.s))) == At(st, Ref(r.n, Parent(p.s)));
        EntrySame(st.disk, disk', At(st, Ref(r.n, Parent(p.s))), EntryIndex(p.s));
      }
      EntrySame(st.disk, disk', At(st, p), EntryIndex(r.s));
    }
  }

  lemma EntrySame(d: Disk, d': Disk, a: nat, j: nat)
    requires j < NINDIRECT && |d| == |d'| && (a != 0 ==> a < |d| && d'[a] == d[a])
    ensures Entry(d', a, j) == Entry(d, a, j)
  {}

  // ---------- Allocating ----------

  /** Taking a free block: mark it used and zero it. */
  function Take(g: Geometry, st: St, b: nat): St
    requires DiskOk(g, st.disk) && b < g.size
  { MarkFrame(g, st.disk, b); st.(disk := MarkUsed(g, st.disk, b)[b := ZeroBlock()]) }

  /** A free block is nobody's: taking it changes no address and keeps the invariant. */
  lemma TakeKeeps(g: Geometry, st: St, b: nat)
    requires Inv(g, st) && b < g.size && !Bit(g, st.disk, b)
    ensures g.datastart <= b && b != 0 && Unreferenced(st, b)
    ensures forall r :: RefOk(st, r) ==> RefOk(Take(g, st, b), r) && At(Take(g, st, b), r) == At(st, r)
    ensures Inv(g, Take(g, st, b)) && Unreferenced(Take(g, st, b), b) && Take(g, st, b).disk[b] == ZeroBlock()
    ensures forall c: nat :: c < g.size ==> (Bit(g, Take(g, st, b).disk, c) <==> c == b || Bit(g, st.disk, c))
    ensures forall k: nat :: g.datastart <= k < g.size && k != b ==> Take(g, st, b).disk[k] == st.disk[k]
  {
    var st' := Take(g, st, b);
    FreeIsData(g, st, b);
    MarkFrame(g, st.disk, b);
    forall c: nat | c < g.size ensures Bit(g, st'.disk, c) <==> c == b || Bit(g, st.disk, c) {
      BitFrame(g, MarkUsed(g, st.disk, b), st'.disk, c);
      MarkBits(g, st.disk, b, c);
    }
    forall r | RefOk(st, r) ensures RefOk(st', r) && At(st', r) == At(st, r) {
      AtSame(g, st, st'.disk, r);
    }
    InvCarries(g, st, st', b);
  }

  lemma FreeIsData(g: Geometry, st: St, b: nat)
    requires Inv(g, st) && b < g.size && !Bit(g, st.disk, b)
    ensures g.datastart <= b && b != 0 && Unreferenced(st, b)
  {}

  /** Same addresses and no bit lost (except of an unreferenced data block): the invariant carries over. */
  lemma InvCarries(g: Geometry, st: St, st': St, b: nat)
    requires Inv(g, st) && DiskOk(g, st'.disk) && |st'.inodes| == |st.inodes|
    requires forall r :: RefOk(st, r) ==> At(st', r) == At(st, r)
    requires forall c: nat :: c < g.size && c != b && Bit(g, st.disk, c) ==> Bit(g, st'.disk, c)
    requires g.datastart <= b && Unreferenced(st, b)
    ensures Inv(g, st')
    ensures Unreferenced(st', b)
  {}

  // ---------- Linking a taken block into a slot ----------

  function AddrIndex(s: Slot): (i: nat)
    requires InInode(s)
    ensures SlotOk(s) ==> i < NDIRECT + 2
  { match s case Direct(i) => i case Ind => NDIRECT case Dind => NDIRECT + 1 }

  /** Where the slot is stored exists. */
  predicate Reachable(st: St, r: Ref) {
    RefOk(st, r) && (InInode(r.s) || (At(st, Ref(r.n, Parent(r.s))) != 0 && At(st, Ref(r.n, Parent(r.s))) < |st.disk|))
  }

  /** Storing block number b in a slot. */
  function Link(st: St, r: Ref, b: nat): St
    requires Reachable(st, r)
  {
    if InInode(r.s) then
      var ip := st.inodes[r.n];
      st.(inodes := st.inodes[r.n := ip.(addrs := ip.addrs[AddrIndex(r.s) := b])])
    else
      var t := At(st, Ref(r.n, Parent(r.s)));
      st.(disk := st.disk[t := SetWord(st.disk[t], EntryIndex(r.s), b)])
  }

  /** Linking a zeroed, unreferenced block into an empty slot changes that slot's address and no other. */
  lemma LinkAt(g: Geometry, st: St, r: Ref, b: nat, q: Ref)
    requires Inv(g, st) && Reachable(st, r) && At(st, r) == 0 && b < g.size && RefOk(st, q)
    requires Unreferenced(st, b) && b != 0 && st.disk[b] == ZeroBlock()
    ensures RefOk(Link(st, r, b), q) && At(Link(st, r, b), q) == if q == r then b else At(st, q)
  {
    hide Word, SetWord, Unreferenced;
    if InInode(r.s) { LinkInInode(g, st, r, b, q); } else { LinkInTable(g, st, r, b, q); }
  }

  lemma LinkInInode(g: Geometry, st: St, r: Ref, b: nat, q: Ref)
    requires DiskOk(g, st.disk) && RefOk(st, r) && InInode(r.s) && At(st, r) == 0 && b < g.size && RefOk(st, q)
    requires b != 0 && st.disk[b] == ZeroBlock()
    ensures At(Link(st, r, b), q) == if q == r then b else At(st, q)
  {}

  lemma LinkInTable(g: Geometry, st: St, r: Ref, b: nat, q: Ref)
    requires Inv(g, st) && Reachable(st, r) && !InInode(r.s) && At(st, r) == 0 && b < g.size && RefOk(st, q)
    requires Unreferenced(st, b) && b != 0 && st.disk[b] == ZeroBlock()
    ensures At(Link(st, r, b), q) == if q == r then b else At(st, q)
  {
    hide Ranged, Distinct, MetaUsed, Word, SetWord, Unreferenced, At;
    var st' := Link(st, r, b);
    SameInInode(st, st');
    if !InInode(q.s) {
      var p := Ref(q.n, Parent(q.s));
      AtEntry(st, q);
      AtEntry(st', q);
      if InInode(p.s) {
        TableEntry(g, st, r, b, p, EntryIndex(q.s));
      } else {
        AtEntry(st, p);
        AtEntry(st', p);
        TableEntry(g, st, r, b, Ref(p.n, Parent(p.s)), EntryIndex(p.s));
        NewTableEmpty(st, r, b, EntryIndex(q.s));
        TableEntry(g, st, r, b, p, EntryIndex(q.s));
      }
    }
  }

  lemma SameInInode(st: St, st': St)
    requires st'.inodes == st.inodes
    ensures forall q :: RefOk(st, q) && InInode(q.s) ==> RefOk(st', q) && At(st', q) == At(st, q)
  {}

  /** Entries read from a table at an address reached before the link. */
  lemma TableEntry(g: Geometry, st: St, r: Ref, b: nat, p: Ref, j: nat)
    requires Inv(g, st) && Reachable(st, r) && !InInode(r.s) && b < g.size && RefOk(st, p) && IsTable(p.s) && j < NINDIRECT
    ensures Entry(Link(st, r, b).disk, At(st, p), j) ==
              if p == Ref(r.n, Parent(r.s)) && j == EntryIndex(r.s) then b else Entry(st.disk, At(st, p), j)
  {
    hide Word, SetWord, At, Ranged, MetaUsed;
    var h := Ref(r.n, Parent(r.s));
    if At(st, p) == At(st, h) { WordSet(st.disk[At(st, h)], EntryIndex(r.s), b, j); }
  }

  /** A table just linked is empty. */
  lemma NewTableEmpty(st: St, r: Ref, b: nat, j: nat)
    requires Reachable(st, r) && !InInode(r.s) && b < |st.disk| && b != 0 && st.disk[b] == ZeroBlock() && Unreferenced(st, b) && j < NINDIRECT
    ensures Entry(Link(st, r, b).disk, b, j) == 0 && Entry(st.disk, 0, j) == 0
  {}

  lemma LinkKeeps(g: Geometry, st: St, r: Ref, b: nat)
    requires Inv(g, st) && Reachable(st, r) && At(st, r) == 0
    requires g.datastart <= b < g.size && b != 0 && Bit(g, st.disk, b) && Unreferenced(st, b) && st.disk[b] == ZeroBlock()
    ensures forall q :: RefOk(st, q) ==> At(Link(st, r, b), q) == if q == r then b else At(st, q)
    ensures Inv(g, Link(st, r, b))
    ensures forall c: nat :: c < g.size ==> (Bit(g, Link(st, r, b).disk, c) <==> Bit(g, st.disk, c))
    ensures |Link(st, r, b).disk| == |st.disk| && |Link(st, r, b).inodes| == |st.inodes|
  {
    hide Word, SetWord, ZeroBlock, At;
    var st' := Link(st, r, b);
    forall q | RefOk(st, q) ensures At(st', q) == if q == r then b else At(st, q) { LinkAt(g, st, r, b, q); }
    LinkBits(g, st, r, b);
    assert forall q :: RefOk(st', q) <==> RefOk(st, q);
  }

  lemma LinkBits(g: Geometry, st: St, r: Ref, b: nat)
    requires Inv(g, st) && Reachable(st, r)
    ensures DiskOk(g, Link(st, r, b).disk)
    ensures forall c: nat :: c < g.size ==> (Bit(g, Link(st, r, b).disk, c) <==> Bit(g, st.disk, c))
  {}

  // ---------- File contents ----------

  /** Byte k of inode n; an unmapped block reads as zeros. */
  function FileByte(st: St, n: nat, k: nat): Byte
    requires n < |st.inodes|
  {
    if k / BSIZE >= MAXFILE then 0
    else
      var a := At(st, Ref(n, DataSlot(k / BSIZE)));
      if a == 0 || a >= |st.disk| then 0 else st.disk[a][k % BSIZE]
  }

  /** The file as a byte sequence. */
  function Content(st: St, n: nat): seq<Byte>
    requires n < |st.inodes|
  { seq(st.inodes[n].size, k requires 0 <= k => FileByte(st, n, k)) }

  ghost predicate SameBytes(st: St, st': St) {
    && |st'.inodes| == |st.inodes|
    && forall n: nat, k: nat :: n < |st.inodes| ==> FileByte(st', n, k) == FileByte(st, n, k)
  }

  /** Sizes of all inodes as before. */
  ghost predicate SameSizes(st: St, st': St) {
    && |st'.inodes| == |st.inodes|
    && forall n: nat :: n < |st.inodes| ==> st'.inodes[n].size == st.inodes[n].size
  }

  /** Taking a free block is invisible in every file. */
  lemma TakeBytes(g: Geometry, st: St, b: nat)
    requires Inv(g, st) && b < g.size && !Bit(g, st.disk, b)
    ensures SameBytes(st, Take(g, st, b)) && SameSizes(st, Take(g, st, b))
  {
    hide At, Bit, ZeroBlock, DataSlot;
    TakeKeeps(g, st, b);
    var st' := Take(g, st, b);
    forall n: nat, k: nat | n < |st.inodes| ensures FileByte(st', n, k) == FileByte(st, n, k) {
      if k / BSIZE < MAXFILE { assert RefOk(st, Ref(n, DataSlot(k / BSIZE))); }
    }
  }

  /** So is linking it: the zeroed block reads like the hole it fills. */
  lemma LinkBytes(g: Geometry, st: St, r: Ref, b: nat)
    requires Inv(g, st) && Reachable(st, r) && At(st, r) == 0
    requires g.datastart <= b < g.size && b != 0 && Bit(g, st.disk, b) && Unreferenced(st, b) && st.disk[b] == ZeroBlock()
    ensures SameBytes(st, Link(st, r, b)) && SameSizes(st, Link(st, r, b))
  {
    hide Word, SetWord, At, Bit, DataSlot;
    LinkKeeps(g, st, r, b);
    var st' := Link(st, r, b);
    forall n: nat, k: nat | n < |st.inodes| ensures FileByte(st', n, k) == FileByte(st, n, k) {
      if k / BSIZE < MAXFILE {
        var q := Ref(n, DataSlot(k / BSIZE));
        assert RefOk(st, q);
        DataNotTable(g, st, r, q);
      }
    }
  }

  /** The table a slot is stored in is not a data block. */
  lemma DataNotTable(g: Geometry, st: St, r: Ref, q: Ref)
    requires Inv(g, st) && Reachable(st, r) && RefOk(st, q) && !IsTable(q.s)
    ensures !InInode(r.s) ==> At(st, q) != At(st, Ref(r.n, Parent(r.s)))
  {}

  // ---------- Overwriting a data block ----------

  /** Replacing the contents of a file's block changes those bytes of that file and nothing else. */
  lemma WriteKeeps(g: Geometry, st: St, n: nat, bn: nat, blk: Block)
    requires Inv(g, st) && n < |st.inodes| && bn < MAXFILE && At(st, Ref(n, DataSlot(bn))) != 0
    ensures At(st, Ref(n, DataSlot(bn))) < |st.disk|
    ensures var st' := st.(disk := st.disk[At(st, Ref(n, DataSlot(bn))) := blk]);
            && Inv(g, st')
            && (forall r :: RefOk(st, r) ==> RefOk(st', r) && At(st', r) == At(st, r))
            && (forall c: nat :: c < g.size ==> (Bit(g, st'.disk, c) <==> Bit(g, st.disk, c)))
            && (forall m: nat, k: nat :: m < |st.inodes| ==>
                  FileByte(st', m, k) == if m == n && k / BSIZE == bn then blk[k % BSIZE] else FileByte(st, m, k))
  {
    hide At, Bit, DataSlot;
    var r := Ref(n, DataSlot(bn));
    assert RefOk(st, r);
    var a := At(st, r);
    var st' := st.(disk := st.disk[a := blk]);
    forall q | RefOk(st, q) ensures RefOk(st', q) && At(st', q) == At(st, q) { AtSame(g, st, st'.disk, q); }
    forall c: nat | c < g.size ensures Bit(g, st'.disk, c) <==> Bit(g, st.disk, c) { BitFrame(g, st.disk, st'.disk, c); }
    assert Inv(g, st') by { assert forall q :: RefOk(st', q) ==> RefOk(st, q); }
    forall m: nat, k: nat | m < |st.inodes|
      ensures FileByte(st', m, k) == if m == n && k / BSIZE == bn then blk[k % BSIZE] else FileByte(st, m, k)
    {
      if k / BSIZE < MAXFILE { OtherBlock(g, st, n, bn, m, k); }
    }
  }

  lemma OtherBlock(g: Geometry, st: St, n: nat, bn: nat, m: nat, k: nat)
    requires Inv(g, st) && n < |st.inodes| && bn < MAXFILE && m < |st.inodes| && k / BSIZE < MAXFILE
    requires At(st, Ref(n, DataSlot(bn))) != 0
    ensures RefOk(st, Ref(m, DataSlot(k / BSIZE)))
    ensures At(st, Ref(m, DataSlot(k / BSIZE))) == At(st, Ref(n, DataSlot(bn))) <==> m == n && k / BSIZE == bn
  {}

  // ---------- What operations that only add blocks guarantee ----------

  /** st' is st with some holes filled: the invariant holds, no mapped slot moved, no file byte or
      size changed, and no block was freed. */
  ghost predicate Grown(g: Geometry, st: St, st': St) {
    && Inv(g, st) && Inv(g, st') && SameBytes(st, st') && SameSizes(st, st')
    && (forall r :: RefOk(st, r) && At(st, r) != 0 ==> RefOk(st', r) && At(st', r) == At(st, r))
    && (forall c: nat :: c < g.size && Bit(g, st.disk, c) ==> Bit(g, st'.disk, c))
  }

  lemma GrownRefl(g: Geometry, st: St)
    requires Inv(g, st)
    ensures Grown(g, st, st)
  {}

  lemma GrownTrans(g: Geometry, a: St, b: St, c: St)
    requires Grown(g, a, b) && Grown(g, b, c)
    ensures Grown(g, a, c)
  {}

  /** Allocating a block for an empty slot grows the file system. */
  lemma FillGrows(g: Geometry, st: St, r: Ref, b: nat)
    requires Inv(g, st) && Reachable(st, r) && At(st, r) == 0 && b < g.size && !Bit(g, st.disk, b)
    ensures Reachable(Take(g, st, b), r)
    ensures Grown(g, st, Link(Take(g, st, b), r, b)) && At(Link(Take(g, st, b), r, b), r) == b
    ensures RefOk(Link(Take(g, st, b), r, b), r) && g.datastart <= b
    ensures forall q :: RefOk(st, q) ==> RefOk(Link(Take(g, st, b), r, b), q) && At(Link(Take(g, st, b), r, b), q) == if q == r then b else At(st, q)
  {
    hide At, Bit, ZeroBlock, Inv, FileByte, Unreferenced;
    DiskLen(g, st);
    TakeKeeps(g, st, b);
    TakeBytes(g, st, b);
    var s1 := Take(g, st, b);
    DiskLen(g, s1);
    LinkKeeps(g, s1, r, b);
    LinkBytes(g, s1, r, b);
    var s2 := Link(s1, r, b);
    assert Grown(g, st, s1);
    assert Grown(g, s1, s2);
    GrownTrans(g, st, s1, s2);
  }

  lemma DiskLen(g: Geometry, st: St)
    requires Inv(g, st)
    ensures DiskOk(g, st.disk) && |st.disk| == g.size
  {}
}
