/** Truncation: which blocks fs_itrunc and fs_itrunc_to give back, and what stays. */
module FsTrunc {
  import opened Arith
  import opened FsDisk
  import opened FsInv
  import opened Fs

  /** Addresses of the mapped slots of inode n in a set. */
  ghost function Freed(st: St, n: nat, gone: set<Slot>): set<nat>
    requires n < |st.inodes|
  { set s | s in gone && SlotOk(s) && At(st, Ref(n, s)) != 0 :: At(st, Ref(n, s)) }

  /** The bitmap lost exactly the bits of some blocks. */
  ghost predicate BitsLost(g: Geometry, d0: Disk, d: Disk, freed: set<nat>)
    requires DiskOk(g, d0)
  {
    DiskOk(g, d) && forall c: nat :: c < g.size ==> (Bit(g, d, c) <==> Bit(g, d0, c) && c !in freed)
  }

  /** No block past the metadata changed. */
  ghost predicate DataSame(g: Geometry, d0: Disk, d: Disk) {
    |d| == |d0| && forall k: nat :: g.datastart <= k < |d0| ==> d[k] == d0[k]
  }

  /** st' is st with the slots in gone of inode n unmapped and their blocks, and no others, given
      back; every other slot and every data block still mapped is unchanged. */
  ghost predicate Dropped(g: Geometry, st: St, st': St, n: nat, gone: set<Slot>) {
    && Inv(g, st) && Inv(g, st') && n < |st.inodes| && SameSizes(st, st')
    && (forall r :: RefOk(st, r) ==> RefOk(st', r) && At(st', r) == if r.n == n && r.s in gone then 0 else At(st, r))
    && BitsLost(g, st.disk, st'.disk, Freed(st, n, gone))
    && (forall r :: RefOk(st, r) && !IsTable(r.s) && At(st, r) != 0 && !(r.n == n && r.s in gone) ==>
          At(st, r) < |st.disk| == |st'.disk| && st'.disk[At(st, r)] == st.disk[At(st, r)])
  }

  lemma FreedIn(st: St, n: nat, gone: set<Slot>, s: Slot)
    requires n < |st.inodes| && SlotOk(s)
    ensures Freed(st, n, gone + {s}) == Freed(st, n, gone) + (if At(st, Ref(n, s)) != 0 then {At(st, Ref(n, s))} else {})
  {}

  /** The addresses freed are not those of any other slot. */
  lemma FreedApart(g: Geometry, st: St, n: nat, gone: set<Slot>, r: Ref)
    requires Inv(g, st) && n < |st.inodes| && RefOk(st, r) && At(st, r) != 0 && !(r.n == n && r.s in gone)
    ensures At(st, r) !in Freed(st, n, gone)
  {}

  lemma MetaApart(g: Geometry, st: St, n: nat, gone: set<Slot>)
    requires Inv(g, st) && n < |st.inodes|
    ensures forall c :: c in Freed(st, n, gone) ==> g.datastart <= c < g.size
  {}

  /** Unmapping slots and clearing their bits keeps the invariant. */
  lemma DropKeeps(g: Geometry, st: St, st': St, n: nat, gone: set<Slot>)
    requires Inv(g, st) && n < |st.inodes| && |st'.inodes| == |st.inodes|
    requires forall r :: RefOk(st, r) ==> At(st', r) == if r.n == n && r.s in gone then 0 else At(st, r)
    requires BitsLost(g, st.disk, st'.disk, Freed(st, n, gone))
    ensures Inv(g, st')
  {
    hide At, Bit, Freed;
    MetaApart(g, st, n, gone);
    assert forall r :: RefOk(st', r) <==> RefOk(st, r);
    forall r | RefOk(st', r) && At(st', r) != 0
      ensures g.datastart <= At(st', r) < g.size && Bit(g, st'.disk, At(st', r))
    {
      assert RefOk(st, r);
      FreedApart(g, st, n, gone, r);
    }
  }

  /** bfree on a mapped slot's block. */
  lemma FreeOne(g: Geometry, st: St, n: nat, gone: set<Slot>, d: Disk, s: Slot)
    requires Inv(g, st) && n < |st.inodes| && SlotOk(s) && BitsLost(g, st.disk, d, Freed(st, n, gone))
    requires At(st, Ref(n, s)) != 0
    ensures g.datastart <= At(st, Ref(n, s)) < g.size
    ensures BitsLost(g, st.disk, MarkFree(g, d, At(st, Ref(n, s))), Freed(st, n, gone + {s}))
    ensures DataSame(g, d, MarkFree(g, d, At(st, Ref(n, s))))
  {
    hide At, Freed, Bit, MarkFree;
    assert RefOk(st, Ref(n, s));
    var b := At(st, Ref(n, s));
    FreedIn(st, n, gone, s);
    MarkFrame(g, d, b);
    forall c: nat | c < g.size ensures Bit(g, MarkFree(g, d, b), c) <==> c != b && Bit(g, d, c) { MarkBits(g, d, b, c); }
  }

  lemma SkipOne(g: Geometry, st: St, n: nat, gone: set<Slot>, s: Slot)
    requires n < |st.inodes| && SlotOk(s) && At(st, Ref(n, s)) == 0
    ensures Freed(st, n, gone + {s}) == Freed(st, n, gone)
  {}

  lemma NothingFreed(g: Geometry, st: St, n: nat)
    requires DiskOk(g, st.disk) && n < |st.inodes|
    ensures Freed(st, n, {}) == {} && BitsLost(g, st.disk, st.disk, {}) && DataSame(g, st.disk, st.disk)
  {}

  lemma DroppedTrans(g: Geometry, a: St, b: St, c: St, n: nat, g1: set<Slot>, g2: set<Slot>)
    requires Dropped(g, a, b, n, g1) && Dropped(g, b, c, n, g2)
    ensures Dropped(g, a, c, n, g1 + g2)
  {
    hide At, Bit, Inv;
    DiskLen(g, a);
    assert Freed(a, n, g1 + g2) == Freed(a, n, g1) + Freed(b, n, g2) by {
      forall x ensures x in Freed(a, n, g1 + g2) <==> x in Freed(a, n, g1) || x in Freed(b, n, g2) {
        if x in Freed(a, n, g1 + g2) {
          var s :| s in g1 + g2 && SlotOk(s) && At(a, Ref(n, s)) == x && x != 0;
          assert RefOk(a, Ref(n, s));
        }
        if x in Freed(b, n, g2) {
          var s :| s in g2 && SlotOk(s) && At(b, Ref(n, s)) == x && x != 0;
          assert RefOk(a, Ref(n, s));
        }
      }
    }
  }

  // ---------- Direct blocks ----------

  ghost function DirectFrom(from: nat): set<Slot> { set i | from <= i < NDIRECT :: Direct(i) }

  /** Frees the direct blocks from an index on. */
  method DropDirect(fs: FileSystem, n: nat, from: nat)
    requires Inv(fs.g, fs.S()) && n < |fs.inodes|
    modifies fs
    ensures Dropped(fs.g, old(fs.S()), fs.S(), n, DirectFrom(from))
  {
    hide At, Bit, Inv, Freed, MarkFree, DataSame, BitsLost;
    ghost var st := fs.S();
    ghost var gone: set<Slot> := {};
    DiskLen(fs.g, st);
    NothingFreed(fs.g, st, n);
    var i := from;
    while i < NDIRECT
      invariant from <= i && DiskOk(fs.g, fs.disk) && |fs.inodes| == |st.inodes|
      invariant gone == set k | from <= k < i && k < NDIRECT :: Direct(k)
      invariant BitsLost(fs.g, st.disk, fs.disk, Freed(st, n, gone)) && DataSame(fs.g, st.disk, fs.disk)
      invariant DirectCleared(st, fs.inodes, n, from, i)
    {
      DirectAt(st, n, i);
      var a := fs.inodes[n].addrs[i];
      if a != 0 {
        ghost var d := fs.disk;
        FreeOne(fs.g, st, n, gone, d, Direct(i));
        fs.Bfree(a);
        DataSameTrans(fs.g, st.disk, d, fs.disk);
        LostOk(fs.g, st.disk, fs.disk, Freed(st, n, gone + {Direct(i)}));
        fs.inodes := fs.inodes[n := fs.inodes[n].(addrs := fs.inodes[n].addrs[i := 0])];
      } else {
        SkipOne(fs.g, st, n, gone, Direct(i));
      }
      gone := gone + {Direct(i)};
      i := i + 1;
    }
    assert gone == DirectFrom(from);
    DirectDropped(fs.g, st, fs.S(), n, from);
  }

  /** Inode n has lost its direct addresses from one index up to another; nothing else changed. */
  ghost predicate DirectCleared(st: St, inodes: seq<Inode>, n: nat, from: nat, to: nat) {
    && |inodes| == |st.inodes| && n < |st.inodes|
    && (forall m: nat :: m < |inodes| && m != n ==> inodes[m] == st.inodes[m])
    && inodes[n].size == st.inodes[n].size
    && forall k: nat :: k < NDIRECT + 2 ==> inodes[n].addrs[k] == if from <= k < to && k < NDIRECT then 0 else st.inodes[n].addrs[k]
  }

  lemma DirectAt(st: St, n: nat, i: nat)
    requires n < |st.inodes| && i < NDIRECT
    ensures RefOk(st, Ref(n, Direct(i))) && At(st, Ref(n, Direct(i))) == st.inodes[n].addrs[i]
  {}

  lemma DataSameTrans(g: Geometry, a: Disk, b: Disk, c: Disk)
    requires DataSame(g, a, b) && DataSame(g, b, c)
    ensures DataSame(g, a, c)
  {}

  lemma LostOk(g: Geometry, d0: Disk, d: Disk, freed: set<nat>)
    requires DiskOk(g, d0) && BitsLost(g, d0, d, freed)
    ensures DiskOk(g, d)
  {}

  lemma DirectDropped(g: Geometry, st: St, st': St, n: nat, from: nat)
    requires Inv(g, st) && DirectCleared(st, st'.inodes, n, from, if from < NDIRECT then NDIRECT else from)
    requires DataSame(g, st.disk, st'.disk) && BitsLost(g, st.disk, st'.disk, Freed(st, n, DirectFrom(from)))
    ensures Dropped(g, st, st', n, DirectFrom(from))
  {
    hide Bit, Freed;
    forall r | RefOk(st, r) ensures RefOk(st', r) && At(st', r) == if r.n == n && r.s in DirectFrom(from) then 0 else At(st, r) {
      DiskOnly(g, st, st'.disk, r);
      AddrsOnly(st.(disk := st'.disk), st', r, n, from);
    }
    DropKeeps(g, st, st', n, DirectFrom(from));
    MappedData(g, st);
  }

  lemma MappedData(g: Geometry, st: St)
    requires Inv(g, st)
    ensures forall r :: RefOk(st, r) && At(st, r) != 0 ==> g.datastart <= At(st, r) < |st.disk|
  {}

  /** Changing only metadata blocks moves no address. */
  lemma DiskOnly(g: Geometry, st: St, d: Disk, r: Ref)
    requires Inv(g, st) && DataSame(g, st.disk, d) && RefOk(st, r)
    ensures RefOk(st.(disk := d), r) && At(st.(disk := d), r) == At(st, r)
  {
    hide At, Bit;
    MappedData(g, st);
    AtSame(g, st, d, r);
  }

  lemma AddrsOnly(st: St, st': St, r: Ref, n: nat, from: nat)
    requires st'.disk == st.disk && RefOk(st, r) && DirectCleared(st, st'.inodes, n, from, if from < NDIRECT then NDIRECT else from)
    ensures RefOk(st', r) && At(st', r) == if r.n == n && r.s in DirectFrom(from) then 0 else At(st, r)
  {}

  // ---------- Tables of data blocks ----------

  /** blk' is the table blk with the entries from lo up to hi zeroed. */
  ghost predicate Cleared(blk: Block, blk': Block, lo: nat, hi: nat) {
    forall j: nat :: j < NINDIRECT ==> Word(blk', j) == if lo <= j < hi then 0 else Word(blk, j)
  }

  lemma ClearedStep(blk: Block, b1: Block, lo: nat, j: nat)
    requires Cleared(blk, b1, lo, j) && lo <= j < NINDIRECT
    ensures Cleared(blk, SetWord(b1, j, 0), lo, j + 1)
    ensures Word(b1, j) == Word(blk, j) && (Word(blk, j) == 0 ==> Cleared(blk, b1, lo, j + 1))
  {
    hide Word, SetWord;
    forall k: nat | k < NINDIRECT ensures Word(SetWord(b1, j, 0), k) == if k == j then 0 else Word(b1, k) { WordSet(b1, j, 0, k); }
  }

  lemma ClearedStart(blk: Block, lo: nat)
    ensures Cleared(blk, blk, lo, lo)
  {}

  /** Every block past the metadata except t is as before. */
  ghost predicate DataSameBut(g: Geometry, d0: Disk, d: Disk, t: nat) {
    |d| == |d0| && forall k: nat :: g.datastart <= k < |d0| && k != t ==> d[k] == d0[k]
  }

  /** Rewriting a table of data blocks changes its own entries only. */
  lemma RewriteTable(g: Geometry, st: St, d: Disk, n: nat, p: Slot, r: Ref)
    requires Inv(g, st) && n < |st.inodes| && SlotOk(p) && (p.Ind? || p.Mid?) && At(st, Ref(n, p)) != 0 && RefOk(st, r)
    requires DataSameBut(g, st.disk, d, At(st, Ref(n, p))) && At(st, Ref(n, p)) < |d|
    ensures RefOk(st.(disk := d), r)
    ensures At(st.(disk := d), r) ==
              if r.n == n && !InInode(r.s) && Parent(r.s) == p then Word(d[At(st, Ref(n, p))], EntryIndex(r.s)) else At(st, r)
  {
    hide At, Word, Inv;
    var st' := st.(disk := d);
    MappedData(g, st);
    if !InInode(r.s) {
      AtEntry(st, r);
      AtEntry(st', r);
      var q := Ref(r.n, Parent(r.s));
      TablesApart(g, st, Ref(n, p), q);
      if InInode(q.s) {
        SameInInode(st, st');
      } else {
        AtEntry(st, q);
        AtEntry(st', q);
        SameInInode(st, st');
        TablesApart(g, st, Ref(n, p), Ref(q.n, Parent(q.s)));
        assert RefOk(st, Ref(q.n, Parent(q.s)));
        EntrySameBut(g, st.disk, d, At(st, Ref(q.n, Parent(q.s))), EntryIndex(q.s), At(st, Ref(n, p)));
      }
      assert RefOk(st, q);
      if q == Ref(n, p) {
        EntryAt(d, At(st, q), EntryIndex(r.s));
      } else {
        EntrySameBut(g, st.disk, d, At(st, q), EntryIndex(r.s), At(st, Ref(n, p)));
      }
    } else {
      SameInInode(st, st');
    }
  }

  lemma EntryAt(d: Disk, a: nat, j: nat)
    requires j < NINDIRECT && a != 0 && a < |d|
    ensures Entry(d, a, j) == Word(d[a], j)
  {}

  lemma TablesApart(g: Geometry, st: St, p: Ref, q: Ref)
    requires Inv(g, st) && RefOk(st, p) && RefOk(st, q) && At(st, p) != 0
    ensures At(st, q) == At(st, p) <==> q == p
  {}

  lemma EntrySameBut(g: Geometry, d0: Disk, d: Disk, a: nat, j: nat, t: nat)
    requires DataSameBut(g, d0, d, t) && j < NINDIRECT && a != t && (a != 0 ==> g.datastart <= a < |d0|)
    ensures Entry(d, a, j) == Entry(d0, a, j)
  {}

  /** The end of a truncation step: addresses as promised, bits given back, data untouched. */
  lemma FinishDrop(g: Geometry, st: St, st': St, n: nat, gone: set<Slot>, t: Ref)
    requires Inv(g, st) && n < |st.inodes| && SameSizes(st, st') && RefOk(st, t) && IsTable(t.s) && At(st, t) != 0
    requires forall r :: RefOk(st, r) ==> RefOk(st', r) && At(st', r) == if r.n == n && r.s in gone then 0 else At(st, r)
    requires BitsLost(g, st.disk, st'.disk, Freed(st, n, gone))
    requires DataSameBut(g, st.disk, st'.disk, At(st, t))
    ensures Dropped(g, st, st', n, gone)
  {
    hide At, Bit, Freed;
    DropKeeps(g, st, st', n, gone);
    MappedData(g, st);
    forall r | RefOk(st, r) && !IsTable(r.s) && At(st, r) != 0 ensures At(st, r) != At(st, t) {
      TablesApart(g, st, t, r);
    }
  }

  lemma DropNothing(g: Geometry, st: St, n: nat, gone: set<Slot>)
    requires Inv(g, st) && n < |st.inodes| && forall s :: s in gone && SlotOk(s) ==> At(st, Ref(n, s)) == 0
    ensures Dropped(g, st, st, n, gone)
  {}

  // ---------- The single-indirect part ----------

  ghost function IndFrom(start: nat): set<Slot> {
    (set j | start <= j < NINDIRECT :: IndEntry(j)) + (if start == 0 then {Ind} else {})
  }

  /** Frees the blocks of the indirect table from an entry on, and the table itself when that is all of it. */
  method DropInd(fs: FileSystem, n: nat, start: nat)
    requires Inv(fs.g, fs.S()) && n < |fs.inodes| && start <= NINDIRECT
    modifies fs
    ensures Dropped(fs.g, old(fs.S()), fs.S(), n, IndFrom(start))
  {
    hide At, Bit, Inv, Freed, MarkFree, DataSame, BitsLost, Word, SetWord, Cleared, Dropped, DataSameBut, IndFrom, SameSizes;
    ghost var st := fs.S();
    DiskLen(fs.g, st);
    IndAddr(st, n);
    var t := fs.inodes[n].addrs[NDIRECT];
    if t == 0 {
      NoInd(fs.g, st, n, start);
      return;
    }
    MappedData(fs.g, st);
    NothingFreed(fs.g, st, n);
    ClearedStart(fs.disk[t], start);
    ghost var gone: set<Slot> := {};
    var a, modified := fs.disk[t], false;
    var j := start;
    while j < NINDIRECT
      invariant start <= j <= NINDIRECT && DiskOk(fs.g, fs.disk) && fs.inodes == st.inodes
      invariant gone == set k | start <= k < j :: IndEntry(k)
      invariant BitsLost(fs.g, st.disk, fs.disk, Freed(st, n, gone)) && DataSame(fs.g, st.disk, fs.disk)
      invariant Cleared(st.disk[t], a, start, j)
      invariant !modified ==> a == st.disk[t]
    {
      ClearedStep(st.disk[t], a, start, j);
      TableAt(st, n, Ind, IndEntry(j));
      if Word(a, j) != 0 {
        ghost var d := fs.disk;
        FreeOne(fs.g, st, n, gone, d, IndEntry(j));
        fs.Bfree(Word(a, j));
        DataSameTrans(fs.g, st.disk, d, fs.disk);
        LostOk(fs.g, st.disk, fs.disk, Freed(st, n, gone + {IndEntry(j)}));
        a, modified := SetWord(a, j, 0), true;
      } else {
        SkipOne(fs.g, st, n, gone, IndEntry(j));
      }
      gone := gone + {IndEntry(j)};
      j := j + 1;
    }
    ghost var d1 := fs.disk;
    if modified && start > 0 {
      fs.disk := fs.disk[t := a];
    }
    if start == 0 {
      FreeOne(fs.g, st, n, gone, fs.disk, Ind);
      fs.Bfree(t);
      DataSameTrans(fs.g, st.disk, d1, fs.disk);
      fs.inodes := fs.inodes[n := fs.inodes[n].(addrs := fs.inodes[n].addrs[NDIRECT := 0])];
      gone := gone + {Ind};
      WholeInd(fs.g, st, fs.S(), n, gone);
    } else {
      PartInd(fs.g, st, d1, fs.S(), n, start, t, a, modified, gone);
    }
  }

  lemma IndAddr(st: St, n: nat)
    requires n < |st.inodes|
    ensures RefOk(st, Ref(n, Ind)) && At(st, Ref(n, Ind)) == st.inodes[n].addrs[NDIRECT]
    ensures RefOk(st, Ref(n, Dind)) && At(st, Ref(n, Dind)) == st.inodes[n].addrs[NDIRECT + 1]
  {}

  lemma NoInd(g: Geometry, st: St, n: nat, start: nat)
    requires Inv(g, st) && n < |st.inodes| && st.inodes[n].addrs[NDIRECT] == 0
    ensures Dropped(g, st, st, n, IndFrom(start))
  {}

  /** An entry read from the table block is the slot's address. */
  lemma TableAt(st: St, n: nat, p: Slot, s: Slot)
    requires n < |st.inodes| && SlotOk(s) && !InInode(s) && Parent(s) == p && 0 < At(st, Ref(n, p)) < |st.disk|
    ensures At(st, Ref(n, s)) == Word(st.disk[At(st, Ref(n, p))], EntryIndex(s)) && RefOk(st, Ref(n, s))
  {}

  lemma WholeInd(g: Geometry, st: St, st': St, n: nat, gone: set<Slot>)
    requires Inv(g, st) && n < |st.inodes| && st.inodes[n].addrs[NDIRECT] != 0
    requires gone == (set k | 0 <= k < NINDIRECT :: IndEntry(k)) + {Ind}
    requires BitsLost(g, st.disk, st'.disk, Freed(st, n, gone)) && DataSame(g, st.disk, st'.disk)
    requires st'.inodes == st.inodes[n := st.inodes[n].(addrs := st.inodes[n].addrs[NDIRECT := 0])]
    ensures gone == IndFrom(0) && Dropped(g, st, st', n, IndFrom(0))
  {
    hide Bit, Freed;
    forall r | RefOk(st, r) ensures RefOk(st', r) && At(st', r) == if r.n == n && r.s in gone then 0 else At(st, r) {
      DiskOnly(g, st, st'.disk, r);
      IndOnly(st.(disk := st'.disk), st', r, n, gone);
    }
    FinishDrop(g, st, st', n, gone, Ref(n, Ind));
  }

  lemma IndOnly(st: St, st': St, r: Ref, n: nat, gone: set<Slot>)
    requires st'.disk == st.disk && RefOk(st, r) && n < |st.inodes|
    requires gone == (set k | 0 <= k < NINDIRECT :: IndEntry(k)) + {Ind}
    requires st'.inodes == st.inodes[n := st.inodes[n].(addrs := st.inodes[n].addrs[NDIRECT := 0])]
    ensures RefOk(st', r) && At(st', r) == if r.n == n && r.s in gone then 0 else At(st, r)
  {}

  lemma PartInd(g: Geometry, st: St, d1: Disk, st': St, n: nat, start: nat, t: nat, a: Block, modified: bool, gone: set<Slot>)
    requires Inv(g, st) && n < |st.inodes| && st.inodes[n].addrs[NDIRECT] == t && t != 0 && start > 0 && t < |st.disk|
    requires DataSame(g, st.disk, d1) && DiskOk(g, d1)
    requires st' == St(if modified then d1[t := a] else d1, st.inodes)
    requires gone == set k | start <= k < NINDIRECT :: IndEntry(k)
    requires BitsLost(g, st.disk, d1, Freed(st, n, gone))
    requires Cleared(st.disk[t], a, start, NINDIRECT) && (!modified ==> a == st.disk[t])
    ensures Dropped(g, st, st', n, IndFrom(start))
  {
    hide Bit, Freed, Word, Dropped, At;
    assert gone == IndFrom(start);
    IndAddr(st, n);
    MappedData(g, st);
    assert st'.disk[t] == a;
    forall r | RefOk(st, r) ensures RefOk(st', r) && At(st', r) == if r.n == n && r.s in gone then 0 else At(st, r) {
      RewriteTable(g, st, st'.disk, n, Ind, r);
      if r.n == n && !InInode(r.s) && Parent(r.s) == Ind { TableAt(st, n, Ind, r.s); }
    }
    BitsWrite(g, st.disk, d1, st'.disk, Freed(st, n, gone), t);
    FinishDrop(g, st, st', n, gone, Ref(n, Ind));
  }

  /** Writing a data or table block loses no bit. */
  lemma BitsWrite(g: Geometry, d0: Disk, d1: Disk, d2: Disk, freed: set<nat>, t: nat)
    requires DiskOk(g, d0) && BitsLost(g, d0, d1, freed) && g.datastart <= t < |d1| && |d2| == |d1|
    requires forall k: nat :: k < |d1| && k != t ==> d2[k] == d1[k]
    ensures BitsLost(g, d0, d2, freed)
  {}

  // ---------- The double-indirect part ----------

  /** Entry j of second-level table m lies before the cut. */
  predicate Before(start: nat, m: nat, j: nat) { NINDIRECT * m + j < start }

  /** The second-level table m is given back: it is not below the cut and holds nothing before it. */
  ghost predicate MidGone(st: St, n: nat, start: nat, m: nat)
    requires n < |st.inodes| && m < NINDIRECT
  {
    m >= start / NINDIRECT && forall j: nat :: j < NINDIRECT && At(st, Ref(n, DindEntry(m, j))) != 0 ==> !Before(start, m, j)
  }

  ghost function EntriesGone(start: nat, m: nat): set<Slot> {
    set j | 0 <= j < NINDIRECT && !Before(start, m, j) :: DindEntry(m, j)
  }

  /** Slots given back among the first hi second-level tables. */
  ghost function DindGone(st: St, n: nat, start: nat, hi: nat): set<Slot>
    requires n < |st.inodes| && hi <= NINDIRECT
    decreases hi
  {
    if hi == 0 then {}
    else DindGone(st, n, start, hi - 1) + EntriesGone(start, hi - 1) + (if MidGone(st, n, start, hi - 1) then {Mid(hi - 1)} else {})
  }

  /** Some second-level table among the first hi stays. */
  ghost predicate SomeKept(st: St, n: nat, start: nat, hi: nat)
    requires n < |st.inodes| && hi <= NINDIRECT
  { exists m: nat :: m < hi && At(st, Ref(n, Mid(m))) != 0 && !MidGone(st, n, start, m) }

  /** The first-level table stays although a second-level table it names is given back.
      It is released without being written in that case, so on disk it keeps the stale number. */
  ghost predicate StaleTop(st: St, n: nat, start: nat)
    requires n < |st.inodes|
  {
    SomeKept(st, n, start, NINDIRECT) && exists m: nat :: m < NINDIRECT && At(st, Ref(n, Mid(m))) != 0 && MidGone(st, n, start, m)
  }

  ghost function DindFrom(st: St, n: nat, start: nat): set<Slot>
    requires n < |st.inodes|
  { DindGone(st, n, start, NINDIRECT) + (if SomeKept(st, n, start, NINDIRECT) then {} else {Dind}) }

  lemma {:induction false} DindGoneIs(st: St, n: nat, start: nat, hi: nat, s: Slot)
    requires n < |st.inodes| && hi <= NINDIRECT && SlotOk(s)
    ensures s in DindGone(st, n, start, hi) <==>
              (s.DindEntry? && s.m < hi && !Before(start, s.m, s.j)) || (s.Mid? && s.m < hi && MidGone(st, n, start, s.m))
    decreases hi
  {
    hide MidGone;
    if hi > 0 { DindGoneIs(st, n, start, hi - 1, s); }
  }

  /** Second-level table m has no entry before hi. */
  ghost predicate NoneBelow(st: St, n: nat, m: nat, hi: nat)
    requires n < |st.inodes| && m < NINDIRECT && hi <= NINDIRECT
  { forall j: nat :: j < hi ==> At(st, Ref(n, DindEntry(m, j))) == 0 }

  lemma NoneStart(st: St, n: nat, m: nat)
    requires n < |st.inodes| && m < NINDIRECT
    ensures NoneBelow(st, n, m, 0)
  {}

  lemma NoneStep(st: St, n: nat, m: nat, j: nat)
    requires n < |st.inodes| && m < NINDIRECT && j < NINDIRECT
    ensures NoneBelow(st, n, m, j + 1) <==> NoneBelow(st, n, m, j) && At(st, Ref(n, DindEntry(m, j))) == 0
  {}

  /** Frees the entries of one second-level table from start2 on, zeroing them in the buffer blk;
      inner tells whether nothing stays before them. */
  method ClearMid(fs: FileSystem, addr: nat, start2: nat, ghost n: nat, ghost m: nat, ghost st: St, ghost gone: set<Slot>)
    returns (blk: Block, inner: bool, ghost gone': set<Slot>)
    requires Inv(fs.g, st) && n < |st.inodes| && m < NINDIRECT && start2 <= NINDIRECT && DiskOk(fs.g, fs.disk)
    requires 0 < At(st, Ref(n, Mid(m))) == addr < |st.disk| && fs.disk[At(st, Ref(n, Mid(m)))] == st.disk[At(st, Ref(n, Mid(m)))]
    requires BitsLost(fs.g, st.disk, fs.disk, Freed(st, n, gone))
    modifies fs`disk
    ensures DiskOk(fs.g, fs.disk) && gone' == gone + set j | start2 <= j < NINDIRECT :: DindEntry(m, j)
    ensures BitsLost(fs.g, st.disk, fs.disk, Freed(st, n, gone')) && DataSame(fs.g, old(fs.disk), fs.disk)
    ensures Cleared(st.disk[At(st, Ref(n, Mid(m)))], blk, start2, NINDIRECT)
    ensures inner <==> NoneBelow(st, n, m, start2)
  {
    hide At, Bit, Inv, Freed, MarkFree, DataSame, BitsLost, Word, SetWord, Cleared, NoneBelow;
    DiskLen(fs.g, st);
    ghost var t, d0 := At(st, Ref(n, Mid(m))), fs.disk;
    blk, inner, gone' := fs.disk[addr], true, gone;
    ClearedStart(blk, start2);
    DataSameRefl(fs.g, d0);
    NoneStart(st, n, m);
    var j := 0;
    while j < NINDIRECT
      invariant 0 <= j <= NINDIRECT && DiskOk(fs.g, fs.disk)
      invariant gone' == gone + set k | start2 <= k < j :: DindEntry(m, k)
      invariant BitsLost(fs.g, st.disk, fs.disk, Freed(st, n, gone')) && DataSame(fs.g, d0, fs.disk)
      invariant Cleared(st.disk[t], blk, start2, if j < start2 then start2 else j)
      invariant inner <==> NoneBelow(st, n, m, Min(j, start2))
    {
      TableAt(st, n, Mid(m), DindEntry(m, j));
      NoneStep(st, n, m, j);
      if j < start2 {
        ClearedBelow(st.disk[t], blk, start2, start2, j);
        if Word(blk, j) != 0 { inner := false; }
      } else {
        ClearedStep(st.disk[t], blk, start2, j);
        if Word(blk, j) != 0 {
          ghost var d := fs.disk;
          FreeOne(fs.g, st, n, gone', d, DindEntry(m, j));
          fs.Bfree(Word(blk, j));
          DataSameTrans(fs.g, d0, d, fs.disk);
          LostOk(fs.g, st.disk, fs.disk, Freed(st, n, gone' + {DindEntry(m, j)}));
          blk := SetWord(blk, j, 0);
        } else {
          SkipOne(fs.g, st, n, gone', DindEntry(m, j));
        }
        gone' := gone' + {DindEntry(m, j)};
      }
      j := j + 1;
    }
  }

  lemma DataSameRefl(g: Geometry, d: Disk)
    ensures DataSame(g, d, d)
  {}

  lemma ClearedBelow(b0: Block, b1: Block, lo: nat, hi: nat, j: nat)
    requires Cleared(b0, b1, lo, hi) && j < NINDIRECT && j < lo
    ensures Word(b1, j) == Word(b0, j)
  {}

  /** What the loop over the first-level table has done to the disk after hi entries. */
  ghost predicate DindLoop(g: Geometry, st: St, d: Disk, n: nat, start: nat, hi: nat)
    requires n < |st.inodes| && hi <= NINDIRECT && DiskOk(g, st.disk)
  {
    var idx := start / NINDIRECT;
    && BitsLost(g, st.disk, d, Freed(st, n, DindGone(st, n, start, hi)))
    && if idx < hi && At(st, Ref(n, Mid(idx))) != 0 && !MidGone(st, n, start, idx)
       then
         var t := At(st, Ref(n, Mid(idx)));
         DataSameBut(g, st.disk, d, t) && t < |d| && t < |st.disk| && Cleared(st.disk[t], d[t], start % NINDIRECT, NINDIRECT)
       else DataSame(g, st.disk, d)
  }

  lemma LoopStart(g: Geometry, st: St, n: nat, start: nat)
    requires DiskOk(g, st.disk) && n < |st.inodes|
    ensures DindLoop(g, st, st.disk, n, start, 0) && !SomeKept(st, n, start, 0)
  {}

  /** An empty first-level entry, or one below the cut: nothing to do. */
  lemma LoopSkip(g: Geometry, st: St, d: Disk, n: nat, start: nat, m: nat)
    requires Inv(g, st) && n < |st.inodes| && m < NINDIRECT && DindLoop(g, st, d, n, start, m)
    requires At(st, Ref(n, Mid(m))) == 0 || m < start / NINDIRECT
    ensures DindLoop(g, st, d, n, start, m + 1)
    ensures SomeKept(st, n, start, m + 1) <==> SomeKept(st, n, start, m) || At(st, Ref(n, Mid(m))) != 0
  {
    hide At, Bit, BitsLost, DataSame, Cleared;
    forall j: nat | j < NINDIRECT && !Before(start, m, j) ensures At(st, Ref(n, DindEntry(m, j))) == 0 {
      EmptyMid(st, n, m, j);
      assert m < start / NINDIRECT ==> Before(start, m, j);
    }
    assert Freed(st, n, DindGone(st, n, start, m + 1)) == Freed(st, n, DindGone(st, n, start, m));
  }

  lemma EmptyMid(st: St, n: nat, m: nat, j: nat)
    requires n < |st.inodes| && m < NINDIRECT && j < NINDIRECT
    ensures At(st, Ref(n, Mid(m))) == 0 ==> At(st, Ref(n, DindEntry(m, j))) == 0
  {}

  /** The second-level table read is still the original one. */
  lemma LoopReads(g: Geometry, st: St, d: Disk, n: nat, start: nat, m: nat)
    requires Inv(g, st) && n < |st.inodes| && m < NINDIRECT && DindLoop(g, st, d, n, start, m) && At(st, Ref(n, Mid(m))) != 0
    ensures At(st, Ref(n, Mid(m))) < |st.disk| == |d| && d[At(st, Ref(n, Mid(m)))] == st.disk[At(st, Ref(n, Mid(m)))]
    ensures DiskOk(g, d)
  {
    hide At, Bit, DindGone, Freed, MidGone, Cleared;
    MappedData(g, st);
    assert RefOk(st, Ref(n, Mid(m)));
    if start / NINDIRECT < m && At(st, Ref(n, Mid(start / NINDIRECT))) != 0 { TablesApart(g, st, Ref(n, Mid(start / NINDIRECT)), Ref(n, Mid(m))); }
  }

  /** The first-level table is not touched by the loop. */
  lemma TopReads(g: Geometry, st: St, d: Disk, n: nat, start: nat, hi: nat, m: nat)
    requires Inv(g, st) && n < |st.inodes| && hi <= NINDIRECT && DindLoop(g, st, d, n, start, hi) && At(st, Ref(n, Dind)) != 0 && m < NINDIRECT
    ensures At(st, Ref(n, Dind)) < |st.disk| == |d| && Word(d[At(st, Ref(n, Dind))], m) == At(st, Ref(n, Mid(m)))
    ensures d[At(st, Ref(n, Dind))] == st.disk[At(st, Ref(n, Dind))]
    ensures RefOk(st, Ref(n, Dind)) && DiskOk(g, d)
  {
    hide At, Bit, DindGone, Freed, MidGone, Cleared, Word;
    MappedData(g, st);
    assert RefOk(st, Ref(n, Dind));
    TableAt(st, n, Dind, Mid(m));
    if start / NINDIRECT < hi && At(st, Ref(n, Mid(start / NINDIRECT))) != 0 {
      TablesApart(g, st, Ref(n, Mid(start / NINDIRECT)), Ref(n, Dind));
    }
  }

  lemma StartOf(start: nat, m: nat)
    requires m >= start / NINDIRECT
    ensures var s2 := if m == start / NINDIRECT then start % NINDIRECT else 0;
            forall j: nat :: j < NINDIRECT ==> (Before(start, m, j) <==> j < s2)
  {}

  /** A processed second-level table: given back when nothing stays in it, otherwise written back. */
  lemma LoopEmptied(g: Geometry, st: St, d: Disk, d1: Disk, d2: Disk, n: nat, start: nat, m: nat, start2: nat, gone: set<Slot>)
    requires Inv(g, st) && n < |st.inodes| && m < NINDIRECT && DindLoop(g, st, d, n, start, m) && m >= start / NINDIRECT
    requires start2 == (if m == start / NINDIRECT then start % NINDIRECT else 0) && At(st, Ref(n, Mid(m))) != 0
    requires gone == DindGone(st, n, start, m) + set j | start2 <= j < NINDIRECT :: DindEntry(m, j)
    requires BitsLost(g, st.disk, d1, Freed(st, n, gone)) && DataSame(g, d, d1)
    requires forall j: nat :: j < start2 ==> At(st, Ref(n, DindEntry(m, j))) == 0
    requires d2 == MarkFree(g, d1, At(st, Ref(n, Mid(m))))
    requires BitsLost(g, st.disk, d2, Freed(st, n, gone + {Mid(m)})) && DataSame(g, d1, d2)
    ensures DindLoop(g, st, d2, n, start, m + 1)
    ensures SomeKept(st, n, start, m + 1) <==> SomeKept(st, n, start, m)
  {
    hide At, Bit, Freed, Cleared, MarkFree;
    StartOf(start, m);
    assert MidGone(st, n, start, m);
    assert gone + {Mid(m)} == DindGone(st, n, start, m + 1);
  }

  lemma LoopKept(g: Geometry, st: St, d: Disk, d1: Disk, d2: Disk, n: nat, start: nat, m: nat, start2: nat, gone: set<Slot>, blk: Block)
    requires Inv(g, st) && n < |st.inodes| && m < NINDIRECT && DindLoop(g, st, d, n, start, m) && m >= start / NINDIRECT
    requires start2 == (if m == start / NINDIRECT then start % NINDIRECT else 0) && 0 < At(st, Ref(n, Mid(m))) < |d1|
    requires gone == DindGone(st, n, start, m) + set j | start2 <= j < NINDIRECT :: DindEntry(m, j)
    requires BitsLost(g, st.disk, d1, Freed(st, n, gone)) && DataSame(g, d, d1)
    requires exists j: nat :: j < start2 && At(st, Ref(n, DindEntry(m, j))) != 0
    requires At(st, Ref(n, Mid(m))) < |st.disk| && Cleared(st.disk[At(st, Ref(n, Mid(m)))], blk, start2, NINDIRECT)
    requires d2 == d1[At(st, Ref(n, Mid(m))) := blk]
    ensures DindLoop(g, st, d2, n, start, m + 1)
    ensures SomeKept(st, n, start, m + 1)
  {
    hide At, Bit, Freed, Cleared;
    StartOf(start, m);
    var j: nat :| j < start2 && At(st, Ref(n, DindEntry(m, j))) != 0;
    assert !MidGone(st, n, start, m);
    assert gone == DindGone(st, n, start, m + 1);
    MappedData(g, st);
    assert RefOk(st, Ref(n, Mid(m)));
    BitsWrite(g, st.disk, d1, d2, Freed(st, n, gone), At(st, Ref(n, Mid(m))));
  }

  /** The first-level table with the numbers of the second-level tables given back, among the first hi, zeroed. */
  ghost predicate TopCleared(st: St, n: nat, start: nat, blk: Block, a: Block, hi: nat)
    requires n < |st.inodes| && hi <= NINDIRECT
  {
    && (forall m: nat :: m < NINDIRECT ==> Word(a, m) == if m < hi && MidGone(st, n, start, m) then 0 else Word(blk, m))
    && ((forall m: nat :: m < hi && MidGone(st, n, start, m) ==> At(st, Ref(n, Mid(m))) == 0) ==> a == blk)
  }

  lemma TopStart(st: St, n: nat, start: nat, blk: Block)
    requires n < |st.inodes|
    ensures TopCleared(st, n, start, blk, blk, 0)
  {}

  /** One more number: zeroed if its table was given back, otherwise left. */
  lemma TopStep(st: St, n: nat, start: nat, blk: Block, a: Block, m: nat)
    requires n < |st.inodes| && m < NINDIRECT && TopCleared(st, n, start, blk, a, m) && Word(blk, m) == At(st, Ref(n, Mid(m)))
    ensures Word(a, m) == Word(blk, m)
    ensures MidGone(st, n, start, m) && Word(a, m) != 0 ==> TopCleared(st, n, start, blk, SetWord(a, m, 0), m + 1)
    ensures !MidGone(st, n, start, m) || Word(a, m) == 0 ==> TopCleared(st, n, start, blk, a, m + 1)
  {
    hide Word, SetWord, MidGone, At;
    forall k: nat | k < NINDIRECT ensures Word(SetWord(a, m, 0), k) == if k == m then 0 else Word(a, k) { WordSet(a, m, 0, k); }
  }

  /** Frees the double-indirect blocks from an entry on, the second-level tables this empties, and
      the first-level table when none is left. A first-level table that stays is changed in its buffer,
      which is released unwritten: cached is the disk with that buffer in place of its block. There the
      truncation is as it should be. On the disk it is, if and only if the first-level table is not left
      naming a table that was given back. */
  method DropDind(fs: FileSystem, n: nat, start: nat) returns (cached: Disk)
    requires Inv(fs.g, fs.S()) && n < |fs.inodes|
    modifies fs
    ensures Dropped(fs.g, old(fs.S()), St(cached, fs.inodes), n, DindFrom(old(fs.S()), n, start))
    ensures !StaleTop(old(fs.S()), n, start) ==> cached == fs.disk
    ensures StaleTop(old(fs.S()), n, start) ==> !Inv(fs.g, fs.S()) && OnlyTop(fs.S(), n, cached)
  {
    hide At, Bit, Inv, Freed, MarkFree, DataSame, BitsLost, Word, SetWord, Cleared, Dropped, DataSameBut, DindLoop, DindGone, SomeKept, StaleTop, DindFrom, MidGone, TopCleared;
    ghost var st := fs.S();
    DiskLen(fs.g, st);
    IndAddr(st, n);
    var top := fs.inodes[n].addrs[NDIRECT + 1];
    cached := fs.disk;
    if top == 0 {
      NoDind(fs.g, st, n, start);
      return;
    }
    MappedData(fs.g, st);
    LoopStart(fs.g, st, n, start);
    var idx1, idx2 := start / NINDIRECT, start % NINDIRECT;
    var a, allFreed := fs.disk[top], true;
    TopStart(st, n, start, a);
    var i := 0;
    while i < NINDIRECT
      invariant 0 <= i <= NINDIRECT && fs.inodes == st.inodes && DiskOk(fs.g, fs.disk)
      invariant DindLoop(fs.g, st, fs.disk, n, start, i) && TopCleared(st, n, start, st.disk[top], a, i)
      invariant allFreed <==> !SomeKept(st, n, start, i)
    {
      TopReads(fs.g, st, fs.disk, n, start, i, i);
      TopStep(st, n, start, st.disk[top], a, i);
      if Word(a, i) == 0 || i < idx1 {
        if i < idx1 { BelowKept(st, n, start, i); }
        LoopSkip(fs.g, st, fs.disk, n, start, i);
        if Word(a, i) != 0 { allFreed := false; }
      } else {
        LoopReads(fs.g, st, fs.disk, n, start, i);
        var start2 := if i == idx1 then idx2 else 0;
        ghost var d, before := fs.disk, DindGone(st, n, start, i);
        var blk, inner;
        ghost var gone;
        LoopBits(fs.g, st, d, n, start, i);
        blk, inner, gone := ClearMid(fs, Word(a, i), start2, n, i, st, before);
        InnerIs(st, n, start, i, start2);
        ghost var d1 := fs.disk;
        if inner {
          FreeOne(fs.g, st, n, gone, d1, Mid(i));
          fs.Bfree(Word(a, i));
          LoopEmptied(fs.g, st, d, d1, fs.disk, n, start, i, start2, gone);
          LostOk(fs.g, st.disk, fs.disk, Freed(st, n, gone + {Mid(i)}));
          a := SetWord(a, i, 0);
        } else {
          fs.disk := fs.disk[Word(a, i) := blk];
          LoopKept(fs.g, st, d, d1, fs.disk, n, start, i, start2, gone, blk);
          allFreed := false;
        }
      }
      i := i + 1;
    }
    if allFreed {
      LoopBits(fs.g, st, fs.disk, n, start, NINDIRECT);
      ghost var d := fs.disk;
      FreeOne(fs.g, st, n, DindGone(st, n, start, NINDIRECT), d, Dind);
      fs.Bfree(top);
      fs.inodes := fs.inodes[n := fs.inodes[n].(addrs := fs.inodes[n].addrs[NDIRECT + 1 := 0])];
      WholeDind(fs.g, st, d, fs.S(), n, start);
      cached := fs.disk;
    } else {
      TopReads(fs.g, st, fs.disk, n, start, NINDIRECT, 0);
      cached := fs.disk[top := a];
      PartDind(fs.g, st, fs.S(), n, start, a);
    }
  }

  /** d is the disk with another block in place of inode n's first-level table. */
  ghost predicate OnlyTop(st: St, n: nat, d: Disk)
    requires n < |st.inodes|
  {
    var t := st.inodes[n].addrs[NDIRECT + 1];
    t < |st.disk| == |d| && d == st.disk[t := d[t]]
  }

  lemma BelowKept(st: St, n: nat, start: nat, m: nat)
    requires n < |st.inodes| && m < NINDIRECT && m < start / NINDIRECT
    ensures !MidGone(st, n, start, m)
  {}

  /** The second-level table is given back exactly when it holds nothing before the cut. */
  lemma InnerIs(st: St, n: nat, start: nat, m: nat, start2: nat)
    requires n < |st.inodes| && m < NINDIRECT && m >= start / NINDIRECT
    requires start2 == (if m == start / NINDIRECT then start % NINDIRECT else 0)
    ensures NoneBelow(st, n, m, start2) <==> MidGone(st, n, start, m)
  {}

  lemma LoopBits(g: Geometry, st: St, d: Disk, n: nat, start: nat, hi: nat)
    requires n < |st.inodes| && hi <= NINDIRECT && DiskOk(g, st.disk) && DindLoop(g, st, d, n, start, hi)
    ensures BitsLost(g, st.disk, d, Freed(st, n, DindGone(st, n, start, hi)))
  {}

  lemma NoDind(g: Geometry, st: St, n: nat, start: nat)
    requires Inv(g, st) && n < |st.inodes| && At(st, Ref(n, Dind)) == 0
    ensures !StaleTop(st, n, start) && Dropped(g, st, st, n, DindFrom(st, n, start))
  {
    hide Dropped, Inv, MidGone, DindGone;
    forall s | s in DindFrom(st, n, start) && SlotOk(s) ensures At(st, Ref(n, s)) == 0 {
      DindGoneIs(st, n, start, NINDIRECT, s);
    }
    DropNothing(g, st, n, DindFrom(st, n, start));
  }

  lemma WholeDind(g: Geometry, st: St, d: Disk, st': St, n: nat, start: nat)
    requires DiskOk(g, st.disk) && n < |st.inodes|
    requires st'.inodes == st.inodes[n := st.inodes[n].(addrs := st.inodes[n].addrs[NDIRECT + 1 := 0])]
    requires BitsLost(g, st.disk, st'.disk, Freed(st, n, DindGone(st, n, start, NINDIRECT) + {Dind}))
    requires At(st, Ref(n, Dind)) != 0 && DataSame(g, d, st'.disk) && !SomeKept(st, n, start, NINDIRECT)
    requires DindLoop(g, st, d, n, start, NINDIRECT) && Inv(g, st)
    ensures !StaleTop(st, n, start) && Dropped(g, st, st', n, DindFrom(st, n, start))
  {
    hide At, Bit, Freed, DindGone, MidGone, Cleared;
    DataSameTrans(g, st.disk, d, st'.disk);
    var gone := DindFrom(st, n, start);
    forall r | RefOk(st, r) ensures RefOk(st', r) && At(st', r) == if r.n == n && r.s in gone then 0 else At(st, r) {
      DiskOnly(g, st, st'.disk, r);
      DindGoneIs(st, n, start, NINDIRECT, r.s);
      DindOnly(st.(disk := st'.disk), st', r, n);
      if r.n == n && r.s.Mid? { assert r == Ref(n, r.s); }
      if r.n == n && r.s.DindEntry? { EntryUnderKept(st, n, start, r); }
    }
    IndAddr(st, n);
    FinishDrop(g, st, st', n, gone, Ref(n, Dind));
  }

  /** With no second-level table kept, an entry before the cut was empty already. */
  lemma EntryUnderKept(st: St, n: nat, start: nat, r: Ref)
    requires n < |st.inodes| && !SomeKept(st, n, start, NINDIRECT) && RefOk(st, r) && r.n == n && r.s.DindEntry?
    ensures At(st, r) != 0 ==> !Before(start, r.s.m, r.s.j)
  {
    hide At;
    EmptyMid(st, n, r.s.m, r.s.j);
    assert r == Ref(n, DindEntry(r.s.m, r.s.j));
  }

  lemma DindOnly(st: St, st': St, r: Ref, n: nat)
    requires st'.disk == st.disk && RefOk(st, r) && n < |st.inodes|
    requires st'.inodes == st.inodes[n := st.inodes[n].(addrs := st.inodes[n].addrs[NDIRECT + 1 := 0])]
    ensures RefOk(st', r)
    ensures At(st', r) == if r.n == n && (r.s.Dind? || r.s.Mid? || r.s.DindEntry?) then 0 else At(st, r)
  {}

  lemma PartDind(g: Geometry, st: St, st': St, n: nat, start: nat, a: Block)
    requires Inv(g, st) && n < |st.inodes| && 0 < At(st, Ref(n, Dind)) < |st.disk| == |st'.disk|
    requires DindLoop(g, st, st'.disk, n, start, NINDIRECT) && TopCleared(st, n, start, st.disk[At(st, Ref(n, Dind))], a, NINDIRECT)
    requires SomeKept(st, n, start, NINDIRECT) && st'.inodes == st.inodes && st'.disk[At(st, Ref(n, Dind))] == st.disk[At(st, Ref(n, Dind))]
    ensures Dropped(g, st, st'.(disk := st'.disk[At(st, Ref(n, Dind)) := a]), n, DindFrom(st, n, start))
    ensures !StaleTop(st, n, start) ==> st'.disk[At(st, Ref(n, Dind)) := a] == st'.disk
    ensures StaleTop(st, n, start) ==> !Inv(g, st')
  {
    hide At, Bit, Freed, DindGone, MidGone, Cleared, Inv, Word, DindFrom;
    DiskLen(g, st);
    if StaleTop(st, n, start) { StaleBreaks(g, st, st', n, start); }
    var st2 := st'.(disk := st'.disk[At(st, Ref(n, Dind)) := a]);
    forall r | RefOk(st, r) ensures RefOk(st2, r) && At(st2, r) == if r.n == n && r.s in DindFrom(st, n, start) then 0 else At(st, r) {
      PartAt(g, st, st'.disk, n, start, a, r);
    }
    PartFinish(g, st, st'.disk, st2, n, start);
  }

  lemma PartFinish(g: Geometry, st: St, d: Disk, st2: St, n: nat, start: nat)
    requires Inv(g, st) && n < |st.inodes| && 0 < At(st, Ref(n, Dind)) < |d| && DindLoop(g, st, d, n, start, NINDIRECT)
    requires SomeKept(st, n, start, NINDIRECT) && st2.inodes == st.inodes && |st2.disk| == |d|
    requires forall k :: 0 <= k < |d| && k != At(st, Ref(n, Dind)) ==> st2.disk[k] == d[k]
    requires forall r :: RefOk(st, r) ==> RefOk(st2, r) && At(st2, r) == if r.n == n && r.s in DindFrom(st, n, start) then 0 else At(st, r)
    ensures Dropped(g, st, st2, n, DindFrom(st, n, start))
  {
    hide At, Bit, Freed, DindGone, MidGone, Cleared;
    IndAddr(st, n);
    MappedData(g, st);
    assert DindFrom(st, n, start) == DindGone(st, n, start, NINDIRECT);
    BitsWrite(g, st.disk, d, st2.disk, Freed(st, n, DindGone(st, n, start, NINDIRECT)), At(st, Ref(n, Dind)));
    DropKeeps(g, st, st2, n, DindFrom(st, n, start));
    forall r | RefOk(st, r) && !IsTable(r.s) && At(st, r) != 0 && !(r.n == n && r.s in DindFrom(st, n, start))
      ensures At(st, r) < |st.disk| == |st2.disk| && st2.disk[At(st, r)] == st.disk[At(st, r)]
    {
      TablesApart(g, st, Ref(n, Dind), r);
      if start / NINDIRECT < NINDIRECT && At(st, Ref(n, Mid(start / NINDIRECT))) != 0 { TablesApart(g, st, Ref(n, Mid(start / NINDIRECT)), r); }
    }
  }

  /** Zeroing numbers in the first-level table unmaps those second-level tables and what they hold. */
  lemma RewriteTop(g: Geometry, st: St, n: nat, start: nat, a: Block, r: Ref)
    requires Inv(g, st) && n < |st.inodes| && 0 < At(st, Ref(n, Dind)) < |st.disk| && RefOk(st, r)
    requires TopCleared(st, n, start, st.disk[At(st, Ref(n, Dind))], a, NINDIRECT)
    ensures var s1 := st.(disk := st.disk[At(st, Ref(n, Dind)) := a]);
            RefOk(s1, r) && At(s1, r) == if r.n == n && (r.s.Mid? || r.s.DindEntry?) && MidGone(st, n, start, r.s.m) then 0 else At(st, r)
  {
    hide At, Word, Inv, MidGone;
    var top := Ref(n, Dind);
    var s1 := st.(disk := st.disk[At(st, top) := a]);
    SameInInode(st, s1);
    if !InInode(r.s) {
      AtEntry(st, r);
      AtEntry(s1, r);
      var q := Ref(r.n, Parent(r.s));
      TablesApart(g, st, top, q);
      if !InInode(q.s) {
        AtEntry(st, q);
        AtEntry(s1, q);
        var p := Ref(q.n, Parent(q.s));
        TablesApart(g, st, top, p);
        TopEntry(st, s1, At(st, top), At(st, p), a, EntryIndex(q.s));
      }
      TopEntry(st, s1, At(st, top), At(st, q), a, EntryIndex(r.s));
    }
  }

  lemma TopEntry(st: St, s1: St, top: nat, t: nat, a: Block, j: nat)
    requires 0 < top < |st.disk| && s1.disk == st.disk[top := a] && j < NINDIRECT
    ensures Entry(s1.disk, t, j) == if t == top then Word(a, j) else Entry(st.disk, t, j)
    ensures Entry(st.disk, top, j) == Word(st.disk[top], j) && Entry(s1.disk, 0, j) == 0
  {}

  /** Unmapping slots without freeing anything keeps the invariant. */
  lemma FewerInv(g: Geometry, st: St, st': St)
    requires Inv(g, st) && |st'.inodes| == |st.inodes| && DiskOk(g, st'.disk)
    requires forall r :: RefOk(st, r) ==> At(st', r) == 0 || At(st', r) == At(st, r)
    requires forall c: nat :: c < g.size ==> (Bit(g, st'.disk, c) <==> Bit(g, st.disk, c))
    ensures Inv(g, st')
  {}

  lemma TopInv(g: Geometry, st: St, n: nat, start: nat, a: Block)
    requires Inv(g, st) && n < |st.inodes| && 0 < At(st, Ref(n, Dind)) < |st.disk|
    requires TopCleared(st, n, start, st.disk[At(st, Ref(n, Dind))], a, NINDIRECT)
    ensures Inv(g, st.(disk := st.disk[At(st, Ref(n, Dind)) := a]))
  {
    hide At, Bit, MidGone, Word, TopCleared, Inv;
    DiskLen(g, st);
    MappedData(g, st);
    assert RefOk(st, Ref(n, Dind));
    var s1 := st.(disk := st.disk[At(st, Ref(n, Dind)) := a]);
    forall r | RefOk(st, r) ensures At(s1, r) == 0 || At(s1, r) == At(st, r) { RewriteTop(g, st, n, start, a, r); }
    forall c: nat | c < g.size ensures Bit(g, s1.disk, c) <==> Bit(g, st.disk, c) { BitFrame(g, st.disk, s1.disk, c); }
    FewerInv(g, st, s1);
  }

  /** Addresses after the cut as the buffers show it: the first-level table and at most one second-level
      table were changed. */
  lemma PartAt(g: Geometry, st: St, d: Disk, n: nat, start: nat, a: Block, r: Ref)
    requires Inv(g, st) && n < |st.inodes| && 0 < At(st, Ref(n, Dind)) < |st.disk| == |d|
    requires DindLoop(g, st, d, n, start, NINDIRECT) && TopCleared(st, n, start, st.disk[At(st, Ref(n, Dind))], a, NINDIRECT)
    requires SomeKept(st, n, start, NINDIRECT) && RefOk(st, r)
    ensures var st2 := St(d[At(st, Ref(n, Dind)) := a], st.inodes);
            RefOk(st2, r) && At(st2, r) == if r.n == n && r.s in DindFrom(st, n, start) then 0 else At(st, r)
  {
    hide At, Bit, Freed, DindGone, Inv, Word, TopCleared, MidGone, SomeKept;
    var top, idx := At(st, Ref(n, Dind)), start / NINDIRECT;
    var s1, d2 := st.(disk := st.disk[top := a]), d[top := a];
    DiskLen(g, st);
    DindGoneIs(st, n, start, NINDIRECT, r.s);
    TopInv(g, st, n, start, a);
    RewriteTop(g, st, n, start, a, r);
    if idx < NINDIRECT && At(st, Ref(n, Mid(idx))) != 0 && !MidGone(st, n, start, idx) {
      RewriteTop(g, st, n, start, a, Ref(n, Mid(idx)));
      TablesApart(g, st, Ref(n, Dind), Ref(n, Mid(idx)));
      RewriteTable(g, s1, d2, n, Mid(idx), r);
    } else {
      DiskOnly(g, s1, d2, r);
    }
    if r.n == n && r.s.DindEntry? { PartEntry(st, n, start, r.s.m, r.s.j, d); }
    if r.n == n && r.s.Mid? { assert r == Ref(n, Mid(r.s.m)); }
  }

  /** Entries of second-level tables: what the cut leaves of them. */
  lemma PartEntry(st: St, n: nat, start: nat, m: nat, j: nat, d: Disk)
    requires n < |st.inodes| && m < NINDIRECT && j < NINDIRECT
    ensures MidGone(st, n, start, m) && Before(start, m, j) ==> At(st, Ref(n, DindEntry(m, j))) == 0
    ensures !MidGone(st, n, start, m) ==> m <= start / NINDIRECT
    ensures m < start / NINDIRECT ==> Before(start, m, j)
    ensures m == start / NINDIRECT ==> (Before(start, m, j) <==> j < start % NINDIRECT)
    ensures At(st, Ref(n, Mid(m))) == 0 ==> At(st, Ref(n, DindEntry(m, j))) == 0
    ensures 0 < At(st, Ref(n, Mid(m))) < |st.disk| ==> At(st, Ref(n, DindEntry(m, j))) == Word(st.disk[At(st, Ref(n, Mid(m)))], j)
  {}

  /** The stale entry names a block whose bit is clear. */
  lemma StaleBreaks(g: Geometry, st: St, st': St, n: nat, start: nat)
    requires Inv(g, st) && n < |st.inodes| && At(st, Ref(n, Dind)) != 0 && DindLoop(g, st, st'.disk, n, start, NINDIRECT)
    requires StaleTop(st, n, start) && st'.inodes == st.inodes
    ensures !Inv(g, st')
  {
    hide At, Bit, MidGone, Cleared, Word, DindGone;
    var m: nat :| m < NINDIRECT && At(st, Ref(n, Mid(m))) != 0 && MidGone(st, n, start, m);
    TopReads(g, st, st'.disk, n, start, NINDIRECT, m);
    IndAddr(st, n);
    IndAddr(st', n);
    TableAt(st', n, Dind, Mid(m));
    DindGoneIs(st, n, start, NINDIRECT, Mid(m));
    assert RefOk(st, Ref(n, Mid(m))) && RefOk(st', Ref(n, Mid(m)));
    assert At(st', Ref(n, Mid(m))) in Freed(st, n, DindGone(st, n, start, NINDIRECT));
  }
}
