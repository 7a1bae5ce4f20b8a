/** How many blocks files take, block-map tables included, and what appending one block takes. */
module Capacity {
  import opened Arith
  import opened FsDisk
  import opened FsInv
  import opened Fs
  import opened FsCut

  /** Blocks of a file of nb data blocks: the data, the single-indirect table, and the first-level table of the
      double-indirect part with its second-level tables. */
  function Needs(nb: nat): nat {
    nb + (if nb > NDIRECT then 1 else 0) + (if nb > NSINGLE then 1 + (nb - NSINGLE + NINDIRECT - 1) / NINDIRECT else 0)
  }

  /** The places of the map that the first nb blocks use. */
  predicate Wanted(s: Slot, nb: nat) {
    match s
    case Direct(i) => i < nb
    case Ind => NDIRECT < nb
    case IndEntry(j) => NDIRECT + j < nb
    case Dind => NSINGLE < nb
    case Mid(m) => NSINGLE + NINDIRECT * m < nb
    case DindEntry(m, j) => NSINGLE + NINDIRECT * m + j < nb
  }

  /** Exactly the places of the first nb blocks of inode n are filled. */
  ghost predicate Snug(st: St, n: nat, nb: nat) {
    n < |st.inodes| && forall s :: SlotOk(s) ==> (At(st, Ref(n, s)) != 0 <==> Wanted(s, nb))
  }

  /** The places on the way to a file block. */
  predicate OnPath(s: Slot, bn: nat)
    requires bn < MAXFILE
  {
    var d := DataSlot(bn);
    s == d || match d
              case IndEntry(_) => s == Ind
              case DindEntry(m, _) => s == Mid(m) || s == Dind
              case _ => false
  }

  function Empty(st: St, n: nat, s: Slot): nat
    requires RefOk(st, Ref(n, s))
  { if At(st, Ref(n, s)) == 0 then 1 else 0 }

  /** Empty places on that way: what appending the block takes. */
  function Missing(st: St, n: nat, bn: nat): nat
    requires n < |st.inodes| && bn < MAXFILE
  {
    Empty(st, n, DataSlot(bn))
    + (if NDIRECT <= bn < NSINGLE then Empty(st, n, Ind) else 0)
    + (if NSINGLE <= bn then Empty(st, n, Dind) + Empty(st, n, Mid((bn - NSINGLE) / NINDIRECT)) else 0)
  }

  /** No place changed except that empty ones on the way to block bn of inode n were filled. */
  ghost predicate PathFilled(st: St, st': St, n: nat, bn: nat)
    requires bn < MAXFILE
  {
    && |st'.inodes| == |st.inodes|
    && forall r :: RefOk(st, r) ==> RefOk(st', r) && (if r.n == n && OnPath(r.s, bn) then At(st', r) != 0 else At(st', r) == At(st, r))
  }

  /** One place filled. */
  ghost predicate OneFilled(st: St, st': St, r: Ref) {
    && |st'.inodes| == |st.inodes|
    && forall q :: RefOk(st, q) ==> RefOk(st', q) && (if q == r then At(st', q) != 0 else At(st', q) == At(st, q))
  }

  lemma NothingFilled(st: St, r: Ref)
    requires RefOk(st, r) && At(st, r) != 0
    ensures OneFilled(st, st, r)
  {}

  lemma FilledIs(st: St, st': St, r: Ref)
    requires |st'.inodes| == |st.inodes| && RefOk(st', r) && At(st', r) != 0
    requires forall q :: RefOk(st, q) ==> RefOk(st', q) && (q != r ==> At(st', q) == At(st, q))
    ensures OneFilled(st, st', r)
  {}

  lemma FilledOther(st: St, st': St, r: Ref, q: Ref)
    requires OneFilled(st, st', r) && RefOk(st, q) && q != r
    ensures RefOk(st', q) && At(st', q) == At(st, q)
  {}

  lemma FilledDirect(st: St, st': St, n: nat, bn: nat)
    requires n < |st.inodes| && bn < NDIRECT && OneFilled(st, st', Ref(n, Direct(bn)))
    ensures PathFilled(st, st', n, bn)
  { hide At; }

  lemma FilledIndirect(st: St, s1: St, st': St, n: nat, bn: nat)
    requires n < |st.inodes| && NDIRECT <= bn < NSINGLE && OneFilled(st, s1, Ref(n, Ind)) && OneFilled(s1, st', Ref(n, IndEntry(bn - NDIRECT)))
    ensures PathFilled(st, st', n, bn)
  { hide At; }

  lemma FilledDouble(st: St, s1: St, s2: St, st': St, n: nat, bn: nat)
    requires n < |st.inodes| && NSINGLE <= bn < MAXFILE && OneFilled(st, s1, Ref(n, Dind)) && OneFilled(s1, s2, Ref(n, Mid((bn - NSINGLE) / NINDIRECT)))
    requires OneFilled(s2, st', Ref(n, DindEntry((bn - NSINGLE) / NINDIRECT, (bn - NSINGLE) % NINDIRECT)))
    ensures PathFilled(st, st', n, bn)
  { hide At; }

  /** The next block of a snug file takes what the count says; a block within it takes nothing. */
  lemma MissingIs(st: St, n: nat, nb: nat, bn: nat)
    requires Snug(st, n, nb) && bn <= nb && bn < MAXFILE
    ensures Needs(nb) + Missing(st, n, bn) == Needs(Max(nb, bn + 1))
  {
    hide At;
    var d := DataSlot(bn);
    assert At(st, Ref(n, d)) != 0 <==> Wanted(d, nb);
    match d {
      case IndEntry(_) => assert At(st, Ref(n, Ind)) != 0 <==> Wanted(Ind, nb);
      case DindEntry(m, _) =>
        assert At(st, Ref(n, Dind)) != 0 <==> Wanted(Dind, nb);
        assert At(st, Ref(n, Mid(m))) != 0 <==> Wanted(Mid(m), nb);
        NextTable(bn - NSINGLE);
      case _ =>
    }
  }

  lemma NextTable(k: nat)
    ensures (k + NINDIRECT) / NINDIRECT == (k + NINDIRECT - 1) / NINDIRECT + if k % NINDIRECT == 0 then 1 else 0
    ensures k == NINDIRECT * (k / NINDIRECT) + k % NINDIRECT
  {}

  lemma SnugGrows(st: St, st': St, n: nat, nb: nat, bn: nat)
    requires Snug(st, n, nb) && bn <= nb && bn < MAXFILE && PathFilled(st, st', n, bn)
    ensures Snug(st', n, Max(nb, bn + 1))
  {
    hide At;
    forall s | SlotOk(s) ensures At(st', Ref(n, s)) != 0 <==> Wanted(s, Max(nb, bn + 1)) {
      assert RefOk(st, Ref(n, s));
      assert At(st, Ref(n, s)) != 0 <==> Wanted(s, nb);
      PathWanted(s, nb, bn);
    }
  }

  lemma PathWanted(s: Slot, nb: nat, bn: nat)
    requires SlotOk(s) && bn <= nb && bn < MAXFILE
    ensures Wanted(s, Max(nb, bn + 1)) <==> Wanted(s, nb) || OnPath(s, bn)
  {
    if bn >= NSINGLE { NextTable(bn - NSINGLE); }
  }

  lemma SnugElsewhere(st: St, st': St, n: nat, bn: nat, m: nat, nb: nat)
    requires bn < MAXFILE && PathFilled(st, st', n, bn) && m != n && Snug(st, m, nb)
    ensures Snug(st', m, nb)
  {
    hide At;
    forall s | SlotOk(s) ensures At(st', Ref(m, s)) != 0 <==> Wanted(s, nb) { assert RefOk(st, Ref(m, s)); }
  }

  /** No place changed. */
  ghost predicate SameMap(st: St, st': St) {
    |st'.inodes| == |st.inodes| && forall r :: RefOk(st, r) ==> RefOk(st', r) && At(st', r) == At(st, r)
  }

  lemma SnugSame(st: St, st': St, m: nat, nb: nat)
    requires SameMap(st, st') && Snug(st, m, nb)
    ensures Snug(st', m, nb)
  {
    hide At;
    forall s | SlotOk(s) ensures At(st', Ref(m, s)) != 0 <==> Wanted(s, nb) { assert RefOk(st, Ref(m, s)); }
  }

  /** Files other than n that were snug still are. */
  ghost predicate OthersSnug(st: St, st': St, n: nat) { forall m: nat, nb: nat :: m != n && Snug(st, m, nb) ==> Snug(st', m, nb) }

  lemma OthersFilled(st: St, s0: St, s1: St, n: nat, bn: nat)
    requires OthersSnug(st, s0, n) && bn < MAXFILE && PathFilled(s0, s1, n, bn)
    ensures OthersSnug(st, s1, n)
  {
    hide Snug, PathFilled;
    forall m: nat, nb: nat | m != n && Snug(st, m, nb) ensures Snug(s1, m, nb) { SnugElsewhere(s0, s1, n, bn, m, nb); }
  }

  lemma OthersSame(st: St, s0: St, s1: St, n: nat)
    requires OthersSnug(st, s0, n) && SameMap(s0, s1)
    ensures OthersSnug(st, s1, n)
  {
    hide Snug, SameMap;
    forall m: nat, nb: nat | m != n && Snug(st, m, nb) ensures Snug(s1, m, nb) { SnugSame(s0, s1, m, nb); }
  }

  /** While bytes are added to inode n, which had size0 bytes in st0 and has off bytes now: its map is
      that of off bytes, the other maps are as they were, and f0 has grown to f by what that took. */
  ghost predicate Counted(st0: St, st: St, n: nat, size0: nat, off: nat, f0: nat, f: nat) {
    Snug(st, n, FirstFree(off)) && OthersSnug(st0, st, n) && f + Needs(FirstFree(size0)) == f0 + Needs(FirstFree(off))
  }

  lemma CountedStart(st: St, n: nat, size: nat, f: nat)
    requires Snug(st, n, FirstFree(size))
    ensures Counted(st, st, n, size, size, f, f)
  { hide Snug; }

  /** One turn of the loop of iappend. */
  lemma CountedStep(st0: St, s0: St, s1: St, s2: St, n: nat, size0: nat, off: nat, more: nat, f0: nat, f: nat, f1: nat)
    requires Counted(st0, s0, n, size0, off, f0, f) && n < |s0.inodes| && off / BSIZE < MAXFILE && 0 < more <= BSIZE - off % BSIZE
    requires PathFilled(s0, s1, n, off / BSIZE) && f1 == f + Missing(s0, n, off / BSIZE) && SameMap(s1, s2)
    ensures Counted(st0, s2, n, size0, off + more, f0, f1)
  {
    hide Snug, PathFilled, Missing, SameMap, OthersSnug, Needs;
    NextBlock(off, more);
    MissingIs(s0, n, FirstFree(off), off / BSIZE);
    SnugGrows(s0, s1, n, FirstFree(off), off / BSIZE);
    SnugSame(s1, s2, n, FirstFree(off + more));
    OthersFilled(st0, s0, s1, n, off / BSIZE);
    OthersSame(st0, s1, s2, n);
  }

  lemma NextBlock(off: nat, more: nat)
    requires 0 < more <= BSIZE - off % BSIZE
    ensures off / BSIZE <= FirstFree(off) && FirstFree(off + more) == Max(FirstFree(off), off / BSIZE + 1)
  {}

  lemma CountedSame(st0: St, st: St, st': St, n: nat, size0: nat, off: nat, f0: nat, f: nat)
    requires Counted(st0, st, n, size0, off, f0, f) && SameMap(st, st')
    ensures Counted(st0, st', n, size0, off, f0, f)
  {
    hide Snug, SameMap, OthersSnug;
    SnugSame(st, st', n, FirstFree(off));
    OthersSame(st0, st, st', n);
  }

  lemma SameMapIs(st: St, st': St)
    requires |st'.inodes| == |st.inodes| && forall r :: RefOk(st, r) ==> RefOk(st', r) && At(st', r) == At(st, r)
    ensures SameMap(st, st')
  {}

  lemma CountedSums(st0: St, st: St, n: nat, size0: nat, off: nat, f0: nat, f: nat)
    requires Counted(st0, st, n, size0, off, f0, f)
    ensures f + Needs(FirstFree(size0)) == f0 + Needs(FirstFree(off))
  {}

  /** When the next block cannot be had, the whole does not fit. */
  lemma CountedFull(st0: St, st: St, n: nat, size0: nat, off: nat, end: nat, f0: nat, f: nat, size: nat)
    requires Counted(st0, st, n, size0, off, f0, f) && n < |st.inodes| && off / BSIZE < MAXFILE && off < end && f + Missing(st, n, off / BSIZE) > size
    ensures f0 + Needs(FirstFree(end)) > size + Needs(FirstFree(size0))
  {
    hide Snug, Missing, OthersSnug, Needs;
    NextBlock(off, 1);
    MissingIs(st, n, FirstFree(off), off / BSIZE);
    assert FirstFree(off + 1) <= FirstFree(end);
    NeedsMono(FirstFree(off + 1), FirstFree(end));
  }

  lemma {:induction false} NeedsMono(a: nat, b: nat)
    requires a <= b
    ensures Needs(a) <= Needs(b)
  {}

  // ---------- All files ----------

  function SumNeeds(sizes: seq<nat>): nat {
    if sizes == [] then 0 else SumNeeds(sizes[..|sizes| - 1]) + Needs(FirstFree(sizes[|sizes| - 1]))
  }

  lemma {:induction false} SumUpdate(sizes: seq<nat>, k: nat, size: nat)
    requires k < |sizes|
    ensures SumNeeds(sizes[k := size]) + Needs(FirstFree(sizes[k])) == SumNeeds(sizes) + Needs(FirstFree(size))
  {
    var n := |sizes| - 1;
    if k == n {
      assert sizes[k := size][..n] == sizes[..n];
    } else {
      assert sizes[k := size][..n] == sizes[..n][k := size];
      SumUpdate(sizes[..n], k, size);
    }
  }

  lemma {:induction false} SumMono(a: seq<nat>, b: seq<nat>)
    requires |a| == |b| && forall i :: 0 <= i < |a| ==> a[i] <= b[i]
    ensures SumNeeds(a) <= SumNeeds(b)
  {
    if a != [] {
      SumMono(a[..|a| - 1], b[..|b| - 1]);
      NeedsMono(FirstFree(a[|a| - 1]), FirstFree(b[|b| - 1]));
    }
  }

  lemma {:induction false} SumZero(sizes: seq<nat>)
    requires forall i :: 0 <= i < |sizes| ==> sizes[i] == 0
    ensures SumNeeds(sizes) == 0
  { if sizes != [] { SumZero(sizes[..|sizes| - 1]); } }

  lemma DenseSmall(st: St, n: nat)
    requires n < |st.inodes| && Dense(st, n)
    ensures st.inodes[n].size <= MAXBYTES
  {
    hide At, DataSlot;
    var size := st.inodes[n].size;
    if size > 0 { assert (size - 1) / BSIZE * BSIZE < size; }
  }
}
