/** The descriptor system calls, one method per masked section; any interleaving of them is allowed. */
module DescriptorCalls {
  import opened Descriptors
  import opened DescriptorSteps

  function SlotAt(p: Proc, fd: int): Slot { if 0 <= fd < |p.ofile| then p.ofile[fd] else Empty }

  function WithSlot(p: Proc, fd: int, x: Slot): Proc { if 0 <= fd < |p.ofile| then p.(ofile := p.ofile[fd := x]) else p }

  function At(p: Proc, pc: Pc): Proc { p.(pc := pc) }

  /** A process moves and files and pipes change: enough if every balance is kept. */
  lemma StepInv(s: Sys, t: Sys, k: nat)
    requires Inv(s) && k < |s.procs| == |t.procs| && t.procs == s.procs[k := t.procs[k]]
    requires |t.files| == NFILE == |s.files| && |t.pipes| == |s.pipes| && ProcOk(t.procs[k], |t.pipes|) && ForksOk(t.procs) && MadeOk(t)
    requires forall f :: 0 <= f < NFILE ==> FileOk(t.files[f], |t.pipes|)
    requires forall f: nat :: f < NFILE ==> t.files[f].ref - s.files[f].ref == RefsOf(t.procs[k], f) - RefsOf(s.procs[k], f)
    requires forall pi: nat, w: bool :: pi < |s.pipes| ==>
               SumOf(t.files, FileEnds(pi, w)) - SumOf(s.files, FileEnds(pi, w)) + EndsOf(t.procs[k].pc, pi, w) - EndsOf(s.procs[k].pc, pi, w)
               == One(IsOpen(t.pipes[pi], w)) - One(IsOpen(s.pipes[pi], w))
    requires forall pi: nat :: pi < |s.pipes| ==>
               t.pipes[pi].freed - s.pipes[pi].freed + FreesOf(t.procs[k].pc, pi) - FreesOf(s.procs[k].pc, pi)
               == One(IsShut(t.pipes[pi])) - One(IsShut(s.pipes[pi]))
    ensures Inv(t)
  {
    hide ForksOk, ProcOk, FileOk, RefsOf, EndsOf, FreesOf, SumOf, IsOpen, IsShut;
    forall f: nat | f < NFILE ensures t.files[f].ref == SumOf(t.procs, Refs(f)) {
      SumUpdate(s.procs, Refs(f), k, t.procs[k]);
    }
    forall pi: nat, w: bool | pi < |s.pipes|
      ensures SumOf(t.files, FileEnds(pi, w)) + SumOf(t.procs, Ends(pi, w)) == One(IsOpen(t.pipes[pi], w))
    {
      SumUpdate(s.procs, Ends(pi, w), k, t.procs[k]);
    }
    forall pi: nat | pi < |s.pipes| ensures t.pipes[pi].freed + SumOf(t.procs, Frees(pi)) == One(IsShut(t.pipes[pi])) {
      SumUpdate(s.procs, Frees(pi), k, t.procs[k]);
    }
  }

  /** A process that neither forks nor is being forked moves freely. */
  lemma ForksSame(procs: seq<Proc>, k: nat, p: Proc)
    requires ForksOk(procs) && k < |procs| && !IsFork(procs[k].pc) && procs[k].pc != Embryo && !IsFork(p.pc)
    ensures ForksOk(procs[k := p])
  {}

  lemma InvParts(s: Sys, k: nat)
    requires Inv(s) && k < |s.procs|
    ensures |s.files| == NFILE && ProcOk(s.procs[k], |s.pipes|) && ForksOk(s.procs)
    ensures MadeOk(s) && forall f :: 0 <= f < NFILE ==> FileOk(s.files[f], |s.pipes|)
  {}

  /** Only a process changed, keeping what it holds. */
  lemma PrivateStep(s: Sys, k: nat, p: Proc)
    requires Inv(s) && k < |s.procs| && ProcOk(p, |s.pipes|) && ForksOk(s.procs[k := p])
    requires forall f: nat :: f < NFILE ==> RefsOf(p, f) == RefsOf(s.procs[k], f)
    requires forall pi: nat, w: bool :: EndsOf(p.pc, pi, w) == EndsOf(s.procs[k].pc, pi, w)
    requires forall pi: nat :: FreesOf(p.pc, pi) == FreesOf(s.procs[k].pc, pi)
    requires !Taking(p.pc)
    ensures Inv(s.(procs := s.procs[k := p]))
  {
    hide ForksOk, ProcOk, RefsOf, EndsOf, FreesOf, Counted, EndsOk, PagesOk;
    StepInv(s, s.(procs := s.procs[k := p]), k);
  }

  /** Nobody else holds a file a call has just taken. */
  lemma MadeAlone(s: Sys, j: nat, g: nat, k: nat)
    requires Inv(s) && j < |s.procs| && k < |s.procs| && j != k && g < NFILE && MadeOf(s.procs[j].pc, g)
    ensures |s.files| == NFILE && s.files[g].ref == 1 && RefsOf(s.procs[k], g) <= 0
  {
    hide ForksOk, Counted, EndsOk, PagesOk, ProcOk;
    RefBoundTwo(s, k, j, g);
    ContributesNonneg(s.procs[j], |s.pipes|, g);
  }

  /** One file and one process changed, no pipe. */
  lemma FileStep(s: Sys, k: nat, p: Proc, g: nat, x: File)
    requires Inv(s) && k < |s.procs| && g < NFILE && ProcOk(p, |s.pipes|) && ForksOk(s.procs[k := p]) && FileOk(x, |s.pipes|)
    requires |s.files| == NFILE
    requires forall f: nat :: f < NFILE ==>
               RefsOf(p, f) - RefsOf(s.procs[k], f) == if f == g then x.ref - s.files[g].ref else 0
    requires forall pi: nat, w: bool ::
               EndsOf(p.pc, pi, w) - EndsOf(s.procs[k].pc, pi, w) == FileEnds(pi, w)(s.files[g]) - FileEnds(pi, w)(x)
    requires forall pi: nat :: FreesOf(p.pc, pi) == FreesOf(s.procs[k].pc, pi)
    requires s.files[g].ref == 0 || RefsOf(s.procs[k], g) >= 1
    requires forall f: nat :: f < NFILE && MadeOf(p.pc, f) ==> if f == g then x == File(1, Untyped) else MadeOf(s.procs[k].pc, f)
    ensures Inv(s.(procs := s.procs[k := p], files := s.files[g := x]))
  {
    hide ForksOk, ProcOk, RefsOf, EndsOf, FreesOf, Counted, EndsOk, PagesOk, FileEnds;
    var t := s.(procs := s.procs[k := p], files := s.files[g := x]);
    forall pi: nat, w: bool | pi < |s.pipes|
      ensures SumOf(t.files, FileEnds(pi, w)) - SumOf(s.files, FileEnds(pi, w)) == FileEnds(pi, w)(x) - FileEnds(pi, w)(s.files[g])
    {
      SumUpdate(s.files, FileEnds(pi, w), g, x);
    }
    forall j: nat | j < |s.procs| && j != k ensures !MadeOf(s.procs[j].pc, g) {
      if MadeOf(s.procs[j].pc, g) { MadeAlone(s, j, g, k); }
    }
    StepInv(s, t, k);
  }

  /** One pipe and one process changed, no file. */
  lemma PipeStep(s: Sys, k: nat, p: Proc, q: nat, x: Pipe)
    requires Inv(s) && k < |s.procs| && q < |s.pipes| && ProcOk(p, |s.pipes|) && ForksOk(s.procs[k := p])
    requires forall f: nat :: f < NFILE ==> RefsOf(p, f) == RefsOf(s.procs[k], f)
    requires forall pi: nat, w: bool ::
               EndsOf(p.pc, pi, w) - EndsOf(s.procs[k].pc, pi, w) == if pi == q then One(IsOpen(x, w)) - One(IsOpen(s.pipes[q], w)) else 0
    requires forall pi: nat ::
               FreesOf(p.pc, pi) - FreesOf(s.procs[k].pc, pi)
               == if pi == q then One(IsShut(x)) - One(IsShut(s.pipes[q])) - (x.freed - s.pipes[q].freed) else 0
    requires !Taking(p.pc)
    ensures Inv(s.(procs := s.procs[k := p], pipes := s.pipes[q := x]))
  {
    hide ForksOk, ProcOk, RefsOf, EndsOf, FreesOf, Counted, EndsOk, PagesOk, IsShut, IsOpen;
    StepInv(s, s.(procs := s.procs[k := p], pipes := s.pipes[q := x]), k);
  }

  // ---------- The balances of each step ----------

  lemma CloseStarts(s: Sys, k: nat, fd: nat)
    requires Inv(s) && k < |s.procs| && s.procs[k].pc == User && fd < |s.procs[k].ofile| && s.procs[k].ofile[fd].Held?
    ensures Inv(s.(procs := s.procs[k := At(WithSlot(s.procs[k], fd, Empty), Closing(s.procs[k].ofile[fd].file, User))]))
  {
    hide ForksOk, Counted, EndsOk, PagesOk, MadeOk, Inv;
    InvParts(s, k);
    var p := s.procs[k];
    var q := At(WithSlot(p, fd, Empty), Closing(p.ofile[fd].file, User));
    ForksSame(s.procs, k, q);
    forall f: nat | f < NFILE ensures RefsOf(q, f) == RefsOf(p, f) { SlotsUpdate(p.ofile, f, fd, Empty); }
    assert PcOk(q.ofile, User, |s.pipes|);
    PrivateStep(s, k, q);
  }

  /** The file and the program counter after the masked section of fileclose. */
  function Dropped(x: File): File { if x.ref == 1 then File(0, Untyped) else if x.ref == 0 then x else x.(ref := x.ref - 1) }

  function AfterDrop(x: File, next: Pc): Pc {
    if x.ref == 1 && x.kind.PipeEnd? then EndClosing(x.kind.pipe, x.kind.writable, next) else next
  }

  lemma DropsClosing(s: Sys, k: nat, g: nat, next: Pc)
    requires Inv(s) && k < |s.procs| && s.procs[k].pc == Closing(g, next) && g < |s.files|
    ensures s.files[g].ref >= 1
    ensures Inv(s.(procs := s.procs[k := At(s.procs[k], AfterDrop(s.files[g], next))], files := s.files[g := Dropped(s.files[g])]))
  {
    hide ForksOk, Counted, EndsOk, PagesOk, MadeOk, Inv;
    InvParts(s, k);
    var p := s.procs[k];
    var q := At(p, AfterDrop(s.files[g], next));
    RefBound(s, k, g);
    ForksSame(s.procs, k, q);
    FileStep(s, k, q, g, Dropped(s.files[g]));
  }

  /** A pending pipeclose means its end is still open and nobody else stands for it. */
  lemma EndPending(s: Sys, k: nat, q: nat, w: bool)
    requires Inv(s) && k < |s.procs| && q < |s.pipes| && EndsOf(s.procs[k].pc, q, w) >= 1
    ensures IsOpen(s.pipes[q], w)
  {
    hide Shaped, ForksOk, Counted, PagesOk;
    SumAtLeast(s.procs, Ends(q, w), k);
    SumNonneg(s.files, FileEnds(q, w));
    assert Ends(q, w)(s.procs[k]) == EndsOf(s.procs[k].pc, q, w);
  }

  function Shut(x: Pipe, w: bool): Pipe { if w then x.(writeopen := false) else x.(readopen := false) }

  lemma EndCloses(s: Sys, k: nat, q: nat, w: bool, next: Pc)
    requires Inv(s) && k < |s.procs| && s.procs[k].pc == EndClosing(q, w, next) && q < |s.pipes|
    ensures var x := Shut(s.pipes[q], w);
            Inv(s.(procs := s.procs[k := At(s.procs[k], if IsShut(x) then Freeing(q, next) else next)], pipes := s.pipes[q := x]))
  {
    hide ForksOk, Counted, EndsOk, PagesOk, MadeOk, Inv;
    InvParts(s, k);
    EndPending(s, k, q, w);
    var x := Shut(s.pipes[q], w);
    var p := At(s.procs[k], if IsShut(x) then Freeing(q, next) else next);
    ForksSame(s.procs, k, p);
    PipeStep(s, k, p, q, x);
  }

  lemma PageFrees(s: Sys, k: nat, q: nat, next: Pc)
    requires Inv(s) && k < |s.procs| && s.procs[k].pc == Freeing(q, next) && q < |s.pipes|
    ensures Inv(s.(procs := s.procs[k := At(s.procs[k], next)], pipes := s.pipes[q := s.pipes[q].(freed := s.pipes[q].freed + 1)]))
  {
    hide ForksOk, Counted, EndsOk, PagesOk, MadeOk, Inv;
    InvParts(s, k);
    ForksSame(s.procs, k, At(s.procs[k], next));
    PipeStep(s, k, At(s.procs[k], next), q, s.pipes[q].(freed := s.pipes[q].freed + 1));
  }

  lemma DupStarts(s: Sys, k: nat, fd: nat, to: nat)
    requires Inv(s) && k < |s.procs| && s.procs[k].pc == User && fd < |s.procs[k].ofile| && to < |s.procs[k].ofile|
    requires s.procs[k].ofile[fd].Held? && s.procs[k].ofile[to] == Empty
    ensures var x := s.procs[k].ofile[fd]; Inv(s.(procs := s.procs[k := At(WithSlot(s.procs[k], to, x), Duping(x.file))]))
  {
    hide ForksOk, Counted, EndsOk, PagesOk, MadeOk, Inv;
    InvParts(s, k);
    var p := s.procs[k];
    var q := At(WithSlot(p, to, p.ofile[fd]), Duping(p.ofile[fd].file));
    SlotsPositive(p.ofile, p.ofile[fd].file, fd);
    forall f: nat | f < NFILE ensures Slots(q.ofile, f) == Slots(p.ofile, f) + One(p.ofile[fd] == Held(f)) {
      SlotsUpdate(p.ofile, f, to, p.ofile[fd]);
    }
    ForksSame(s.procs, k, q);
    PrivateStep(s, k, q);
  }

  /** The file's count goes up by what the process gains: a debt paid, or a reference taken. */
  lemma RefTaken(s: Sys, k: nat, g: nat, q: Pc)
    requires Inv(s) && k < |s.procs| && g < |s.files| && ForksOk(s.procs[k := At(s.procs[k], q)])
    requires (s.procs[k].pc == Duping(g) && q == User)
             || (s.procs[k].pc.Forking? && q == ForkGot(s.procs[k].pc.child, s.procs[k].pc.fd, g) && SlotAt(s.procs[k], s.procs[k].pc.fd) == Held(g))
    ensures s.files[g].ref >= 1
    ensures Inv(s.(procs := s.procs[k := At(s.procs[k], q)], files := s.files[g := s.files[g].(ref := s.files[g].ref + 1)]))
  {
    hide ForksOk, Counted, EndsOk, PagesOk, MadeOk, Inv;
    InvParts(s, k);
    RefBound(s, k, g);
    if s.procs[k].pc.Forking? { SlotsPositive(s.procs[k].ofile, g, s.procs[k].pc.fd); }
    FileStep(s, k, At(s.procs[k], q), g, s.files[g].(ref := s.files[g].ref + 1));
  }

  /** filealloc: an unreferenced file is nobody's. */
  lemma FreshFile(s: Sys, k: nat, g: nat, kind: Kind, p: Proc)
    requires Inv(s) && k < |s.procs| && g < |s.files| && s.files[g].ref == 0 && !kind.PipeEnd?
    requires ProcOk(p, |s.pipes|) && ForksOk(s.procs[k := p]) && EndsFree(p.pc) && EndsFree(s.procs[k].pc)
    requires forall f: nat :: f < NFILE ==> RefsOf(p, f) == RefsOf(s.procs[k], f) + One(f == g)
    requires forall f: nat :: f < NFILE && MadeOf(p.pc, f) ==> (f == g && kind == Untyped) || (f != g && MadeOf(s.procs[k].pc, f))
    ensures Inv(s.(procs := s.procs[k := p], files := s.files[g := File(1, kind)]))
  {
    hide ForksOk, Counted, EndsOk, PagesOk, MadeOk, Inv, RefsOf, ProcOk;
    InvParts(s, k);
    assert s.files[g].kind == Untyped;
    EndsFreeZero(p.pc);
    EndsFreeZero(s.procs[k].pc);
    FileStep(s, k, p, g, File(1, kind));
  }

  predicate EndsFree(pc: Pc) { !pc.EndClosing? && !pc.Freeing? && (pc.Closing? ==> EndsFree(pc.next)) }

  lemma {:induction false} EndsFreeZero(pc: Pc)
    requires EndsFree(pc)
    ensures forall pi: nat, w: bool :: EndsOf(pc, pi, w) == 0
    ensures forall pi: nat :: FreesOf(pc, pi) == 0
  { if pc.Closing? { EndsFreeZero(pc.next); } }

  /** A pipe that is shut and freed already changes nothing. */
  lemma NeutralPipe(s: Sys)
    requires Inv(s)
    ensures Inv(s.(pipes := s.pipes + [Pipe(false, false, 1)]))
  {
    hide ForksOk, RefsOf;
    var n := |s.pipes|;
    var t := s.(pipes := s.pipes + [Pipe(false, false, 1)]);
    forall k | 0 <= k < |s.procs|
      ensures ProcOk(s.procs[k], n + 1) && FreesOf(s.procs[k].pc, n) == 0 && EndsOf(s.procs[k].pc, n, true) == 0 && EndsOf(s.procs[k].pc, n, false) == 0
    {
      MorePipes(s.procs[k].ofile, s.procs[k].pc, n);
    }
    forall w: bool ensures SumOf(s.files, FileEnds(n, w)) + SumOf(s.procs, Ends(n, w)) == 0 {
      forall f | 0 <= f < NFILE ensures FileEnds(n, w)(s.files[f]) == 0 { assert FileOk(s.files[f], n); }
      SumZero(s.files, FileEnds(n, w));
      SumZero(s.procs, Ends(n, w));
    }
    SumZero(s.procs, Frees(n));
  }

  lemma {:induction false} MorePipes(o: seq<Slot>, pc: Pc, n: nat)
    requires PcOk(o, pc, n)
    ensures PcOk(o, pc, n + 1) && FreesOf(pc, n) == 0 && EndsOf(pc, n, true) == 0 && EndsOf(pc, n, false) == 0
  {
    match pc {
      case Closing(_, t) => MorePipes(o, t, n);
      case EndClosing(_, _, t) => MorePipes(o, t, n);
      case Freeing(_, t) => MorePipes(o, t, n);
      case _ =>
    }
  }

  /** The new pipe's two ends stand for its two files. */
  lemma PipeMade(s: Sys, k: nat, a: nat, b: nat, p: Proc)
    requires Inv(s) && k < |s.procs| && s.procs[k].pc == Made2(a, b) && a < |s.files| && b < |s.files|
    requires ProcOk(p, |s.pipes| + 1) && !Taking(p.pc) && EndsFree(p.pc) && !IsFork(p.pc)
    requires forall f: nat :: f < NFILE ==> RefsOf(p, f) == RefsOf(s.procs[k], f)
    ensures Inv(Sys(s.files[a := s.files[a].(kind := PipeEnd(|s.pipes|, false))][b := s.files[b].(kind := PipeEnd(|s.pipes|, true))],
                    s.procs[k := p], s.pipes + [Pipe(true, true, 0)]))
  {
    hide ForksOk, Counted, EndsOk, PagesOk, MadeOk, Inv, RefsOf;
    var n := |s.pipes|;
    NeutralPipe(s);
    var u := s.(pipes := s.pipes + [Pipe(false, false, 1)]);
    InvParts(u, k);
    InvParts(s, k);
    assert a != b;
    MadeKinds(s, k, a, b);
    RefBound(s, k, a);
    RefBound(s, k, b);
    ForksSame(s.procs, k, p);
    EndsFreeZero(p.pc);
    var xa, xb := s.files[a].(kind := PipeEnd(n, false)), s.files[b].(kind := PipeEnd(n, true));
    var t := Sys(s.files[a := xa][b := xb], s.procs[k := p], s.pipes + [Pipe(true, true, 0)]);
    forall pi: nat, w: bool ensures SumOf(t.files, FileEnds(pi, w)) - SumOf(s.files, FileEnds(pi, w)) == One(pi == n) {
      SumUpdate(s.files, FileEnds(pi, w), a, xa);
      SumUpdate(s.files[a := xa], FileEnds(pi, w), b, xb);
    }
    forall j: nat | j < |s.procs| && j != k ensures !MadeOf(s.procs[j].pc, a) && !MadeOf(s.procs[j].pc, b) {
      if MadeOf(s.procs[j].pc, a) { MadeAlone(s, j, a, k); }
      if MadeOf(s.procs[j].pc, b) { MadeAlone(s, j, b, k); }
    }
    MadeElsewhere(s, k, a, b, t);
    StepInv(u, t, k);
  }

  lemma MadeKinds(s: Sys, k: nat, a: nat, b: nat)
    requires Inv(s) && k < |s.procs| && s.procs[k].pc == Made2(a, b) && a < |s.files| && b < |s.files|
    ensures s.files[a] == File(1, Untyped) && s.files[b] == File(1, Untyped)
  { hide ForksOk, Counted, EndsOk, PagesOk, ProcOk; }

  lemma MadeElsewhere(s: Sys, k: nat, a: nat, b: nat, t: Sys)
    requires |s.files| == NFILE == |t.files| && MadeOk(s) && k < |s.procs| == |t.procs| && t.procs == s.procs[k := t.procs[k]]
    requires forall f: nat :: f < NFILE && f != a && f != b ==> t.files[f] == s.files[f]
    requires forall j: nat :: j < |s.procs| && j != k ==> !MadeOf(s.procs[j].pc, a) && !MadeOf(s.procs[j].pc, b)
    requires !Taking(t.procs[k].pc)
    ensures MadeOk(t)
  {}

  // ---------- fork ----------

  /** A reference moves from the parent's hands into the child's slot. */
  lemma RefMoves(s: Sys, k: nat, c: nat, fd: nat, g: nat)
    requires Inv(s) && k < |s.procs| && s.procs[k].pc == ForkGot(c, fd, g) && c < |s.procs| && c != k && |s.procs[c].ofile| == NOFILE && fd < NOFILE
    ensures Inv(s.(procs := s.procs[k := At(s.procs[k], Forking(c, fd + 1))][c := WithSlot(s.procs[c], fd, Held(g))]))
  {
    hide Counted, EndsOk, PagesOk, RefsOf, EndsOf, FreesOf, SumOf;
    var p, q := At(s.procs[k], Forking(c, fd + 1)), WithSlot(s.procs[c], fd, Held(g));
    var ps := s.procs[k := p];
    var t := s.(procs := ps[c := q]);
    assert ProcOk(s.procs[k], |s.pipes|) && ProcOk(s.procs[c], |s.pipes|);
    assert s.procs[c].pc == Embryo && s.procs[c].ofile[fd] == Empty;
    assert Shaped(t);
    assert Counted(t) by { MoveCounted(s, k, c, fd, g, p, q); }
    BooksKept(s, ps, t, k, c);
  }

  lemma MoveCounted(s: Sys, k: nat, c: nat, fd: nat, g: nat, p: Proc, q: Proc)
    requires |s.files| == NFILE && Counted(s) && k < |s.procs| && c < |s.procs| && k != c
    requires s.procs[k].pc == ForkGot(c, fd, g) && p == At(s.procs[k], Forking(c, fd + 1))
    requires s.procs[c].pc == Embryo && fd < |s.procs[c].ofile| && s.procs[c].ofile[fd] == Empty && q == WithSlot(s.procs[c], fd, Held(g))
    ensures Counted(s.(procs := s.procs[k := p][c := q]))
  {
    hide RefsOf, SumOf;
    var ps := s.procs[k := p];
    forall f: nat | f < NFILE ensures s.files[f].ref == SumOf(ps[c := q], Refs(f)) {
      SumUpdate(s.procs, Refs(f), k, p);
      SumUpdate(ps, Refs(f), c, q);
      MoveRefs(s.procs[k], p, s.procs[c], q, c, fd, g, f);
    }
  }

  lemma MoveRefs(p0: Proc, p: Proc, q0: Proc, q: Proc, c: nat, fd: nat, g: nat, f: nat)
    requires p0.pc == ForkGot(c, fd, g) && p == At(p0, Forking(c, fd + 1)) && q0.pc == Embryo && fd < |q0.ofile| && q0.ofile[fd] == Empty
    requires q == WithSlot(q0, fd, Held(g))
    ensures Refs(f)(p0) + Refs(f)(q0) == Refs(f)(p) + Refs(f)(q)
  { SlotsUpdate(q0.ofile, f, fd, Held(g)); }

  lemma BooksKept(s: Sys, ps: seq<Proc>, t: Sys, k: nat, c: nat)
    requires EndsOk(s) && PagesOk(s) && k < |s.procs| && c < |s.procs| && k != c && |ps| == |s.procs| == |t.procs|
    requires ps == s.procs[k := ps[k]] && t == s.(procs := ps[c := t.procs[c]])
    requires EndsFree(s.procs[k].pc) && EndsFree(s.procs[c].pc) && EndsFree(ps[k].pc) && EndsFree(t.procs[c].pc)
    ensures EndsOk(t) && PagesOk(t)
  {
    hide SumOf;
    EndsFreeZero(s.procs[k].pc);
    EndsFreeZero(s.procs[c].pc);
    EndsFreeZero(ps[k].pc);
    EndsFreeZero(t.procs[c].pc);
    forall pi: nat, w: bool ensures SumOf(t.procs, Ends(pi, w)) == SumOf(s.procs, Ends(pi, w)) {
      SumUpdate(s.procs, Ends(pi, w), k, ps[k]);
      SumUpdate(ps, Ends(pi, w), c, t.procs[c]);
    }
    forall pi: nat ensures SumOf(t.procs, Frees(pi)) == SumOf(s.procs, Frees(pi)) {
      SumUpdate(s.procs, Frees(pi), k, ps[k]);
      SumUpdate(ps, Frees(pi), c, t.procs[c]);
    }
  }

  /** A gone process is set up afresh as somebody's child. */
  lemma ForkStarts(s: Sys, k: nat, c: nat, born: Proc)
    requires Inv(s) && k < |s.procs| && s.procs[k].pc == User && c < |s.procs| && c != k && s.procs[c].pc == Gone
    requires born.pc == Embryo && |born.ofile| == NOFILE && forall j :: 0 <= j < NOFILE ==> born.ofile[j] == Empty
    ensures Inv(s.(procs := s.procs[c := born][k := At(s.procs[k], Forking(c, 0))]))
  {
    hide Counted, EndsOk, PagesOk, MadeOk, Inv;
    InvParts(s, k);
    InvParts(s, c);
    forall f: nat | f < NFILE ensures RefsOf(born, f) == RefsOf(s.procs[c], f) {
      SlotsNone(born.ofile, f);
      SlotsNone(s.procs[c].ofile, f);
    }
    PrivateStep(s, c, born);
    var u := s.(procs := s.procs[c := born]);
    PrivateStep(u, k, At(s.procs[k], Forking(c, 0)));
  }

  /** The parent goes past an empty slot. */
  lemma ForkSkips(s: Sys, k: nat, c: nat, fd: nat)
    requires Inv(s) && k < |s.procs| && s.procs[k].pc == Forking(c, fd) && fd < NOFILE
    ensures Inv(s.(procs := s.procs[k := At(s.procs[k], Forking(c, fd + 1))]))
  {
    hide Counted, EndsOk, PagesOk, MadeOk, Inv;
    InvParts(s, k);
    PrivateStep(s, k, At(s.procs[k], Forking(c, fd + 1)));
  }

  lemma ForkHas(s: Sys, k: nat, c: nat, fd: nat)
    requires Inv(s) && k < |s.procs| && IsFork(s.procs[k].pc) && s.procs[k].pc.child == c && s.procs[k].pc.fd == fd
    ensures c < |s.procs| && c != k && s.procs[c].pc == Embryo && |s.procs[c].ofile| == NOFILE
    ensures fd < NOFILE ==> s.procs[c].ofile[fd] == Empty
    ensures forall g :: ForksOk(s.procs[k := At(s.procs[k], ForkGot(c, fd, g))])
  {}

  lemma ForkEnds(s: Sys, k: nat, c: nat, fd: nat)
    requires Inv(s) && k < |s.procs| && s.procs[k].pc == Forking(c, fd) && c < |s.procs| && c != k && s.procs[c].pc == Embryo
    ensures Inv(s.(procs := s.procs[k := At(s.procs[k], User)][c := At(s.procs[c], User)]))
  {
    hide Counted, EndsOk, PagesOk, MadeOk, Inv;
    InvParts(s, k);
    PrivateStep(s, k, At(s.procs[k], User));
    var u := s.(procs := s.procs[k := At(s.procs[k], User)]);
    InvParts(u, c);
    PrivateStep(u, c, At(s.procs[c], User));
  }

  // ---------- exit, and being inside a call ----------

  /** A step that only moves the program counter between states that hold nothing. */
  lemma PcMoves(s: Sys, k: nat, pc: Pc)
    requires Inv(s) && k < |s.procs| && ProcOk(At(s.procs[k], pc), |s.pipes|)
    requires Idle(s.procs[k].pc) && Idle(pc)
    ensures Inv(s.(procs := s.procs[k := At(s.procs[k], pc)]))
  {
    hide ForksOk, Counted, EndsOk, PagesOk, MadeOk, Inv, ProcOk;
    InvParts(s, k);
    ForksSame(s.procs, k, At(s.procs[k], pc));
    PrivateStep(s, k, At(s.procs[k], pc));
  }

  predicate Idle(pc: Pc) { pc.User? || pc.Using? || pc.Exiting? || pc.Gone? }

  lemma ExitDrops(s: Sys, k: nat, fd: nat)
    requires Inv(s) && k < |s.procs| && s.procs[k].pc == Exiting(fd) && fd < |s.procs[k].ofile| && s.procs[k].ofile[fd].Held?
    ensures var g := s.procs[k].ofile[fd].file;
            && g < |s.files| && s.files[g].ref >= 1
            && Inv(s.(procs := s.procs[k := At(s.procs[k], AfterDrop(s.files[g], Clearing(fd)))], files := s.files[g := Dropped(s.files[g])]))
  {
    hide ForksOk, Counted, EndsOk, PagesOk, MadeOk, Inv;
    InvParts(s, k);
    var p := s.procs[k];
    var g := p.ofile[fd].file;
    var q := At(p, AfterDrop(s.files[g], Clearing(fd)));
    assert PcOk(p.ofile, Clearing(fd), |s.pipes|) && Last(Clearing(fd)) == Clearing(fd);
    SlotsPositive(p.ofile, g, fd);
    RefBound(s, k, g);
    forall f: nat | f < NFILE ensures RefsOf(q, f) == RefsOf(p, f) - One(f == g) {
      assert Own(Clearing(fd), f) == 0 && Own(q.pc, f) == 0 && Last(q.pc) == Clearing(fd);
    }
    ForksSame(s.procs, k, q);
    FileStep(s, k, q, g, Dropped(s.files[g]));
  }

  lemma ExitClears(s: Sys, k: nat, fd: nat)
    requires Inv(s) && k < |s.procs| && s.procs[k].pc == Clearing(fd)
    ensures Inv(s.(procs := s.procs[k := At(WithSlot(s.procs[k], fd, Empty), Exiting(fd + 1))]))
  {
    hide ForksOk, Counted, EndsOk, PagesOk, MadeOk, Inv;
    InvParts(s, k);
    var p := s.procs[k];
    var q := At(WithSlot(p, fd, Empty), Exiting(fd + 1));
    forall f: nat | f < NFILE ensures RefsOf(q, f) == RefsOf(p, f) { SlotsUpdate(p.ofile, f, fd, Empty); }
    ForksSame(s.procs, k, q);
    PrivateStep(s, k, q);
  }

  class Kernel {
    var files: seq<File>
    var procs: seq<Proc>
    var pipes: seq<Pipe>

    function S(): Sys
      reads this
    { Sys(files, procs, pipes) }

    /** One process with no open files; the other entries of the process table are unused. */
    constructor (nprocs: nat)
      ensures Inv(S()) && |procs| == nprocs
    {
      hide RefsOf;
      var none := seq(NOFILE, _ => Empty);
      files := seq(NFILE, _ => File(0, Untyped));
      procs := seq(nprocs, k => Proc(none, if k == 0 then User else Gone));
      pipes := [];
      new;
      StartInv(S());
    }

    /** filealloc's search: the first unreferenced file. */
    method FindFile() returns (g: nat)
      ensures g <= |files| && (g < |files| ==> files[g].ref == 0)
      ensures forall i :: 0 <= i < g ==> files[i].ref != 0
    {
      g := 0;
      while g < |files|
        invariant g <= |files| && forall i :: 0 <= i < g ==> files[i].ref != 0
      {
        if files[g].ref == 0 { return; }
        g := g + 1;
      }
    }

    /** fdalloc's search: the lowest empty slot. */
    method FindSlot(k: nat) returns (fd: nat)
      requires k < |procs|
      ensures fd <= |procs[k].ofile| && (fd < |procs[k].ofile| ==> procs[k].ofile[fd] == Empty)
      ensures forall j :: 0 <= j < fd ==> procs[k].ofile[j] != Empty
    {
      fd := 0;
      while fd < |procs[k].ofile|
        invariant fd <= |procs[k].ofile| && forall j :: 0 <= j < fd ==> procs[k].ofile[j] != Empty
      {
        if procs[k].ofile[fd] == Empty { return; }
        fd := fd + 1;
      }
    }

    /** filealloc inside sys_open: the first unreferenced file, or failure when there is none. */
    method OpenStart(k: nat) returns (ok: bool)
      requires Inv(S()) && k < |procs| && procs[k].pc == User
      modifies this
      ensures Inv(S()) && pipes == old(pipes)
      ensures !ok ==> S() == old(S()) && forall g :: 0 <= g < |files| ==> files[g].ref != 0
      ensures ok ==> k < |procs| && procs[k].pc.Opened? && procs == old(procs)[k := At(old(procs[k]), procs[k].pc)]
                     && var g := procs[k].pc.file;
                        g < |old(files)| && old(files)[g].ref == 0 && (forall i :: 0 <= i < g ==> old(files)[i].ref != 0) && files == old(files)[g := File(1, Untyped)]
    {
      hide Inv, ForksOk;
      var g := FindFile();
      if g == |files| { return false; }
      MadeInv(S(), k, g, Opened(g));
      files := files[g := File(1, Untyped)];
      procs := procs[k := At(procs[k], Opened(g))];
      ok := true;
    }

    /** The rest of sys_open: the file gets its type and the lowest empty slot, or is closed again. */
    method OpenFinish(k: nat) returns (r: int)
      requires Inv(S()) && k < |procs| && procs[k].pc.Opened?
      modifies this
      ensures Inv(S()) && pipes == old(pipes)
      ensures var p, g := old(procs[k]), old(procs[k]).pc.file;
              && g < |old(files)| && files == old(files)[g := File(1, Inode)]
              && (r >= 0 ==> r < |p.ofile| && p.ofile[r] == Empty && (forall j :: 0 <= j < r ==> p.ofile[j] != Empty)
                             && procs == old(procs)[k := At(WithSlot(p, r, Held(g)), User)])
              && (r < 0 ==> r == -1 && (forall j :: 0 <= j < |p.ofile| ==> p.ofile[j] != Empty) && procs == old(procs)[k := At(p, Closing(g, User))])
    {
      hide Inv, RefsOf;
      ghost var s := S();
      var g := procs[k].pc.file;
      OpenedFile(s, k, g);
      files := files[g := files[g].(kind := Inode)];
      var fd := FindSlot(k);
      OpenInv(s, k, g, fd);
      if fd < |procs[k].ofile| {
        procs := procs[k := At(WithSlot(procs[k], fd, Held(g)), User)];
        r := fd;
      } else {
        procs := procs[k := At(procs[k], Closing(g, User))];
        r := -1;
      }
    }

    /** sys_close up to fileclose: the slot is cleared first. */
    method CloseStart(k: nat, fd: int) returns (r: int)
      requires Inv(S()) && k < |procs| && procs[k].pc == User
      modifies this
      ensures Inv(S()) && files == old(files) && pipes == old(pipes)
      ensures r == if SlotAt(old(procs[k]), fd).Held? then 0 else -1
      ensures procs == match SlotAt(old(procs[k]), fd)
                       case Held(f) => old(procs)[k := At(WithSlot(old(procs[k]), fd, Empty), Closing(f, User))]
                       case Empty => old(procs)
    {
      hide Inv;
      if fd < 0 || fd >= |procs[k].ofile| || procs[k].ofile[fd] == Empty { return -1; }
      CloseStarts(S(), k, fd);
      procs := procs[k := At(WithSlot(procs[k], fd, Empty), Closing(procs[k].ofile[fd].file, User))];
      r := 0;
    }

    /** The masked section of fileclose: the last reference untypes the file and leaves its pipe end to close. */
    method FileClose(k: nat)
      requires Inv(S()) && k < |procs| && procs[k].pc.Closing?
      modifies this
      ensures Inv(S()) && pipes == old(pipes)
      ensures var g := old(procs[k]).pc.file;
              && g < |old(files)| && files == old(files)[g := Dropped(old(files)[g])] && old(files)[g].ref >= 1
              && procs == old(procs)[k := At(old(procs[k]), AfterDrop(old(files)[g], old(procs[k]).pc.next))]
    {
      hide Inv;
      var g, next := procs[k].pc.file, procs[k].pc.next;
      PcFile(S(), k);
      DropsClosing(S(), k, g, next);
      var f := files[g];
      var ref := f.ref - 1;
      if ref > 0 {
        files := files[g := f.(ref := ref)];
        procs := procs[k := At(procs[k], next)];
        return;
      }
      files := files[g := f.(ref := 0, kind := Untyped)];
      procs := procs[k := At(procs[k], if f.kind.PipeEnd? then EndClosing(f.kind.pipe, f.kind.writable, next) else next)];
    }

    /** The masked section of pipeclose. */
    method PipeClose(k: nat)
      requires Inv(S()) && k < |procs| && procs[k].pc.EndClosing?
      modifies this
      ensures Inv(S()) && files == old(files)
      ensures var q, w, next := old(procs[k]).pc.pipe, old(procs[k]).pc.writable, old(procs[k]).pc.next;
              && q < |old(pipes)| && IsOpen(old(pipes)[q], w) && pipes == old(pipes)[q := Shut(old(pipes)[q], w)]
              && procs == old(procs)[k := At(old(procs[k]), if IsShut(pipes[q]) then Freeing(q, next) else next)]
    {
      hide Inv;
      var q, w, next := procs[k].pc.pipe, procs[k].pc.writable, procs[k].pc.next;
      PcPipe(S(), k);
      EndPending(S(), k, q, w);
      EndCloses(S(), k, q, w, next);
      if w {
        pipes := pipes[q := pipes[q].(writeopen := false)];
      } else {
        pipes := pipes[q := pipes[q].(readopen := false)];
      }
      procs := procs[k := At(procs[k], if !pipes[q].readopen && !pipes[q].writeopen then Freeing(q, next) else next)];
    }

    /** pmm_free of the pipe page: it had not been given back before. */
    method FreePage(k: nat)
      requires Inv(S()) && k < |procs| && procs[k].pc.Freeing?
      modifies this
      ensures Inv(S()) && files == old(files)
      ensures var q := old(procs[k]).pc.pipe;
              && q < |old(pipes)| && old(pipes)[q].freed == 0 && pipes == old(pipes)[q := old(pipes)[q].(freed := 1)]
              && procs == old(procs)[k := At(old(procs[k]), old(procs[k]).pc.next)]
    {
      hide Inv;
      var q, next := procs[k].pc.pipe, procs[k].pc.next;
      PcPipe(S(), k);
      PageFrees(S(), k, q, next);
      pipes := pipes[q := pipes[q].(freed := pipes[q].freed + 1)];
      procs := procs[k := At(procs[k], next)];
      FreedOnce(S(), q);
    }

    /** sys_dup up to filedup: the new slot is filled before the count is raised. */
    method DupStart(k: nat, fd: int) returns (r: int)
      requires Inv(S()) && k < |procs| && procs[k].pc == User
      modifies this
      ensures Inv(S()) && files == old(files) && pipes == old(pipes)
      ensures SlotAt(old(procs[k]), fd) == Empty ==> r == -1
      ensures r == -1 ==> procs == old(procs)
      ensures r == -1 && SlotAt(old(procs[k]), fd).Held? ==> forall j :: 0 <= j < |procs[k].ofile| ==> procs[k].ofile[j] != Empty
      ensures r != -1 ==> SlotAt(old(procs[k]), fd).Held? && r >= 0 && FirstSlot(old(procs[k]).ofile, r)
                          && procs == old(procs)[k := At(WithSlot(old(procs[k]), r, SlotAt(old(procs[k]), fd)), Duping(SlotAt(old(procs[k]), fd).file))]
    {
      hide Inv;
      if fd < 0 || fd >= |procs[k].ofile| || procs[k].ofile[fd] == Empty { return -1; }
      var to := FindSlot(k);
      if to == |procs[k].ofile| { return -1; }
      DupStarts(S(), k, fd, to);
      var x := procs[k].ofile[fd];
      procs := procs[k := At(WithSlot(procs[k], to, x), Duping(x.file))];
      r := to;
    }

    /** filedup inside sys_dup. */
    method DupCount(k: nat)
      requires Inv(S()) && k < |procs| && procs[k].pc.Duping?
      modifies this
      ensures Inv(S()) && pipes == old(pipes)
      ensures var g := old(procs[k]).pc.file;
              && g < |old(files)| && files == old(files)[g := old(files)[g].(ref := old(files)[g].ref + 1)]
              && procs == old(procs)[k := At(old(procs[k]), User)]
    {
      hide Inv, ForksOk;
      var g := procs[k].pc.file;
      PcFile(S(), k);
      InvParts(S(), k);
      ForksSame(procs, k, At(procs[k], User));
      RefTaken(S(), k, g, User);
      files := files[g := files[g].(ref := files[g].ref + 1)];
      procs := procs[k := At(procs[k], User)];
    }

    /** sys_pipe's first filealloc. */
    method PipeStart(k: nat) returns (ok: bool)
      requires Inv(S()) && k < |procs| && procs[k].pc == User
      modifies this
      ensures Inv(S()) && pipes == old(pipes)
      ensures !ok ==> S() == old(S()) && forall g :: 0 <= g < |files| ==> files[g].ref != 0
      ensures ok ==> k < |procs| && procs[k].pc.Made1? && procs == old(procs)[k := At(old(procs[k]), procs[k].pc)]
                     && var g := procs[k].pc.file;
                        g < |old(files)| && old(files)[g].ref == 0 && (forall i :: 0 <= i < g ==> old(files)[i].ref != 0) && files == old(files)[g := File(1, Untyped)]
    {
      hide Inv, ForksOk;
      var g := FindFile();
      if g == |files| { return false; }
      MadeInv(S(), k, g, Made1(g));
      files := files[g := File(1, Untyped)];
      procs := procs[k := At(procs[k], Made1(g))];
      ok := true;
    }

    /** sys_pipe's second filealloc; on failure the first file is closed again. */
    method PipeSecond(k: nat) returns (ok: bool)
      requires Inv(S()) && k < |procs| && procs[k].pc.Made1?
      modifies this
      ensures Inv(S()) && pipes == old(pipes)
      ensures var a := old(procs[k]).pc.file;
              if ok then
                k < |procs| && procs[k].pc.Made2? && procs[k].pc.rf == a && procs == old(procs)[k := At(old(procs[k]), procs[k].pc)]
                && var b := procs[k].pc.wf; b < |old(files)| && old(files)[b].ref == 0 && (forall i :: 0 <= i < b ==> old(files)[i].ref != 0) && files == old(files)[b := File(1, Untyped)]
              else
                files == old(files) && procs == old(procs)[k := At(old(procs[k]), Closing(a, User))]
                && forall g :: 0 <= g < |files| ==> files[g].ref != 0
    {
      hide Inv, ForksOk;
      var a := procs[k].pc.file;
      var g := FindFile();
      if g == |files| {
        MadeDropped(S(), k, a);
        procs := procs[k := At(procs[k], Closing(a, User))];
        return false;
      }
      MadeInv(S(), k, g, Made2(a, g));
      files := files[g := File(1, Untyped)];
      procs := procs[k := At(procs[k], Made2(a, g))];
      ok := true;
    }

    /** The rest of sys_pipe: the page (if there is one), both ends, both slots. On any failure both
        files are closed again, and through them the page freed. */
    method PipeFinish(k: nat, page: bool) returns (fd0: int, fd1: int)
      requires Inv(S()) && k < |procs| && procs[k].pc.Made2?
      modifies this
      ensures Inv(S()) && (fd0 == -1 <==> fd1 == -1)
      ensures page && fd0 == -1 ==> forall x, y :: 0 <= x < y < |old(procs[k]).ofile| ==> old(procs[k]).ofile[x] != Empty || old(procs[k]).ofile[y] != Empty
      ensures var a, b, n := old(procs[k]).pc.rf, old(procs[k]).pc.wf, |old(pipes)|;
              && a < |old(files)| && b < |old(files)|
              && (!page ==> fd0 == -1 && files == old(files) && pipes == old(pipes))
              && (page ==> files == old(files)[a := File(1, PipeEnd(n, false))][b := File(1, PipeEnd(n, true))]
                           && pipes == old(pipes) + [Pipe(true, true, 0)])
              && (fd0 == -1 ==> procs == old(procs)[k := At(old(procs[k]), Closing(a, Closing(b, User)))])
              && (fd0 != -1 ==> 0 <= fd0 && fd1 >= 0 && FirstTwo(old(procs[k]).ofile, fd0, fd1)
                                && procs == old(procs)[k := At(WithSlot(WithSlot(old(procs[k]), fd0, Held(a)), fd1, Held(b)), User)])
    {
      hide Inv, ForksOk;
      ghost var s := S();
      var a, b := procs[k].pc.rf, procs[k].pc.wf;
      PcPair(s, k);
      if !page {
        MadeBothDropped(s, k, a, b);
        procs := procs[k := At(procs[k], Closing(a, Closing(b, User)))];
        return -1, -1;
      }
      var n := |pipes|;
      MadeKinds(s, k, a, b);
      PipeInv(s, k, a, b);
      pipes := pipes + [Pipe(true, true, 0)];
      files := files[a := files[a].(kind := PipeEnd(n, false))][b := files[b].(kind := PipeEnd(n, true))];
      ghost var p0 := procs[k];
      var slot0 := FindSlot(k);
      if slot0 == |procs[k].ofile| {
        procs := procs[k := At(procs[k], Closing(a, Closing(b, User)))];
        return -1, -1;
      }
      procs := procs[k := WithSlot(procs[k], slot0, Held(a))];
      var slot1 := FindSlot(k);
      if slot1 == |procs[k].ofile| {
        procs := procs[k := At(WithSlot(procs[k], slot0, Empty), Closing(a, Closing(b, User)))];
        assert procs[k].ofile == p0.ofile;
        assert procs == s.procs[k := procs[k]];
        return -1, -1;
      }
      PipeSlots(s, k, a, b, slot0, slot1);
      FirstTwoIs(p0.ofile, slot0, slot1, Held(a));
      procs := procs[k := At(WithSlot(procs[k], slot1, Held(b)), User)];
      assert procs == s.procs[k := procs[k]];
      return slot0, slot1;
    }

    /** sys_fork: a gone entry of the process table becomes the child. */
    method ForkStart(k: nat, c: nat)
      requires Inv(S()) && k < |procs| && procs[k].pc == User && c < |procs| && procs[c].pc == Gone
      modifies this
      ensures Inv(S()) && files == old(files) && pipes == old(pipes)
      ensures procs == old(procs)[c := Proc(seq(NOFILE, _ => Empty), Embryo)][k := At(old(procs[k]), Forking(c, 0))]
    {
      hide Inv;
      var born := Proc(seq(NOFILE, _ => Empty), Embryo);
      ForkStarts(S(), k, c, born);
      procs := procs[c := born][k := At(procs[k], Forking(c, 0))];
    }

    /** One turn of fork's descriptor loop up to filedup; past the last slot the child becomes runnable. */
    method ForkSlot(k: nat)
      requires Inv(S()) && k < |procs| && procs[k].pc.Forking?
      modifies this
      ensures Inv(S()) && pipes == old(pipes)
      ensures var p, c, fd := old(procs[k]), old(procs[k]).pc.child, old(procs[k]).pc.fd;
              && c < |old(procs)|
              && (fd >= NOFILE ==> files == old(files) && procs == old(procs)[k := At(p, User)][c := At(old(procs)[c], User)])
              && (fd < NOFILE && SlotAt(p, fd) == Empty ==> files == old(files) && procs == old(procs)[k := At(p, Forking(c, fd + 1))])
              && (fd < NOFILE && SlotAt(p, fd).Held? ==>
                    var g := SlotAt(p, fd).file;
                    g < |old(files)| && files == old(files)[g := old(files)[g].(ref := old(files)[g].ref + 1)]
                    && procs == old(procs)[k := At(p, ForkGot(c, fd, g))])
    {
      hide Inv, ForksOk;
      ghost var s := S();
      var c, fd := procs[k].pc.child, procs[k].pc.fd;
      ForkHas(s, k, c, fd);
      InvParts(s, k);
      if fd >= NOFILE {
        ForkEnds(s, k, c, fd);
        procs := procs[k := At(procs[k], User)][c := At(procs[c], User)];
      } else if procs[k].ofile[fd] == Empty {
        ForkSkips(s, k, c, fd);
        procs := procs[k := At(procs[k], Forking(c, fd + 1))];
      } else {
        var g := procs[k].ofile[fd].file;
        RefTaken(s, k, g, ForkGot(c, fd, g));
        files := files[g := files[g].(ref := files[g].ref + 1)];
        procs := procs[k := At(procs[k], ForkGot(c, fd, g))];
      }
    }

    /** The child's slot receives the reference. */
    method ForkAssign(k: nat)
      requires Inv(S()) && k < |procs| && procs[k].pc.ForkGot?
      modifies this
      ensures Inv(S()) && files == old(files) && pipes == old(pipes)
      ensures var p := old(procs[k]);
              && p.pc.child < |old(procs)|
              && procs == old(procs)[k := At(p, Forking(p.pc.child, p.pc.fd + 1))][p.pc.child := WithSlot(old(procs)[p.pc.child], p.pc.fd, Held(p.pc.file))]
    {
      hide Inv, ForksOk;
      var c, fd, g := procs[k].pc.child, procs[k].pc.fd, procs[k].pc.file;
      ForkHas(S(), k, c, fd);
      InvParts(S(), k);
      RefMoves(S(), k, c, fd, g);
      procs := procs[k := At(procs[k], Forking(c, fd + 1))][c := WithSlot(procs[c], fd, Held(g))];
    }

    /** proc_cleanup begins. */
    method ExitStart(k: nat)
      requires Inv(S()) && k < |procs| && procs[k].pc == User
      modifies this
      ensures Inv(S()) && files == old(files) && pipes == old(pipes) && procs == old(procs)[k := At(old(procs[k]), Exiting(0))]
    {
      hide Inv;
      InvParts(S(), k);
      PcMoves(S(), k, Exiting(0));
      procs := procs[k := At(procs[k], Exiting(0))];
    }

    /** One turn of its loop, up to the masked section of fileclose; past the last slot the process is gone. */
    method ExitSlot(k: nat)
      requires Inv(S()) && k < |procs| && procs[k].pc.Exiting?
      modifies this
      ensures Inv(S()) && pipes == old(pipes)
      ensures var p, fd := old(procs[k]), old(procs[k]).pc.fd;
              && (fd >= NOFILE ==> files == old(files) && procs == old(procs)[k := At(p, Gone)])
              && (fd < NOFILE && SlotAt(p, fd) == Empty ==> files == old(files) && procs == old(procs)[k := At(p, Exiting(fd + 1))])
              && (fd < NOFILE && SlotAt(p, fd).Held? ==>
                    var g := SlotAt(p, fd).file;
                    g < |old(files)| && old(files)[g].ref >= 1 && files == old(files)[g := Dropped(old(files)[g])]
                    && procs == old(procs)[k := At(p, AfterDrop(old(files)[g], Clearing(fd)))])
    {
      hide Inv;
      ghost var s := S();
      var fd := procs[k].pc.fd;
      InvParts(s, k);
      if fd >= NOFILE {
        PcMoves(s, k, Gone);
        procs := procs[k := At(procs[k], Gone)];
      } else if procs[k].ofile[fd] == Empty {
        PcMoves(s, k, Exiting(fd + 1));
        procs := procs[k := At(procs[k], Exiting(fd + 1))];
      } else {
        ExitDrops(s, k, fd);
        var g := procs[k].ofile[fd].file;
        procs := procs[k := At(procs[k], AfterDrop(files[g], Clearing(fd)))];
        files := files[g := Dropped(files[g])];
      }
    }

    /** The slot is cleared after its file was closed. */
    method ExitClear(k: nat)
      requires Inv(S()) && k < |procs| && procs[k].pc.Clearing?
      modifies this
      ensures Inv(S()) && files == old(files) && pipes == old(pipes)
      ensures var p := old(procs[k]); procs == old(procs)[k := At(WithSlot(p, p.pc.fd, Empty), Exiting(p.pc.fd + 1))]
    {
      hide Inv;
      var fd := procs[k].pc.fd;
      ExitClears(S(), k, fd);
      procs := procs[k := At(WithSlot(procs[k], fd, Empty), Exiting(fd + 1))];
    }

    /** A process enters a read or write on a descriptor, or comes back from it. While inside, the file
        stays referenced and its pipe allocated, whatever the others do. */
    method Use(k: nat, fd: nat)
      requires Inv(S()) && k < |procs| && (procs[k].pc == User || procs[k].pc.Using?)
      modifies this
      ensures Inv(S()) && files == old(files) && pipes == old(pipes)
      ensures procs == old(procs)[k := At(old(procs[k]), if old(procs[k]).pc == User && SlotAt(old(procs[k]), fd).Held? then Using(fd) else User)]
    {
      hide Inv;
      InvParts(S(), k);
      var pc := if procs[k].pc == User && fd < |procs[k].ofile| && procs[k].ofile[fd].Held? then Using(fd) else User;
      PcMoves(S(), k, pc);
      procs := procs[k := At(procs[k], pc)];
    }

    /** Any schedule: at each turn some process takes whatever step it is at, or starts a call. */
    method Run(schedule: seq<Event>) returns (ghost states: seq<Sys>)
      requires Inv(S())
      modifies this
      ensures Follows(states, schedule) && states[0] == old(S()) && states[|schedule|] == S()
      ensures forall i :: 0 <= i < |states| ==> Inv(states[i])
    {
      hide Inv, Turned;
      states := [S()];
      for i := 0 to |schedule|
        invariant |states| == i + 1 && states[0] == old(S()) && states[i] == S()
        invariant forall j :: 0 <= j < i ==> Turned(states[j], schedule[j], states[j + 1])
        invariant forall j :: 0 <= j <= i ==> Inv(states[j])
      {
        Turn(schedule[i]);
        states := states + [S()];
      }
    }

    /** One turn. */
    method Turn(e: Event)
      requires Inv(S())
      modifies this
      ensures Inv(S()) && Turned(old(S()), e, S())
    {
      hide Inv, Called, Opens, Copies, Closes;
      if e.k >= |procs| { return; }
      var k := e.k;
      ghost var s := S();
      match procs[k].pc {
        case User => StartCall(k, e.call);
        case Using(_) => Use(k, 0);
        case Closing(g, next) =>
          FileClose(k);
          ClosesIs(s, S(), k, s.procs[k].ofile, g, next);
        case EndClosing(_, _, _) => PipeClose(k);
        case Freeing(_, _) => FreePage(k);
        case Duping(_) => DupCount(k);
        case Opened(_) => ContinueOpen(k, e.page);
        case Made1(_) => ContinueOpen(k, e.page);
        case Made2(_, _) => ContinueOpen(k, e.page);
        case Forking(_, _) => ContinueFork(k);
        case ForkGot(_, _, _) => ContinueFork(k);
        case Exiting(fd) =>
          InvParts(s, k);
          ExitSlot(k);
          if fd < NOFILE && IsHeld(s.procs[k].ofile, fd) { ClosesIs(s, S(), k, s.procs[k].ofile, s.procs[k].ofile[fd].file, Clearing(fd)); }
        case Clearing(_) =>
          InvParts(s, k);
          ExitClear(k);
        case Embryo =>
        case Gone =>
      }
    }

    /** The first section of a call. */
    method StartCall(k: nat, call: Call)
      requires Inv(S()) && k < |procs| && procs[k].pc == User
      modifies this
      ensures Inv(S()) && Called(old(S()), S(), k, call)
    {
      hide Inv;
      match call {
        case Open => var _ := OpenStart(k);
        case Close(fd) => var _ := CloseStart(k, fd);
        case Dup(fd) =>
          var _ := DupStart(k, fd);
        case MakePipe => var _ := PipeStart(k);
        case Fork(c) => if c < |procs| && procs[c].pc == Gone { ForkStart(k, c); }
        case Exit => ExitStart(k);
        case Transfer(fd) => if fd < |procs[k].ofile| && procs[k].ofile[fd].Held? { Use(k, fd); }
      }
    }

    method ContinueOpen(k: nat, page: bool)
      requires Inv(S()) && k < |procs| && Taking(procs[k].pc)
      modifies this
      ensures Inv(S()) && Opens(old(S()), S(), k, page)
    {
      hide Inv;
      match procs[k].pc {
        case Opened(_) =>
          ghost var o := procs[k].ofile;
          var r := OpenFinish(k);
          if r >= 0 { assert FirstSlot(o, r); }
        case Made1(_) => var _ := PipeSecond(k);
        case Made2(_, _) => var _, _ := PipeFinish(k, page);
      }
    }

    method ContinueFork(k: nat)
      requires Inv(S()) && k < |procs| && IsFork(procs[k].pc)
      modifies this
      ensures Inv(S()) && Copies(old(S()), S(), k)
    {
      hide Inv, ForksOk;
      InvParts(S(), k);
      ForkHas(S(), k, procs[k].pc.child, procs[k].pc.fd);
      if procs[k].pc.Forking? { ForkSlot(k); } else { ForkAssign(k); }
    }
  }

  lemma FirstTwoIs(o: seq<Slot>, x: nat, y: nat, taken: Slot)
    requires FirstSlot(o, x) && taken != Empty && FirstSlot(o[x := taken], y)
    ensures FirstTwo(o, x, y) && TwoSlots(o)
  { forall j | 0 <= j < y && j != x ensures o[j] != Empty { assert o[x := taken][j] == o[j]; } }

  lemma ClosesIs(s: Sys, t: Sys, k: nat, o: seq<Slot>, g: nat, next: Pc)
    requires k < |s.procs| && o == s.procs[k].ofile && g < |s.files| && s.files[g].ref >= 1 && t.pipes == s.pipes
    requires t.files == s.files[g := Dropped(s.files[g])] && t.procs == s.procs[k := At(s.procs[k], AfterDrop(s.files[g], next))]
    ensures Closes(s, t, k, o, g, next)
  {}

  /** Inside a read or write the file is referenced, and a pipe's end open and its page allocated. */
  lemma UsingIsSafe(s: Sys, k: nat)
    requires Inv(s) && k < |s.procs| && s.procs[k].pc.Using? && |s.procs[k].ofile| == NOFILE
    ensures var x := SlotAt(s.procs[k], s.procs[k].pc.fd);
            && x.Held? && x.file < |s.files| && s.files[x.file].ref >= 1
            && (s.files[x.file].kind.PipeEnd? ==>
                  s.files[x.file].kind.pipe < |s.pipes| && IsOpen(s.pipes[s.files[x.file].kind.pipe], s.files[x.file].kind.writable)
                  && s.pipes[s.files[x.file].kind.pipe].freed == 0)
  {
    hide ForksOk, Counted, EndsOk, PagesOk, MadeOk, Inv;
    InvParts(s, k);
    SlotAlive(s, k, s.procs[k].pc.fd);
  }

  lemma PcFile(s: Sys, k: nat)
    requires Inv(s) && k < |s.procs| && (s.procs[k].pc.Closing? || s.procs[k].pc.Duping?)
    ensures s.procs[k].pc.file < |s.files|
  { hide ForksOk, Counted, EndsOk, PagesOk, MadeOk; }

  lemma PcPair(s: Sys, k: nat)
    requires Inv(s) && k < |s.procs| && s.procs[k].pc.Made2?
    ensures s.procs[k].pc.rf < |s.files| && s.procs[k].pc.wf < |s.files| && s.procs[k].pc.rf != s.procs[k].pc.wf
  { hide ForksOk, Counted, EndsOk, PagesOk, MadeOk; }

  lemma PcPipe(s: Sys, k: nat)
    requires Inv(s) && k < |s.procs| && (s.procs[k].pc.EndClosing? || s.procs[k].pc.Freeing?)
    ensures s.procs[k].pc.pipe < |s.pipes|
    ensures s.procs[k].pc.EndClosing? ==> EndsOf(s.procs[k].pc, s.procs[k].pc.pipe, s.procs[k].pc.writable) >= 1
  { hide ForksOk, Counted, EndsOk, PagesOk, MadeOk; }

  lemma MadeInv(s: Sys, k: nat, g: nat, pc: Pc)
    requires Inv(s) && k < |s.procs| && g < |s.files| && s.files[g].ref == 0
    requires (s.procs[k].pc == User && (pc == Made1(g) || pc == Opened(g))) || (s.procs[k].pc.Made1? && pc == Made2(s.procs[k].pc.file, g))
    ensures Inv(s.(files := s.files[g := File(1, Untyped)], procs := s.procs[k := At(s.procs[k], pc)]))
  {
    hide ForksOk, Counted, EndsOk, PagesOk, MadeOk, Inv;
    InvParts(s, k);
    RefBound(s, k, g);
    ForksSame(s.procs, k, At(s.procs[k], pc));
    FreshFile(s, k, g, Untyped, At(s.procs[k], pc));
  }

  lemma MadeDropped(s: Sys, k: nat, a: nat)
    requires Inv(s) && k < |s.procs| && s.procs[k].pc == Made1(a)
    ensures Inv(s.(procs := s.procs[k := At(s.procs[k], Closing(a, User))]))
  {
    hide ForksOk, Counted, EndsOk, PagesOk, MadeOk, Inv;
    InvParts(s, k);
    var p := At(s.procs[k], Closing(a, User));
    assert PcOk(p.ofile, User, |s.pipes|);
    forall f: nat ensures RefsOf(p, f) == RefsOf(s.procs[k], f) {
      assert Own(User, f) == 0 && Own(p.pc, f) == One(a == f) && Last(p.pc) == User;
      assert Own(Made1(a), f) == One(a == f) && Last(Made1(a)) == Made1(a);
    }
    ForksSame(s.procs, k, p);
    PrivateStep(s, k, p);
  }

  /** Two files waiting to be closed hold what the new pair held. */
  lemma PairRefs(p: Proc, a: nat, b: nat, npipes: nat)
    requires p.pc == Made2(a, b) && ProcOk(p, npipes)
    ensures ProcOk(At(p, Closing(a, Closing(b, User))), npipes) && EndsFree(Closing(a, Closing(b, User)))
    ensures forall f: nat :: RefsOf(At(p, Closing(a, Closing(b, User))), f) == RefsOf(p, f)
  {
    var q := At(p, Closing(a, Closing(b, User)));
    assert PcOk(p.ofile, User, npipes) && PcOk(p.ofile, Closing(b, User), npipes);
    forall f: nat ensures RefsOf(q, f) == RefsOf(p, f) {
      assert Own(User, f) == 0 && Own(Closing(b, User), f) == One(b == f) && Last(Closing(b, User)) == User;
    }
  }

  lemma MadeBothDropped(s: Sys, k: nat, a: nat, b: nat)
    requires Inv(s) && k < |s.procs| && s.procs[k].pc == Made2(a, b)
    ensures Inv(s.(procs := s.procs[k := At(s.procs[k], Closing(a, Closing(b, User)))]))
  {
    hide ForksOk, Counted, EndsOk, PagesOk, MadeOk, Inv, RefsOf, ProcOk;
    InvParts(s, k);
    var p := At(s.procs[k], Closing(a, Closing(b, User)));
    PairRefs(s.procs[k], a, b, |s.pipes|);
    EndsFreeZero(p.pc);
    ForksSame(s.procs, k, p);
    PrivateStep(s, k, p);
  }

  /** With the page and no slot for it. */
  lemma PipeInv(s: Sys, k: nat, a: nat, b: nat)
    requires Inv(s) && k < |s.procs| && s.procs[k].pc == Made2(a, b) && a < |s.files| && b < |s.files|
    ensures Inv(Sys(s.files[a := s.files[a].(kind := PipeEnd(|s.pipes|, false))][b := s.files[b].(kind := PipeEnd(|s.pipes|, true))],
                    s.procs[k := At(s.procs[k], Closing(a, Closing(b, User)))], s.pipes + [Pipe(true, true, 0)]))
  {
    hide ForksOk, Counted, EndsOk, PagesOk, MadeOk, Inv, RefsOf, ProcOk;
    InvParts(s, k);
    PairRefs(s.procs[k], a, b, |s.pipes|);
    MoreOk(s.procs[k], |s.pipes|);
    PairRefs(s.procs[k], a, b, |s.pipes| + 1);
    PipeMade(s, k, a, b, At(s.procs[k], Closing(a, Closing(b, User))));
  }

  lemma MoreOk(p: Proc, n: nat)
    requires ProcOk(p, n)
    ensures ProcOk(p, n + 1)
  { MorePipes(p.ofile, p.pc, n); }

  /** With the page and both slots. */
  lemma PipeSlots(s: Sys, k: nat, a: nat, b: nat, x: nat, y: nat)
    requires Inv(s) && k < |s.procs| && s.procs[k].pc == Made2(a, b) && a < |s.files| && b < |s.files|
    requires x < |s.procs[k].ofile| && y < |s.procs[k].ofile| && x != y && s.procs[k].ofile[x] == Empty == s.procs[k].ofile[y]
    ensures Inv(Sys(s.files[a := s.files[a].(kind := PipeEnd(|s.pipes|, false))][b := s.files[b].(kind := PipeEnd(|s.pipes|, true))],
                    s.procs[k := At(WithSlot(WithSlot(s.procs[k], x, Held(a)), y, Held(b)), User)], s.pipes + [Pipe(true, true, 0)]))
  {
    hide ForksOk, Counted, EndsOk, PagesOk, MadeOk, Inv;
    InvParts(s, k);
    var p := At(WithSlot(WithSlot(s.procs[k], x, Held(a)), y, Held(b)), User);
    forall f: nat | f < NFILE ensures RefsOf(p, f) == RefsOf(s.procs[k], f) {
      SlotsUpdate(s.procs[k].ofile, f, x, Held(a));
      SlotsUpdate(s.procs[k].ofile[x := Held(a)], f, y, Held(b));
    }
    PipeMade(s, k, a, b, p);
  }

  lemma StartInv(s: Sys)
    requires |s.files| == NFILE && s.pipes == [] && forall f :: 0 <= f < NFILE ==> s.files[f] == File(0, Untyped)
    requires forall k :: 0 <= k < |s.procs| ==> |s.procs[k].ofile| == NOFILE && s.procs[k].pc == (if k == 0 then User else Gone)
    requires forall k, j :: 0 <= k < |s.procs| && 0 <= j < NOFILE ==> s.procs[k].ofile[j] == Empty
    ensures Inv(s)
  {
    forall f: nat | f < NFILE ensures SumOf(s.procs, Refs(f)) == 0 {
      forall k | 0 <= k < |s.procs| ensures Refs(f)(s.procs[k]) == 0 { SlotsNone(s.procs[k].ofile, f); }
      SumZero(s.procs, Refs(f));
    }
  }

  lemma OpenedFile(s: Sys, k: nat, g: nat)
    requires Inv(s) && k < |s.procs| && s.procs[k].pc == Opened(g)
    ensures g < |s.files| && s.files[g] == File(1, Untyped)
  {
    hide ForksOk, Counted, EndsOk, PagesOk;
    assert ProcOk(s.procs[k], |s.pipes|);
  }

  lemma OpenInv(s: Sys, k: nat, g: nat, fd: nat)
    requires Inv(s) && k < |s.procs| && s.procs[k].pc == Opened(g) && g < |s.files|
    requires fd < |s.procs[k].ofile| ==> s.procs[k].ofile[fd] == Empty
    ensures Inv(s.(files := s.files[g := File(1, Inode)],
                   procs := s.procs[k := if fd < |s.procs[k].ofile| then At(WithSlot(s.procs[k], fd, Held(g)), User) else At(s.procs[k], Closing(g, User))]))
  {
    hide ForksOk, Counted, EndsOk, PagesOk, MadeOk, Inv;
    InvParts(s, k);
    OpenedFile(s, k, g);
    RefBound(s, k, g);
    var p := s.procs[k];
    var q := if fd < |p.ofile| then At(WithSlot(p, fd, Held(g)), User) else At(p, Closing(g, User));
    forall f: nat | f < NFILE ensures RefsOf(q, f) == RefsOf(p, f) {
      if fd < |p.ofile| { SlotsUpdate(p.ofile, f, fd, Held(g)); }
      assert Own(User, f) == 0 && Last(User) == User && Last(Opened(g)) == Opened(g);
      assert Own(Closing(g, User), f) == One(g == f) && Last(Closing(g, User)) == User;
    }
    assert PcOk(p.ofile, User, |s.pipes|);
    ForksSame(s.procs, k, q);
    FileStep(s, k, q, g, File(1, Inode));
  }
}
