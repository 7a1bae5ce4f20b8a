/** Open files, descriptor slots and pipe pages: the state, who holds references, and the invariant. */
module Descriptors {
  const NFILE: nat := 100
  const NOFILE: nat := 16

  datatype Slot = Empty | Held(file: nat)
  datatype Kind = Untyped | PipeEnd(pipe: nat, writable: bool) | Inode
  datatype File = File(ref: nat, kind: Kind)

  /** One allocated pipe page; freed counts how often it was given back. */
  datatype Pipe = Pipe(readopen: bool, writeopen: bool, freed: nat)

  /** Where a process is between two masked sections. */
  datatype Pc =
    | User
    | Using(fd: nat)                                    // inside read or write on a descriptor
    | Closing(file: nat, next: Pc)                      // about to run fileclose
    | EndClosing(pipe: nat, writable: bool, next: Pc)   // about to run pipeclose
    | Freeing(pipe: nat, next: Pc)                      // about to free the pipe page
    | Duping(file: nat)                                 // slot filled, filedup still to run
    | Opened(file: nat)                                 // sys_open holds a new file
    | Made1(file: nat)                                  // sys_pipe holds one new file
    | Made2(rf: nat, wf: nat)                           // sys_pipe holds both new files
    | Forking(child: nat, fd: nat)                      // copying slots from fd on
    | ForkGot(child: nat, fd: nat, file: nat)           // filedup done, child's slot not yet filled
    | Exiting(fd: nat)                                  // slots below fd are done
    | Clearing(fd: nat)                                 // reference dropped, slot not yet cleared
    | Embryo                                            // being set up by its parent
    | Gone                                              // zombie or unused

  datatype Proc = Proc(ofile: seq<Slot>, pc: Pc)
  datatype Sys = Sys(files: seq<File>, procs: seq<Proc>, pipes: seq<Pipe>)

  // ---------- Sums ----------

  function SumOf<T>(s: seq<T>, w: T -> int): int {
    if s == [] then 0 else SumOf(s[..|s| - 1], w) + w(s[|s| - 1])
  }

  lemma {:induction false} SumUpdate<T>(s: seq<T>, w: T -> int, k: nat, x: T)
    requires k < |s|
    ensures SumOf(s[k := x], w) == SumOf(s, w) - w(s[k]) + w(x)
  {
    var n := |s| - 1;
    if k == n {
      assert s[k := x][..n] == s[..n];
    } else {
      assert s[k := x][..n] == s[..n][k := x];
      SumUpdate(s[..n], w, k, x);
    }
  }

  lemma {:induction false} SumAtLeast<T>(s: seq<T>, w: T -> int, k: nat)
    requires k < |s| && forall i :: 0 <= i < |s| ==> w(s[i]) >= 0
    ensures SumOf(s, w) >= w(s[k])
  {
    var n := |s| - 1;
    if k < n { SumAtLeast(s[..n], w, k); } else { SumNonneg(s[..n], w); }
  }

  lemma {:induction false} SumAtLeastTwo<T>(s: seq<T>, w: T -> int, k: nat, j: nat)
    requires k < |s| && j < |s| && k != j && forall i :: 0 <= i < |s| ==> w(s[i]) >= 0
    ensures SumOf(s, w) >= w(s[k]) + w(s[j])
  {
    var n := |s| - 1;
    if k == n { SumAtLeast(s[..n], w, j); } else if j == n { SumAtLeast(s[..n], w, k); } else { SumAtLeastTwo(s[..n], w, k, j); }
  }

  lemma {:induction false} SumNonneg<T>(s: seq<T>, w: T -> int)
    requires forall i :: 0 <= i < |s| ==> w(s[i]) >= 0
    ensures SumOf(s, w) >= 0
  { if s != [] { SumNonneg(s[..|s| - 1], w); } }

  lemma {:induction false} SumZero<T>(s: seq<T>, w: T -> int)
    requires forall i :: 0 <= i < |s| ==> w(s[i]) == 0
    ensures SumOf(s, w) == 0
  { if s != [] { SumZero(s[..|s| - 1], w); } }

  /** A positive sum of natural weights has a positive term. */
  lemma {:induction false} SumWitness<T>(s: seq<T>, w: T -> int) returns (k: nat)
    requires SumOf(s, w) > 0
    ensures k < |s| && w(s[k]) > 0
  {
    var n := |s| - 1;
    if w(s[n]) > 0 { k := n; } else { k := SumWitness(s[..n], w); }
  }

  // ---------- References held by a process ----------

  function One(b: bool): int { if b then 1 else 0 }

  function Slots(o: seq<Slot>, f: nat): nat {
    if o == [] then 0 else Slots(o[..|o| - 1], f) + One(o[|o| - 1] == Held(f))
  }

  lemma {:induction false} SlotsUpdate(o: seq<Slot>, f: nat, fd: nat, x: Slot)
    requires fd < |o|
    ensures Slots(o[fd := x], f) == Slots(o, f) - One(o[fd] == Held(f)) + One(x == Held(f))
  {
    var n := |o| - 1;
    if fd == n {
      assert o[fd := x][..n] == o[..n];
    } else {
      assert o[fd := x][..n] == o[..n][fd := x];
      SlotsUpdate(o[..n], f, fd, x);
    }
  }

  lemma {:induction false} SlotsPositive(o: seq<Slot>, f: nat, fd: nat)
    requires fd < |o| && o[fd] == Held(f)
    ensures Slots(o, f) >= 1
  { if fd < |o| - 1 { SlotsPositive(o[..|o| - 1], f, fd); } }

  lemma {:induction false} SlotsNone(o: seq<Slot>, f: nat)
    requires forall j :: 0 <= j < |o| ==> o[j] != Held(f)
    ensures Slots(o, f) == 0
  { if o != [] { SlotsNone(o[..|o| - 1], f); } }

  /** References the program counter owns beside the slots. */
  function Own(pc: Pc, f: nat): nat {
    match pc
    case Closing(g, t) => One(g == f) + Own(t, f)
    case EndClosing(_, _, t) => Own(t, f)
    case Freeing(_, t) => Own(t, f)
    case Opened(g) => One(g == f)
    case Made1(g) => One(g == f)
    case Made2(a, b) => One(a == f) + One(b == f)
    case ForkGot(_, _, g) => One(g == f)
    case _ => 0
  }

  function Last(pc: Pc): Pc {
    match pc
    case Closing(_, t) => Last(t)
    case EndClosing(_, _, t) => Last(t)
    case Freeing(_, t) => Last(t)
    case _ => pc
  }

  /** A slot whose reference was dropped already. */
  predicate Limbo(p: Proc, fd: nat) { Last(p.pc) == Clearing(fd) }

  /** Slots that are not backed by a reference at this moment. */
  function Owed(p: Proc, f: nat): nat {
    match Last(p.pc)
    case Duping(g) => One(g == f)
    case Clearing(fd) => One(fd < |p.ofile| && p.ofile[fd] == Held(f))
    case _ => 0
  }

  function RefsOf(p: Proc, f: nat): int { Slots(p.ofile, f) + Own(p.pc, f) - Owed(p, f) }

  /** Pending calls of pipeclose for one end, and pending frees of the page. */
  function EndsOf(pc: Pc, pi: nat, w: bool): nat {
    match pc
    case EndClosing(q, v, t) => One(q == pi && v == w) + EndsOf(t, pi, w)
    case Closing(_, t) => EndsOf(t, pi, w)
    case Freeing(_, t) => EndsOf(t, pi, w)
    case _ => 0
  }

  function FreesOf(pc: Pc, pi: nat): nat {
    match pc
    case Freeing(q, t) => One(q == pi) + FreesOf(t, pi)
    case Closing(_, t) => FreesOf(t, pi)
    case EndClosing(_, _, t) => FreesOf(t, pi)
    case _ => 0
  }

  function Refs(f: nat): Proc -> int { (p: Proc) => RefsOf(p, f) }
  function Ends(pi: nat, w: bool): Proc -> int { (p: Proc) => EndsOf(p.pc, pi, w) }
  function Frees(pi: nat): Proc -> int { (p: Proc) => FreesOf(p.pc, pi) }
  function FileEnds(pi: nat, w: bool): File -> int { (x: File) => One(x.kind == PipeEnd(pi, w)) }

  predicate IsOpen(p: Pipe, w: bool) { if w then p.writeopen else p.readopen }
  predicate IsShut(p: Pipe) { !p.readopen && !p.writeopen }

  // ---------- The invariant ----------

  predicate Tail(t: Pc) { t.User? || t.Clearing? || (t.Closing? && t.next.User?) }

  predicate PcOk(o: seq<Slot>, pc: Pc, npipes: nat) {
    match pc
    case Using(fd) => fd < |o| && o[fd].Held?
    case Closing(f, t) => f < NFILE && Tail(t) && PcOk(o, t, npipes)
    case EndClosing(q, _, t) => q < npipes && Tail(t) && PcOk(o, t, npipes)
    case Freeing(q, t) => q < npipes && Tail(t) && PcOk(o, t, npipes)
    case Duping(f) => f < NFILE && Slots(o, f) >= 2
    case Opened(f) => f < NFILE
    case Made1(f) => f < NFILE
    case Made2(a, b) => a < NFILE && b < NFILE && a != b
    case Forking(_, fd) => fd <= NOFILE
    case ForkGot(_, fd, f) => fd < NOFILE && f < NFILE
    case Exiting(fd) => fd <= NOFILE && forall j :: 0 <= j < fd && j < |o| ==> o[j] == Empty
    case Clearing(fd) => fd < |o| && o[fd].Held? && forall j :: 0 <= j < fd ==> o[j] == Empty
    case Gone => forall j :: 0 <= j < |o| ==> o[j] == Empty
    case _ => true
  }

  predicate ProcOk(p: Proc, npipes: nat) {
    && |p.ofile| == NOFILE && PcOk(p.ofile, p.pc, npipes)
    && forall j :: 0 <= j < NOFILE && p.ofile[j].Held? ==> p.ofile[j].file < NFILE
  }

  predicate FileOk(x: File, npipes: nat) {
    && (x.ref == 0 ==> x.kind == Untyped)
    && (x.kind.PipeEnd? ==> x.kind.pipe < npipes)
  }

  ghost predicate Shaped(s: Sys) {
    && |s.files| == NFILE
    && (forall f :: 0 <= f < NFILE ==> FileOk(s.files[f], |s.pipes|))
    && (forall k :: 0 <= k < |s.procs| ==> ProcOk(s.procs[k], |s.pipes|))
  }

  predicate IsFork(pc: Pc) { pc.Forking? || pc.ForkGot? }

  /** A forking parent is the only one to touch its child, whose slots from fd on are still empty. */
  ghost predicate ForksOk(procs: seq<Proc>) {
    && (forall k :: 0 <= k < |procs| && IsFork(procs[k].pc) ==>
         var c, fd := procs[k].pc.child, procs[k].pc.fd;
         c < |procs| && c != k && procs[c].pc == Embryo && |procs[c].ofile| == NOFILE
         && forall j :: fd <= j < NOFILE ==> procs[c].ofile[j] == Empty)
    && (forall k, l :: 0 <= k < |procs| && 0 <= l < |procs| && k != l && IsFork(procs[k].pc) && IsFork(procs[l].pc) ==>
         procs[k].pc.child != procs[l].pc.child)
  }

  /** Every file's count is the number of references held. */
  ghost predicate Counted(s: Sys)
    requires |s.files| == NFILE
  { forall f: nat :: f < NFILE ==> s.files[f].ref == SumOf(s.procs, Refs(f)) }

  /** An end of a pipe is open exactly while one file, or one pending pipeclose, stands for it. */
  ghost predicate EndsOk(s: Sys) {
    forall pi: nat, w: bool :: pi < |s.pipes| ==>
      SumOf(s.files, FileEnds(pi, w)) + SumOf(s.procs, Ends(pi, w)) == One(IsOpen(s.pipes[pi], w))
  }

  /** A page is given back, or about to be, exactly once both ends are shut. */
  ghost predicate PagesOk(s: Sys) {
    forall pi: nat :: pi < |s.pipes| ==> s.pipes[pi].freed + SumOf(s.procs, Frees(pi)) == One(IsShut(s.pipes[pi]))
  }

  /** Files a call has just taken. */
  predicate MadeOf(pc: Pc, g: nat) {
    match pc
    case Opened(a) => a == g
    case Made1(a) => a == g
    case Made2(a, b) => a == g || b == g
    case _ => false
  }

  predicate Taking(pc: Pc) { pc.Opened? || pc.Made1? || pc.Made2? }

  /** A file a call has just taken is its own and still has no type. */
  ghost predicate MadeOk(s: Sys)
    requires |s.files| == NFILE
  {
    forall k: nat, g: nat :: k < |s.procs| && g < NFILE && MadeOf(s.procs[k].pc, g) ==> s.files[g] == File(1, Untyped)
  }

  ghost predicate Inv(s: Sys) {
    Shaped(s) && ForksOk(s.procs) && Counted(s) && EndsOk(s) && PagesOk(s) && MadeOk(s)
  }

  // ---------- What the invariant means ----------

  lemma ContributesNonneg(p: Proc, npipes: nat, f: nat)
    requires ProcOk(p, npipes)
    ensures RefsOf(p, f) >= Own(p.pc, f) >= 0
    ensures forall fd: nat :: fd < NOFILE && p.ofile[fd] == Held(f) && !Limbo(p, fd) ==> RefsOf(p, f) >= 1
    ensures forall pi: nat, w: bool :: EndsOf(p.pc, pi, w) >= 0 && FreesOf(p.pc, pi) >= 0
  {
    LastOk(p.ofile, p.pc, npipes);
    match Last(p.pc) {
      case Clearing(fd) =>
        if p.ofile[fd] == Held(f) {
          SlotsPositive(p.ofile, f, fd);
          forall d: nat | d < NOFILE && p.ofile[d] == Held(f) && d != fd ensures Slots(p.ofile, f) >= 2 {
            SlotsUpdate(p.ofile, f, d, Empty);
            SlotsPositive(p.ofile[d := Empty], f, fd);
          }
        } else {
          SlotsAll(p.ofile, f);
        }
      case _ => SlotsAll(p.ofile, f);
    }
  }

  lemma SlotsAll(o: seq<Slot>, f: nat)
    ensures forall fd: nat :: fd < |o| && o[fd] == Held(f) ==> Slots(o, f) >= 1
  {}

  lemma {:induction false} LastOk(o: seq<Slot>, pc: Pc, npipes: nat)
    requires PcOk(o, pc, npipes)
    ensures PcOk(o, Last(pc), npipes) && (Last(pc) == pc || Last(pc).User? || Last(pc).Clearing?)
  {
    match pc {
      case Closing(_, t) => LastOk(o, t, npipes);
      case EndClosing(_, _, t) => LastOk(o, t, npipes);
      case Freeing(_, t) => LastOk(o, t, npipes);
      case _ =>
    }
  }

  /** A file's count bounds what any one process holds. */
  lemma RefBound(s: Sys, k: nat, f: nat)
    requires Inv(s) && k < |s.procs| && f < NFILE
    ensures s.files[f].ref >= RefsOf(s.procs[k], f) >= Own(s.procs[k].pc, f) >= 0
  {
    hide ForksOk, EndsOk, PagesOk, RefsOf, ProcOk;
    forall i | 0 <= i < |s.procs| ensures Refs(f)(s.procs[i]) >= 0 { ContributesNonneg(s.procs[i], |s.pipes|, f); }
    SumAtLeast(s.procs, Refs(f), k);
    assert Refs(f)(s.procs[k]) == RefsOf(s.procs[k], f);
    ContributesNonneg(s.procs[k], |s.pipes|, f);
  }

  /** Two processes' holdings add up. */
  lemma RefBoundTwo(s: Sys, k: nat, j: nat, f: nat)
    requires Inv(s) && k < |s.procs| && j < |s.procs| && k != j && f < NFILE
    ensures s.files[f].ref >= RefsOf(s.procs[k], f) + RefsOf(s.procs[j], f)
  {
    hide ForksOk, EndsOk, PagesOk, RefsOf, ProcOk, MadeOk;
    forall i | 0 <= i < |s.procs| ensures Refs(f)(s.procs[i]) >= 0 { ContributesNonneg(s.procs[i], |s.pipes|, f); }
    SumAtLeastTwo(s.procs, Refs(f), k, j);
    assert Refs(f)(s.procs[k]) == RefsOf(s.procs[k], f) && Refs(f)(s.procs[j]) == RefsOf(s.procs[j], f);
  }

  /** A live descriptor's file is referenced, and if it is a pipe end, the end is open, the page was
      never freed and nobody is about to free it. */
  lemma SlotAlive(s: Sys, k: nat, fd: nat)
    requires Inv(s) && k < |s.procs| && fd < NOFILE && ProcOk(s.procs[k], |s.pipes|) && s.procs[k].ofile[fd].Held? && !Limbo(s.procs[k], fd)
    ensures var f := s.procs[k].ofile[fd].file;
            && f < NFILE && s.files[f].ref >= 1
            && (s.files[f].kind.PipeEnd? ==>
                  var pi := s.files[f].kind.pipe;
                  pi < |s.pipes| && IsOpen(s.pipes[pi], s.files[f].kind.writable) && s.pipes[pi].freed == 0
                  && forall j: nat :: j < |s.procs| ==> FreesOf(s.procs[j].pc, pi) == 0)
  {
    hide ForksOk, EndsOk, PagesOk, Counted, RefsOf, PcOk;
    var f := s.procs[k].ofile[fd].file;
    ContributesNonneg(s.procs[k], |s.pipes|, f);
    RefBound(s, k, f);
    if s.files[f].kind.PipeEnd? { EndIsOpen(s, f); }
  }

  lemma EndIsOpen(s: Sys, f: nat)
    requires Inv(s) && f < NFILE && s.files[f].kind.PipeEnd?
    ensures var pi := s.files[f].kind.pipe;
            pi < |s.pipes| && IsOpen(s.pipes[pi], s.files[f].kind.writable) && s.pipes[pi].freed == 0
            && forall j: nat :: j < |s.procs| ==> FreesOf(s.procs[j].pc, pi) == 0
  {
    hide ForksOk, Counted, ProcOk;
    var pi, w := s.files[f].kind.pipe, s.files[f].kind.writable;
    assert FileOk(s.files[f], |s.pipes|);
    SumAtLeast(s.files, FileEnds(pi, w), f);
    SumNonneg(s.procs, Ends(pi, w));
    assert FileEnds(pi, w)(s.files[f]) == 1;
    forall j: nat | j < |s.procs| ensures FreesOf(s.procs[j].pc, pi) == 0 {
      SumAtLeast(s.procs, Frees(pi), j);
      assert Frees(pi)(s.procs[j]) == FreesOf(s.procs[j].pc, pi);
    }
    SumNonneg(s.procs, Frees(pi));
  }

  /** No page is ever given back twice. */
  lemma FreedOnce(s: Sys, pi: nat)
    requires Inv(s) && pi < |s.pipes|
    ensures s.pipes[pi].freed <= 1 && (s.pipes[pi].freed == 1 ==> IsShut(s.pipes[pi]))
  {
    hide Shaped, ForksOk, Counted, EndsOk;
    SumNonneg(s.procs, Frees(pi));
  }

  /** No operation is under way. */
  ghost predicate Quiet(s: Sys) {
    forall k :: 0 <= k < |s.procs| ==> s.procs[k].pc.User? || s.procs[k].pc.Using? || s.procs[k].pc.Gone?
  }

  function SlotCount(f: nat): Proc -> int { (p: Proc) => Slots(p.ofile, f) }

  lemma {:induction false} SumSame<T>(s: seq<T>, v: T -> int, w: T -> int)
    requires forall i :: 0 <= i < |s| ==> v(s[i]) == w(s[i])
    ensures SumOf(s, v) == SumOf(s, w)
  { if s != [] { SumSame(s[..|s| - 1], v, w); } }

  /** With no operation under way a file's count is the number of slots holding it over all
      processes, and a pipe page has been given back, exactly once, exactly when no descriptor of
      either end is left. */
  lemma QuietCounts(s: Sys)
    requires Inv(s) && Quiet(s)
    ensures forall f: nat :: f < NFILE ==> s.files[f].ref == SumOf(s.procs, SlotCount(f))
    ensures forall pi: nat :: pi < |s.pipes| ==> (s.pipes[pi].freed == 1 <==> !InUse(s, pi))
  {
    hide ForksOk, EndsOk, PagesOk;
    forall f: nat | f < NFILE ensures s.files[f].ref == SumOf(s.procs, SlotCount(f)) {
      forall k | 0 <= k < |s.procs| ensures Refs(f)(s.procs[k]) == SlotCount(f)(s.procs[k]) {
        assert s.procs[k].pc.User? || s.procs[k].pc.Using? || s.procs[k].pc.Gone?;
      }
      SumSame(s.procs, Refs(f), SlotCount(f));
    }
    forall pi: nat | pi < |s.pipes| ensures s.pipes[pi].freed == 1 <==> !InUse(s, pi) { QuietPipe(s, pi); }
  }

  /** Some descriptor slot refers to an end of the pipe. */
  ghost predicate InUse(s: Sys, pi: nat) {
    exists k: nat, fd: nat :: k < |s.procs| && fd < |s.procs[k].ofile| && HoldsPipe(s, k, fd, pi)
  }

  ghost predicate HoldsPipe(s: Sys, k: nat, fd: nat, pi: nat)
    requires k < |s.procs| && fd < |s.procs[k].ofile|
  {
    s.procs[k].ofile[fd].Held? && s.procs[k].ofile[fd].file < |s.files|
    && s.files[s.procs[k].ofile[fd].file].kind.PipeEnd? && s.files[s.procs[k].ofile[fd].file].kind.pipe == pi
  }

  lemma QuietPipe(s: Sys, pi: nat)
    requires Inv(s) && Quiet(s) && pi < |s.pipes|
    ensures s.pipes[pi].freed == 1 <==> !InUse(s, pi)
  {
    hide ForksOk, PcOk, Counted, EndsOk;
    FreedOnce(s, pi);
    if s.pipes[pi].freed == 1 {
      forall k: nat, fd: nat | k < |s.procs| && fd < |s.procs[k].ofile| ensures !HoldsPipe(s, k, fd, pi) {
        if HoldsPipe(s, k, fd, pi) {
          assert !Limbo(s.procs[k], fd);
          SlotAlive(s, k, fd);
        }
      }
    } else {
      SumZero(s.procs, Frees(pi));
      assert !IsShut(s.pipes[pi]);
      var k, fd := OpenIsHeld(s, pi, s.pipes[pi].writeopen);
      assert HoldsPipe(s, k, fd, pi);
    }
  }

  /** With no operation under way an open end is held by a descriptor. */
  lemma OpenIsHeld(s: Sys, pi: nat, w: bool) returns (k: nat, fd: nat)
    requires Inv(s) && Quiet(s) && pi < |s.pipes| && IsOpen(s.pipes[pi], w)
    ensures k < |s.procs| && fd < |s.procs[k].ofile| && HoldsPipe(s, k, fd, pi)
  {
    hide ForksOk, PcOk, PagesOk;
    SumZero(s.procs, Ends(pi, w));
    var f := SumWitness(s.files, FileEnds(pi, w));
    assert FileOk(s.files[f], |s.pipes|) && s.files[f].kind == PipeEnd(pi, w);
    assert s.files[f].ref == SumOf(s.procs, Refs(f));
    k := SumWitness(s.procs, Refs(f));
    fd := HeldSlot(s.procs[k].ofile, f);
  }

  lemma {:induction false} HeldSlot(o: seq<Slot>, f: nat) returns (fd: nat)
    requires Slots(o, f) > 0
    ensures fd < |o| && o[fd] == Held(f)
  { if o[|o| - 1] == Held(f) { fd := |o| - 1; } else { fd := HeldSlot(o[..|o| - 1], f); } }
}
