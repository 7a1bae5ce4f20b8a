/** What one turn of a process does to open files, slots and pipes, and that every call ends. */
module DescriptorSteps {
  import opened Descriptors

  datatype Call = Open | Close(fd: int) | Dup(fd: int) | MakePipe | Fork(child: nat) | Exit | Transfer(slot: nat)

  /** Which process runs next, what it calls if it is in user mode, and whether a page is free for a pipe. */
  datatype Event = Event(k: nat, call: Call, page: bool)

  // ---------- One turn ----------

  /** Process k went on to pc with these slots; every other process is the same. */
  ghost predicate Became(s: Sys, t: Sys, k: nat, o: seq<Slot>, pc: Pc) { k < |s.procs| && t.procs == s.procs[k := Proc(o, pc)] }

  predicate IsHeld(o: seq<Slot>, fd: int) { 0 <= fd < |o| && o[fd].Held? }

  ghost predicate NoFile(s: Sys) { forall g :: 0 <= g < |s.files| ==> s.files[g].ref != 0 }

  /** File g was the first unreferenced one and now has one reference. */
  ghost predicate NewFile(s: Sys, t: Sys, g: nat) {
    && g < |s.files| && s.files[g].ref == 0 && (forall i :: 0 <= i < g ==> s.files[i].ref != 0)
    && t.files == s.files[g := File(1, Untyped)]
  }

  ghost predicate NoSlot(o: seq<Slot>) { forall j :: 0 <= j < |o| ==> o[j] != Empty }

  ghost predicate FirstSlot(o: seq<Slot>, fd: nat) { fd < |o| && o[fd] == Empty && forall j :: 0 <= j < fd ==> o[j] != Empty }

  /** fileclose of file g by process k, which goes on at next, by way of pipeclose for the last reference to a pipe's end. */
  ghost predicate Closes(s: Sys, t: Sys, k: nat, o: seq<Slot>, g: nat, next: Pc) {
    && g < |s.files| && t.pipes == s.pipes
    && var x := s.files[g];
       if x.ref > 1 then t.files == s.files[g := File(x.ref - 1, x.kind)] && Became(s, t, k, o, next)
       else
         && x.ref == 1 && t.files == s.files[g := File(0, Untyped)]
         && Became(s, t, k, o, match x.kind case PipeEnd(q, w) => EndClosing(q, w, next) case _ => next)
  }

  /** The first masked section of a call. */
  ghost predicate Called(s: Sys, t: Sys, k: nat, call: Call)
    requires k < |s.procs|
  {
    var o := s.procs[k].ofile;
    match call
    case Open => if NoFile(s) then t == s else t.pipes == s.pipes && exists g: nat :: NewFile(s, t, g) && Became(s, t, k, o, Opened(g))
    case MakePipe => if NoFile(s) then t == s else t.pipes == s.pipes && exists g: nat :: NewFile(s, t, g) && Became(s, t, k, o, Made1(g))
    case Close(fd) =>
      if IsHeld(o, fd) then t.files == s.files && t.pipes == s.pipes && Became(s, t, k, o[fd := Empty], Closing(o[fd].file, User)) else t == s
    case Dup(fd) =>
      if IsHeld(o, fd) && !NoSlot(o) then
        t.files == s.files && t.pipes == s.pipes && exists to: nat :: FirstSlot(o, to) && Became(s, t, k, o[to := o[fd]], Duping(o[fd].file))
      else t == s
    case Fork(c) =>
      if c < |s.procs| && s.procs[c].pc == Gone then
        t.files == s.files && t.pipes == s.pipes && t.procs == s.procs[c := Proc(seq(NOFILE, _ => Empty), Embryo)][k := Proc(o, Forking(c, 0))]
      else t == s
    case Exit => t.files == s.files && t.pipes == s.pipes && Became(s, t, k, o, Exiting(0))
    case Transfer(fd) => if IsHeld(o, fd) then t.files == s.files && t.pipes == s.pipes && Became(s, t, k, o, Using(fd)) else t == s
  }

  /** The sections of sys_open and sys_pipe past their first. */
  ghost predicate Opens(s: Sys, t: Sys, k: nat, page: bool)
    requires k < |s.procs| && Taking(s.procs[k].pc)
  {
    var o := s.procs[k].ofile;
    match s.procs[k].pc
    case Opened(g) =>
      && g < |s.files| && t.files == s.files[g := File(1, Inode)] && t.pipes == s.pipes
      && if NoSlot(o) then Became(s, t, k, o, Closing(g, User))
         else exists fd: nat :: FirstSlot(o, fd) && Became(s, t, k, o[fd := Held(g)], User)
    case Made1(a) =>
      && t.pipes == s.pipes
      && if NoFile(s) then t.files == s.files && Became(s, t, k, o, Closing(a, User))
         else exists b: nat :: NewFile(s, t, b) && Became(s, t, k, o, Made2(a, b))
    case Made2(a, b) =>
      && a < |s.files| && b < |s.files|
      && (if page then t.files == s.files[a := File(1, PipeEnd(|s.pipes|, false))][b := File(1, PipeEnd(|s.pipes|, true))] && t.pipes == s.pipes + [Pipe(true, true, 0)]
          else t.files == s.files && t.pipes == s.pipes)
      && (if page && TwoSlots(o) then
            exists x: nat, y: nat :: FirstTwo(o, x, y) && Became(s, t, k, o[x := Held(a)][y := Held(b)], User)
          else Became(s, t, k, o, Closing(a, Closing(b, User))))
    case _ => false
  }

  ghost predicate FirstTwo(o: seq<Slot>, x: nat, y: nat) {
    && x < y < |o| && o[x] == Empty == o[y] && forall j :: 0 <= j < y && j != x ==> o[j] != Empty
  }

  ghost predicate TwoSlots(o: seq<Slot>) { exists x, y :: 0 <= x < y < |o| && o[x] == Empty == o[y] }

  /** One turn of fork's loop over the slots. */
  ghost predicate Copies(s: Sys, t: Sys, k: nat)
    requires k < |s.procs| && IsFork(s.procs[k].pc)
  {
    var o := s.procs[k].ofile;
    t.pipes == s.pipes
    && match s.procs[k].pc
       case Forking(c, fd) =>
         if fd >= NOFILE then
           && t.files == s.files && c < |s.procs| && c != k && s.procs[c].pc == Embryo
           && t.procs == s.procs[k := Proc(o, User)][c := Proc(s.procs[c].ofile, User)]
         else if !IsHeld(o, fd) then t.files == s.files && Became(s, t, k, o, Forking(c, fd + 1))
         else
           var g := o[fd].file;
           g < |s.files| && t.files == s.files[g := File(s.files[g].ref + 1, s.files[g].kind)] && Became(s, t, k, o, ForkGot(c, fd, g))
       case ForkGot(c, fd, g) =>
         && t.files == s.files && c < |s.procs| && c != k && fd < |s.procs[c].ofile|
         && t.procs == s.procs[k := Proc(o, Forking(c, fd + 1))][c := Proc(s.procs[c].ofile[fd := Held(g)], s.procs[c].pc)]
       case _ => false
  }

  /** One turn of process e.k, from wherever it stands. */
  ghost predicate Turned(s: Sys, e: Event, t: Sys) {
    if e.k >= |s.procs| then t == s
    else
      var k, o := e.k, s.procs[e.k].ofile;
      match s.procs[k].pc
      case User => Called(s, t, k, e.call)
      case Using(_) => t.files == s.files && t.pipes == s.pipes && Became(s, t, k, o, User)
      case Closing(g, next) => Closes(s, t, k, o, g, next)
      case EndClosing(q, w, next) =>
        && q < |s.pipes| && t.files == s.files
        && var x := if w then s.pipes[q].(writeopen := false) else s.pipes[q].(readopen := false);
           t.pipes == s.pipes[q := x] && Became(s, t, k, o, if x.readopen || x.writeopen then next else Freeing(q, next))
      case Freeing(q, next) =>
        q < |s.pipes| && t.files == s.files && s.pipes[q].freed == 0 && t.pipes == s.pipes[q := s.pipes[q].(freed := 1)] && Became(s, t, k, o, next)
      case Duping(g) =>
        g < |s.files| && t.files == s.files[g := File(s.files[g].ref + 1, s.files[g].kind)] && t.pipes == s.pipes && Became(s, t, k, o, User)
      case Opened(_) => Opens(s, t, k, e.page)
      case Made1(_) => Opens(s, t, k, e.page)
      case Made2(_, _) => Opens(s, t, k, e.page)
      case Forking(_, _) => Copies(s, t, k)
      case ForkGot(_, _, _) => Copies(s, t, k)
      case Exiting(fd) =>
        if fd >= NOFILE then t.files == s.files && t.pipes == s.pipes && Became(s, t, k, o, Gone)
        else if !IsHeld(o, fd) then t.files == s.files && t.pipes == s.pipes && Became(s, t, k, o, Exiting(fd + 1))
        else Closes(s, t, k, o, o[fd].file, Clearing(fd))
      case Clearing(fd) => fd < |o| && t.files == s.files && t.pipes == s.pipes && Became(s, t, k, o[fd := Empty], Exiting(fd + 1))
      case Embryo => t == s
      case Gone => t == s
  }

  // ---------- Every call ends ----------

  predicate InCall(pc: Pc) { !pc.User? && !pc.Embryo? && !pc.Gone? }

  /** A bound on the turns a process still needs to leave the call it is in. */
  function Work(pc: Pc): nat {
    match pc
    case User => 0
    case Gone => 0
    case Embryo => 0
    case Using(_) => 1
    case Duping(_) => 1
    case Freeing(_, next) => 1 + Work(next)
    case EndClosing(_, _, next) => 2 + Work(next)
    case Closing(_, next) => 3 + Work(next)
    case Opened(_) => 4
    case Made2(_, _) => 7
    case Made1(_) => 8
    case Forking(_, fd) => if fd < NOFILE then 2 * (NOFILE - fd) + 1 else 1
    case ForkGot(_, fd, _) => if fd < NOFILE then 2 * (NOFILE - fd) else 2
    case Exiting(fd) => if fd < NOFILE then 4 * (NOFILE - fd) + 1 else 1
    case Clearing(fd) => if fd < NOFILE then 4 * (NOFILE - fd) - 2 else 2
  }

  /** A turn inside a call brings its end nearer, whatever the other processes have done meanwhile. */
  lemma TurnProgress(s: Sys, e: Event, t: Sys)
    requires Turned(s, e, t) && e.k < |s.procs| && InCall(s.procs[e.k].pc)
    ensures e.k < |t.procs| && Work(t.procs[e.k].pc) < Work(s.procs[e.k].pc)
  {}

  /** Nobody else moves a process that is inside a call. */
  lemma OthersStay(s: Sys, e: Event, t: Sys, j: nat)
    requires Turned(s, e, t) && j < |s.procs| && j != e.k
    ensures |t.procs| == |s.procs|
    ensures InCall(s.procs[j].pc) ==> t.procs[j].pc == s.procs[j].pc
  {}

  /** How often process k is scheduled. */
  function Turns(schedule: seq<Event>, k: nat): nat {
    if schedule == [] then 0 else (if schedule[0].k == k then 1 else 0) + Turns(schedule[1..], k)
  }

  ghost predicate Follows(states: seq<Sys>, schedule: seq<Event>) {
    |states| == |schedule| + 1 && forall i :: 0 <= i < |schedule| ==> Turned(states[i], schedule[i], states[i + 1])
  }

  /** A process inside a call that gets the turns it needs is out of it at some point of the run, whoever
      else runs in between. */
  lemma {:induction false} CallsEnd(states: seq<Sys>, schedule: seq<Event>, k: nat) returns (m: nat)
    requires Follows(states, schedule) && k < |states[0].procs|
    requires Turns(schedule, k) >= Work(states[0].procs[k].pc)
    ensures m < |states| && k < |states[m].procs| && !InCall(states[m].procs[k].pc)
    decreases |schedule|
  {
    hide Turned;
    if !InCall(states[0].procs[k].pc) { return 0; }
    assert schedule != [];
    if schedule[0].k == k { TurnProgress(states[0], schedule[0], states[1]); } else { OthersStay(states[0], schedule[0], states[1], k); }
    if !InCall(states[1].procs[k].pc) { return 1; }
    var i := CallsEnd(states[1..], schedule[1..], k);
    m := i + 1;
  }
}
