/** Readers and writers of one pipe under every interleaving of their masked sections, with signals
    and closing of the ends. Testing the ring and going to sleep is one section. */
module PipeProtocol {
  import opened Arith
  import opened PipeBuffer

  datatype State =
    | Idle(result: int)
    | Reading(n: nat)                         // runnable inside piperead
    | ReadAsleep(n: nat)                      // sleeping on nread
    | ReadWoken(n: nat)                       // made runnable, not yet back from proc_wait
    | Writing(src: seq<Byte>, i: nat)
    | WriteAsleep(src: seq<Byte>, i: nat)     // sleeping on nwrite
    | WriteWoken(src: seq<Byte>, i: nat)

  datatype Task = Task(state: State, pending: bool)

  /** An accepted byte and the process that wrote it. */
  datatype Sent = Sent(writer: nat, byte: Byte)

  function Tagged(k: nat, bytes: seq<Byte>): seq<Sent> { seq(|bytes|, i requires 0 <= i < |bytes| => Sent(k, bytes[i])) }

  function Strip(log: seq<Sent>): seq<Byte> { seq(|log|, i requires 0 <= i < |log| => log[i].byte) }

  /** What process k wrote, in order. */
  function By(log: seq<Sent>, k: nat): seq<Byte> {
    if log == [] then []
    else By(log[..|log| - 1], k) + if log[|log| - 1].writer == k then [log[|log| - 1].byte] else []
  }

  lemma {:induction false} ByAppend(log: seq<Sent>, k: nat, bytes: seq<Byte>, j: nat)
    ensures By(log + Tagged(k, bytes), j) == By(log, j) + if j == k then bytes else []
  {
    var n := |bytes|;
    if n == 0 {
      assert log + Tagged(k, bytes) == log;
    } else {
      var all := log + Tagged(k, bytes);
      assert all[..|all| - 1] == log + Tagged(k, bytes[..n - 1]);
      ByAppend(log, k, bytes[..n - 1], j);
      assert bytes[..n - 1] + [bytes[n - 1]] == bytes;
    }
  }

  lemma StripAppend(log: seq<Sent>, k: nat, bytes: seq<Byte>)
    ensures Strip(log + Tagged(k, bytes)) == Strip(log) + bytes
  {}

  /** The bytes of the current write call that were accepted already. */
  function Current(s: State): seq<Byte> {
    match s
    case Writing(src, i) => if i <= |src| then src[..i] else []
    case WriteAsleep(src, i) => if i <= |src| then src[..i] else []
    case WriteWoken(src, i) => if i <= |src| then src[..i] else []
    case _ => []
  }

  predicate StateOk(s: State) {
    match s
    case Writing(src, i) => i <= |src|
    case WriteAsleep(src, i) => i < |src|
    case WriteWoken(src, i) => i < |src|
    case _ => true
  }

  function Woken(s: State, writers: bool): State {
    match s
    case ReadAsleep(n) => if writers then s else ReadWoken(n)
    case WriteAsleep(src, i) => if writers then WriteWoken(src, i) else s
    case _ => s
  }

  /** Nobody sleeps on nread unless the pipe is empty with a writer open, nor on nwrite unless it is
      full with a reader open, nor with a signal pending. */
  ghost predicate SleepsWell(tasks: seq<Task>, contents: seq<Byte>, readopen: bool, writeopen: bool) {
    forall k :: 0 <= k < |tasks| ==>
      && (tasks[k].state.ReadAsleep? ==> contents == [] && writeopen && !tasks[k].pending)
      && (tasks[k].state.WriteAsleep? ==> |contents| == PIPESIZE && readopen && !tasks[k].pending)
  }

  /** Each writer's accepted bytes are those of its finished calls and then the current one's. */
  ghost predicate WritersOk(tasks: seq<Task>, log: seq<Sent>, done: seq<seq<Byte>>) {
    && |done| == |tasks|
    && forall k: nat :: k < |tasks| ==> StateOk(tasks[k].state) && By(log, k) == done[k] + Current(tasks[k].state)
  }

  /** A reader and a writer never sleep on the pipe at the same time. */
  lemma NoDeadlock(tasks: seq<Task>, contents: seq<Byte>, readopen: bool, writeopen: bool, r: nat, w: nat)
    requires SleepsWell(tasks, contents, readopen, writeopen) && r < |tasks| && w < |tasks|
    ensures !(tasks[r].state.ReadAsleep? && tasks[w].state.WriteAsleep?)
  {}

  lemma WakeWell(t0: seq<Task>, t1: seq<Task>, writers: bool, c0: seq<Byte>, c1: seq<Byte>, ro: bool, wo: bool, ro1: bool, wo1: bool)
    requires SleepsWell(t0, c0, ro, wo) && |t1| == |t0|
    requires forall k :: 0 <= k < |t0| ==> t1[k] == Task(Woken(t0[k].state, writers), t0[k].pending)
    requires if writers then wo1 == wo && (c0 == [] ==> c1 == []) else ro1 == ro && (|c0| == PIPESIZE ==> |c1| == PIPESIZE)
    ensures SleepsWell(t1, c1, ro1, wo1)
  {}

  /** A write call that has returned: the process, its buffer, how much of it was accepted, the result. */
  datatype Ended = Ended(k: nat, src: seq<Byte>, put: nat, result: int)

  /** A result that is not negative is the number of bytes accepted; -EINTR means none were; -1 means
      that the readers have gone. */
  predicate EndedOk(e: Ended) {
    && e.put <= |e.src|
    && (e.result == e.put || e.result == -1 || (e.result == -EINTR && e.put == 0))
  }

  /** What the calls of process k that have returned put in, in order. */
  function Puts(ended: seq<Ended>, k: nat): seq<Byte> {
    if ended == [] then []
    else
      var e := ended[|ended| - 1];
      Puts(ended[..|ended| - 1], k) + if e.k == k && e.put <= |e.src| then e.src[..e.put] else []
  }

  ghost predicate CallsOk(ended: seq<Ended>, done: seq<seq<Byte>>) {
    && (forall i :: 0 <= i < |ended| ==> EndedOk(ended[i]))
    && forall k: nat :: k < |done| ==> done[k] == Puts(ended, k)
  }

  lemma CallEnds(ended: seq<Ended>, done: seq<seq<Byte>>, e: Ended)
    requires CallsOk(ended, done) && EndedOk(e) && e.k < |done|
    ensures CallsOk(ended + [e], done[e.k := done[e.k] + e.src[..e.put]])
  { assert (ended + [e])[..|ended|] == ended; }

  ghost predicate OthersWoken(t0: seq<Task>, t1: seq<Task>, k: nat, writers: bool) {
    |t1| == |t0| && forall j :: 0 <= j < |t0| && j != k ==> t1[j] == Task(Woken(t0[j].state, writers), t0[j].pending)
  }

  // ---------- What each section does ----------

  /** The whole state as a value. */
  datatype Snap = Snap(tasks: seq<Task>, contents: seq<Byte>, readopen: bool, writeopen: bool,
                       accepted: seq<Sent>, delivered: seq<Byte>, ended: seq<Ended>)

  /** One masked section of piperead: on an empty pipe with a writer open the reader sleeps, or stops at a
      pending signal; otherwise the oldest bytes, up to n, are delivered and the writers woken. Nothing is
      delivered for a positive n only at the end of file. */
  ghost predicate ReadMoves(s: Snap, k: nat, t: Snap)
    requires k < |s.tasks| && s.tasks[k].state.Reading?
  {
    var n, c, pending := s.tasks[k].state.n, s.contents, s.tasks[k].pending;
    if c == [] && s.writeopen then
      t == s.(tasks := s.tasks[k := Task(if pending then Idle(-EINTR) else ReadAsleep(n), pending)])
    else
      var m := Min(n, |c|);
      && t == s.(tasks := t.tasks, contents := c[m..], delivered := s.delivered + c[..m])
      && OthersWoken(s.tasks, t.tasks, k, true) && t.tasks[k] == Task(Idle(m), pending) && (n > 0 && m == 0 ==> !s.writeopen)
  }

  /** One masked section of pipewrite: it fails once no reader is left; otherwise as many bytes as fit
      go in and the readers are woken. When all of src is in, the call returns its length; when bytes remain
      the writer sleeps, or, with a signal pending, returns what it got in, -EINTR if that is nothing. */
  ghost predicate WriteMoves(s: Snap, k: nat, t: Snap)
    requires k < |s.tasks| && s.tasks[k].state.Writing?
  {
    var src, i, c, pending := s.tasks[k].state.src, s.tasks[k].state.i, s.contents, s.tasks[k].pending;
    if i < |src| && !s.readopen then
      t == s.(tasks := s.tasks[k := Task(Idle(-1), pending)], ended := s.ended + [Ended(k, src, i, -1)])
    else
      && |c| <= PIPESIZE
      && var j := Min(|src|, i + PIPESIZE - |c|);
      && i <= j && t == s.(tasks := t.tasks, contents := c + src[i..j], accepted := s.accepted + Tagged(k, src[i..j]), ended := t.ended)
      && OthersWoken(s.tasks, t.tasks, k, false) && t.tasks[k].pending == pending
      && (j == |src| ==> t.tasks[k].state == Idle(j) && t.ended == s.ended + [Ended(k, src, j, j)])
      && (j < |src| && pending && j > 0 ==> t.tasks[k].state == Idle(j) && t.ended == s.ended + [Ended(k, src, j, j)])
      && (j < |src| && pending && j == 0 ==> t.tasks[k].state == Idle(-EINTR) && t.ended == s.ended + [Ended(k, src, 0, -EINTR)])
      && (j < |src| && !pending ==> t.tasks[k].state == WriteAsleep(src, j) && t.ended == s.ended)
  }

  /** Back from proc_wait: a pending signal ends the call, otherwise the ring is tested again. */
  ghost predicate ResumeMoves(s: Snap, k: nat, t: Snap)
    requires k < |s.tasks| && (s.tasks[k].state.ReadWoken? || s.tasks[k].state.WriteWoken?)
  {
    var pending := s.tasks[k].pending;
    match s.tasks[k].state
    case ReadWoken(n) => t == s.(tasks := s.tasks[k := Task(if pending then Idle(-EINTR) else Reading(n), pending)])
    case WriteWoken(src, i) =>
      if pending then
        var r := if i > 0 then i else -EINTR;
        t == s.(tasks := s.tasks[k := Task(Idle(r), true)], ended := s.ended + [Ended(k, src, i, r)])
      else t == s.(tasks := s.tasks[k := Task(Writing(src, i), false)])
    case _ => false
  }

  ghost predicate AllWoken(t0: seq<Task>, t1: seq<Task>, writers: bool) {
    |t1| == |t0| && forall j :: 0 <= j < |t0| ==> t1[j] == Task(Woken(t0[j].state, writers), t0[j].pending)
  }

  predicate MayCall(s: State) { s.Reading? || (s.Writing? && s.i == 0) }

  /** What one event does. */
  ghost predicate Moves(s: Snap, e: Event, t: Snap) {
    match e
    case Close(_, w) =>
      t == s.(tasks := t.tasks, readopen := s.readopen && w, writeopen := s.writeopen && !w) && AllWoken(s.tasks, t.tasks, !w)
    case Call(k, call) =>
      if k < |s.tasks| && s.tasks[k].state.Idle? && MayCall(call) then t == s.(tasks := s.tasks[k := Task(call, s.tasks[k].pending)]) else t == s
    case Interrupt(k) =>
      if k < |s.tasks| then t == s.(tasks := s.tasks[k := Task(Woken(Woken(s.tasks[k].state, true), false), true)]) else t == s
    case Step(k) =>
      if k >= |s.tasks| then t == s
      else match s.tasks[k].state
           case Idle(r) => t == s.(tasks := s.tasks[k := Task(Idle(r), false)])
           case Reading(_) => ReadMoves(s, k, t)
           case Writing(_, _) => WriteMoves(s, k, t)
           case ReadWoken(_) => ResumeMoves(s, k, t)
           case WriteWoken(_, _) => ResumeMoves(s, k, t)
           case _ => t == s
  }

  /** A schedule carried out, event by event. */
  ghost predicate Follows(snaps: seq<Snap>, schedule: seq<Event>) {
    |snaps| == |schedule| + 1 && forall i :: 0 <= i < |schedule| ==> Moves(snaps[i], schedule[i], snaps[i + 1])
  }

  class PipeSystem {
    const pipe: Pipe
    var tasks: seq<Task>
    ghost var accepted: seq<Sent>
    ghost var delivered: seq<Byte>
    ghost var done: seq<seq<Byte>>
    ghost var ended: seq<Ended>

    ghost predicate Valid()
      reads this, pipe, pipe.data
    {
      && pipe.Valid()
      && Strip(accepted) == delivered + pipe.Contents()
      && SleepsWell(tasks, pipe.Contents(), pipe.readopen, pipe.writeopen)
      && WritersOk(tasks, accepted, done) && CallsOk(ended, done)
    }

    ghost function Now(): Snap
      reads this, pipe, pipe.data
      requires pipe.Valid()
    { Snap(tasks, pipe.Contents(), pipe.readopen, pipe.writeopen, accepted, delivered, ended) }

    constructor (n: nat)
      ensures Valid() && Now() == Snap(seq(n, _ => Task(Idle(0), false)), [], true, true, [], [], []) && fresh(pipe) && fresh(pipe.data)
    {
      pipe := new Pipe();
      tasks := seq(n, _ => Task(Idle(0), false));
      accepted, delivered, done, ended := [], [], seq(n, _ => []), [];
    }

    /** proc_wakeup on one of the two channels. */
    method Wake(writers: bool)
      modifies this`tasks
      ensures |tasks| == |old(tasks)|
      ensures forall k :: 0 <= k < |tasks| ==> tasks[k] == Task(Woken(old(tasks)[k].state, writers), old(tasks)[k].pending)
    {
      var k := 0;
      while k < |tasks|
        invariant k <= |tasks| == |old(tasks)|
        invariant forall j :: 0 <= j < |tasks| ==>
                    tasks[j] == if j < k then Task(Woken(old(tasks)[j].state, writers), old(tasks)[j].pending) else old(tasks)[j]
      {
        match tasks[k].state {
          case ReadAsleep(n) => if !writers { tasks := tasks[k := tasks[k].(state := ReadWoken(n))]; }
          case WriteAsleep(src, i) => if writers { tasks := tasks[k := tasks[k].(state := WriteWoken(src, i))]; }
          case _ =>
        }
        k := k + 1;
      }
    }

    /** One masked section of piperead. */
    method ReadSection(k: nat)
      requires Valid() && k < |tasks| && tasks[k].state.Reading?
      modifies this, pipe`nread
      ensures Valid() && done == old(done) && ReadMoves(old(Now()), k, Now())
    {
      hide Strip, By, CallsOk, Ring, Count, WritersOk, SleepsWell, Woken, Current;
      var n := tasks[k].state.n;
      WriterState(tasks, accepted, done, k);
      if pipe.IsEmpty() && pipe.writeopen {
        ghost var t0 := tasks;
        FallsAsleep(t0, k, if tasks[k].pending then Idle(-EINTR) else ReadAsleep(n), pipe.Contents(), pipe.readopen, pipe.writeopen);
        NoCurrent(tasks[k].state);
        NoCurrent(if tasks[k].pending then Idle(-EINTR) else ReadAsleep(n));
        tasks := tasks[k := tasks[k].(state := if tasks[k].pending then Idle(-EINTR) else ReadAsleep(n))];
        WritersStep(t0, tasks, k, accepted, accepted, done, done);
        return;
      }
      Deliver(k, n);
    }

    /** Copying out and waking the writers. */
    method Deliver(k: nat, n: nat)
      requires Valid() && k < |tasks| && tasks[k].state == Reading(n) && (pipe.Contents() != [] || !pipe.writeopen)
      modifies this, pipe`nread
      ensures Valid() && done == old(done) && ReadMoves(old(Now()), k, Now())
    {
      hide Strip, By, CallsOk, Ring, Count, WritersOk, SleepsWell, Woken, Current, Min;
      WriterState(tasks, accepted, done, k);
      ghost var c, t0 := pipe.Contents(), tasks;
      MinFacts(n, |c|);
      var out := pipe.Take(n);
      Rejoin(delivered, c, Min(n, |c|));
      delivered := delivered + out;
      NoCurrent(tasks[k].state);
      NoCurrent(Idle(|out|));
      FallsAsleep(t0, k, Idle(|out|), c, pipe.readopen, pipe.writeopen);
      tasks := tasks[k := tasks[k].(state := Idle(|out|))];
      WritersStep(t0, tasks, k, accepted, accepted, done, done);
      ghost var t1 := tasks;
      Wake(true);
      WakeWell(t1, tasks, true, c, pipe.Contents(), pipe.readopen, pipe.writeopen, pipe.readopen, pipe.writeopen);
      WakeWriters(t1, tasks, true, accepted, done);
      WokenIdle(|out|);
    }

    /** One masked section of pipewrite. */
    method WriteSection(k: nat)
      requires Valid() && k < |tasks| && tasks[k].state.Writing?
      modifies this, pipe`nwrite, pipe.data
      ensures Valid() && WriteMoves(old(Now()), k, Now())
    {
      hide Strip, By, CallsOk, Ring, Count, WritersOk, SleepsWell, Woken, Current;
      var src, i := tasks[k].state.src, tasks[k].state.i;
      ghost var t0, log0, done0 := tasks, accepted, done;
      WriterState(tasks, accepted, done, k);
      CurrentWriting(src, i);
      if i < |src| && !pipe.readopen {
        FallsAsleep(t0, k, Idle(-1), pipe.Contents(), pipe.readopen, pipe.writeopen);
        NoCurrent(Idle(-1));
        tasks := tasks[k := tasks[k].(state := Idle(-1))];
        CallEnds(ended, done, Ended(k, src, i, -1));
        done, ended := done[k := done[k] + src[..i]], ended + [Ended(k, src, i, -1)];
        WritersStep(t0, tasks, k, accepted, accepted, done0, done);
        return;
      }
      Accept(k, src, i);
    }

    /** Copying in and waking the readers. */
    method Accept(k: nat, src: seq<Byte>, i: nat)
      requires Valid() && k < |tasks| && tasks[k].state == Writing(src, i) && (i < |src| ==> pipe.readopen)
      modifies this, pipe`nwrite, pipe.data
      ensures Valid() && WriteMoves(old(Now()), k, Now())
    {
      hide Strip, By, CallsOk, Ring, Count, WritersOk, SleepsWell, Woken, Current, Tagged, Min;
      ghost var t0, log0, done0, c := tasks, accepted, done, pipe.Contents();
      WriterState(tasks, accepted, done, k);
      var j := pipe.Put(src, i);
      PutAmount(|src|, i, j, |c|);
      accepted := accepted + Tagged(k, src[i..j]);
      StripAppend(log0, k, src[i..j]);
      Regroup(delivered, c, src[i..j]);
      var state := WriteAsleep(src, j);
      if j == |src| {
        state := Idle(j);
      } else if tasks[k].pending {
        state := Idle(if j > 0 then j else -EINTR);
      }
      FallsAsleep(t0, k, Idle(0), c, pipe.readopen, pipe.writeopen);
      tasks := tasks[k := tasks[k].(state := Idle(0))];
      ghost var t1 := tasks;
      Wake(false);
      WakeWell(t1, tasks, false, c, pipe.Contents(), pipe.readopen, pipe.writeopen, pipe.readopen, pipe.writeopen);
      WokenIdle(0);
      FallsAsleep(tasks, k, state, pipe.Contents(), pipe.readopen, pipe.writeopen);
      tasks := tasks[k := tasks[k].(state := state)];
      if state.Idle? {
        CallEnds(ended, done, Ended(k, src, j, state.result));
        done, ended := done[k := done[k] + src[..j]], ended + [Ended(k, src, j, state.result)];
      }
      AcceptBooks(t0, tasks, k, src, i, j, log0, done0, done);
    }

    /** The test after proc_wait. */
    method Resume(k: nat)
      requires Valid() && k < |tasks| && (tasks[k].state.ReadWoken? || tasks[k].state.WriteWoken?)
      modifies this
      ensures Valid() && ResumeMoves(old(Now()), k, Now())
    {
      hide Strip, By, CallsOk, WritersOk;
      ghost var t0, done0 := tasks, done;
      WriterState(tasks, accepted, done, k);
      match tasks[k].state {
        case ReadWoken(n) =>
          tasks := tasks[k := tasks[k].(state := if tasks[k].pending then Idle(-EINTR) else Reading(n))];
        case WriteWoken(src, i) =>
          if tasks[k].pending {
            tasks := tasks[k := tasks[k].(state := Idle(if i > 0 then i else -EINTR))];
            CallEnds(ended, done, Ended(k, src, i, tasks[k].state.result));
            done, ended := done[k := done[k] + src[..i]], ended + [Ended(k, src, i, tasks[k].state.result)];
          } else {
            tasks := tasks[k := tasks[k].(state := Writing(src, i))];
          }
        case _ =>
      }
      WritersStep(t0, tasks, k, accepted, accepted, done0, done);
    }

    /** A system call begins. */
    method Begin(k: nat, s: State)
      requires Valid() && k < |tasks| && tasks[k].state.Idle? && MayCall(s)
      modifies this`tasks
      ensures Valid() && tasks == old(tasks)[k := old(tasks)[k].(state := s)]
    {
      hide Strip, By, CallsOk, WritersOk;
      ghost var t0 := tasks;
      WriterState(tasks, accepted, done, k);
      tasks := tasks[k := tasks[k].(state := s)];
      WritersStep(t0, tasks, k, accepted, accepted, done, done);
    }

    /** proc_signal wakes a sleeper; on the way back to user mode the signal is dealt with. */
    method Signal(k: nat)
      requires Valid() && k < |tasks|
      modifies this`tasks
      ensures Valid() && tasks == old(tasks)[k := Task(Woken(Woken(old(tasks)[k].state, true), false), true)]
    {
      hide Strip, By, CallsOk, WritersOk;
      ghost var t0 := tasks;
      WriterState(tasks, accepted, done, k);
      var state := tasks[k].state;
      match state {
        case ReadAsleep(n) => state := ReadWoken(n);
        case WriteAsleep(src, i) => state := WriteWoken(src, i);
        case _ =>
      }
      tasks := tasks[k := Task(state, true)];
      WritersStep(t0, tasks, k, accepted, accepted, done, done);
    }

    method HandleSignals(k: nat)
      requires Valid() && k < |tasks| && tasks[k].state.Idle?
      modifies this`tasks
      ensures Valid() && tasks == old(tasks)[k := old(tasks)[k].(pending := false)]
    {
      hide Strip, By, CallsOk, WritersOk;
      ghost var t0 := tasks;
      WriterState(tasks, accepted, done, k);
      tasks := tasks[k := tasks[k].(pending := false)];
      WritersStep(t0, tasks, k, accepted, accepted, done, done);
    }

    /** pipeclose: the end is shut and the processes sleeping on the other end are woken. */
    method CloseEnd(writable: bool)
      requires Valid()
      modifies this`tasks, pipe`readopen, pipe`writeopen
      ensures Valid() && |tasks| == |old(tasks)|
      ensures pipe.writeopen == (old(pipe.writeopen) && !writable) && pipe.readopen == (old(pipe.readopen) && writable)
      ensures forall k :: 0 <= k < |tasks| ==> tasks[k] == Task(Woken(old(tasks)[k].state, !writable), old(tasks)[k].pending)
    {
      hide Strip, By, CallsOk, WritersOk, Ring, Count;
      ghost var t0, ro, wo := tasks, pipe.readopen, pipe.writeopen;
      if writable { pipe.writeopen := false; } else { pipe.readopen := false; }
      Wake(!writable);
      WakeWell(t0, tasks, !writable, pipe.Contents(), pipe.Contents(), ro, wo, pipe.readopen, pipe.writeopen);
      WakeWriters(t0, tasks, !writable, accepted, done);
    }

    /** Any schedule: the bytes come out in the order they went in, and what each process got in is what its
        calls report, whole calls first and then the one under way. */
    method Run(schedule: seq<Event>) returns (ghost snaps: seq<Snap>)
      requires Valid()
      modifies this, pipe, pipe.data
      ensures Valid() && Follows(snaps, schedule) && snaps[0] == old(Now()) && snaps[|schedule|] == Now()
      ensures |pipe.Contents()| <= PIPESIZE && delivered + pipe.Contents() == Strip(accepted)
      ensures forall i :: 0 <= i < |ended| ==> EndedOk(ended[i])
      ensures forall k: nat :: k < |tasks| ==> By(accepted, k) == Puts(ended, k) + Current(tasks[k].state)
    {
      hide Strip, By, CallsOk, WritersOk, SleepsWell, Ring, Count, Moves;
      snaps := [Now()];
      for i := 0 to |schedule|
        invariant Valid() && |snaps| == i + 1 && snaps[0] == old(Now()) && snaps[i] == Now()
        invariant forall j :: 0 <= j < i ==> Moves(snaps[j], schedule[j], snaps[j + 1])
      {
        Turn(schedule[i]);
        snaps := snaps + [Now()];
      }
      Fits();
    }

    method Turn(e: Event)
      requires Valid()
      modifies this, pipe, pipe.data
      ensures Valid() && Moves(old(Now()), e, Now())
    {
      hide Strip, By, CallsOk, WritersOk, SleepsWell, Ring, Count, ReadMoves, WriteMoves, ResumeMoves, Woken;
      var k := e.k;
      match e {
        case Call(_, s) => if k < |tasks| && tasks[k].state.Idle? && MayCall(s) { Begin(k, s); }
        case Interrupt(_) => if k < |tasks| { Signal(k); }
        case Close(_, w) => CloseEnd(w);
        case Step(_) =>
          if k < |tasks| {
            match tasks[k].state {
              case Idle(_) => HandleSignals(k);
              case Reading(_) => ReadSection(k);
              case Writing(_, _) => WriteSection(k);
              case ReadWoken(_) => Resume(k);
              case WriteWoken(_, _) => Resume(k);
              case _ =>
            }
          }
      }
    }

    lemma Fits()
      requires Valid()
      ensures |pipe.Contents()| <= PIPESIZE
      ensures forall i :: 0 <= i < |ended| ==> EndedOk(ended[i])
      ensures forall k: nat :: k < |tasks| ==> By(accepted, k) == Puts(ended, k) + Current(tasks[k].state)
    { hide By, Puts, Current; }
  }

  /** A process goes to sleep where it may, or is not asleep. */
  lemma FallsAsleep(t: seq<Task>, k: nat, s: State, c: seq<Byte>, ro: bool, wo: bool)
    requires SleepsWell(t, c, ro, wo) && k < |t|
    requires s.ReadAsleep? ==> c == [] && wo && !t[k].pending
    requires s.WriteAsleep? ==> |c| == PIPESIZE && ro && !t[k].pending
    ensures SleepsWell(t[k := t[k].(state := s)], c, ro, wo)
  {}

  /** What fits is the rest of the source or the room left. */
  lemma PutAmount(n: nat, i: nat, j: nat, used: nat)
    requires i <= j <= n && used <= PIPESIZE && used + (j - i) <= PIPESIZE && (j < n ==> used + (j - i) == PIPESIZE)
    ensures j == Min(n, i + PIPESIZE - used)
  {}

  lemma NoCurrent(s: State)
    requires !s.Writing? && !s.WriteAsleep? && !s.WriteWoken?
    ensures Current(s) == []
  {}

  lemma CurrentWriting(src: seq<Byte>, i: nat)
    requires i <= |src|
    ensures Current(Writing(src, i)) == src[..i]
  {}

  lemma CurrentAsleep(src: seq<Byte>, i: nat)
    requires i <= |src|
    ensures Current(WriteAsleep(src, i)) == src[..i]
  {}

  lemma WokenIdle(r: int)
    ensures Woken(Idle(r), true) == Idle(r) == Woken(Idle(r), false)
  {}

  lemma MinFacts(a: nat, b: nat)
    ensures Min(a, b) <= a && Min(a, b) <= b && (a > 0 && b > 0 ==> Min(a, b) > 0) && (b == 0 ==> Min(a, b) == 0)
  {}

  lemma Rejoin(d: seq<Byte>, c: seq<Byte>, m: nat)
    requires m <= |c|
    ensures d + c[..m] + c[m..] == d + c
  { assert c[..m] + c[m..] == c; }

  lemma Regroup(a: seq<Byte>, b: seq<Byte>, c: seq<Byte>)
    ensures a + (b + c) == a + b + c
  {}

  datatype Event = Call(k: nat, s: State) | Step(k: nat) | Interrupt(k: nat) | Close(k: nat, writable: bool)

  lemma WriterState(tasks: seq<Task>, log: seq<Sent>, done: seq<seq<Byte>>, k: nat)
    requires WritersOk(tasks, log, done) && k < |tasks|
    ensures |done| == |tasks| && StateOk(tasks[k].state)
  {}

  /** One writer's books change, nobody else's. */
  lemma WritersStep(t0: seq<Task>, t1: seq<Task>, k: nat, log0: seq<Sent>, log1: seq<Sent>, done0: seq<seq<Byte>>, done1: seq<seq<Byte>>)
    requires WritersOk(t0, log0, done0) && k < |t0| == |t1| && |done1| == |t1| && log1 == log0
    requires t1 == t0[k := t1[k]] && done1 == done0[k := done1[k]] && StateOk(t1[k].state)
    requires done1[k] + Current(t1[k].state) == done0[k] + Current(t0[k].state)
    ensures WritersOk(t1, log1, done1)
  { hide By, Current; }

  lemma WakeWriters(t0: seq<Task>, t1: seq<Task>, writers: bool, log: seq<Sent>, done: seq<seq<Byte>>)
    requires WritersOk(t0, log, done) && |t1| == |t0|
    requires forall k :: 0 <= k < |t0| ==> t1[k] == Task(Woken(t0[k].state, writers), t0[k].pending)
    ensures WritersOk(t1, log, done)
  { hide By; }

  /** A writer accepted some bytes and woke the readers. */
  lemma WritersWoken(t0: seq<Task>, t1: seq<Task>, k: nat, bytes: seq<Byte>, log: seq<Sent>, done0: seq<seq<Byte>>, done1: seq<seq<Byte>>)
    requires WritersOk(t0, log, done0) && k < |t0| == |t1| && |done1| == |t1| && done1 == done0[k := done1[k]] && StateOk(t1[k].state)
    requires forall j :: 0 <= j < |t0| && j != k ==> t1[j] == Task(Woken(t0[j].state, false), t0[j].pending)
    requires done1[k] + Current(t1[k].state) == done0[k] + Current(t0[k].state) + bytes
    ensures WritersOk(t1, log + Tagged(k, bytes), done1)
  {
    hide By;
    forall j: nat | j < |t1| ensures StateOk(t1[j].state) && By(log + Tagged(k, bytes), j) == done1[j] + Current(t1[j].state) {
      ByAppend(log, k, bytes, j);
    }
  }

  /** The writer's books after its bytes went in. */
  lemma AcceptBooks(t0: seq<Task>, t1: seq<Task>, k: nat, src: seq<Byte>, i: nat, j: nat, log: seq<Sent>, done0: seq<seq<Byte>>, done1: seq<seq<Byte>>)
    requires WritersOk(t0, log, done0) && k < |t0| == |t1| == |done0| && t0[k].state == Writing(src, i) && i <= j <= |src|
    requires forall l :: 0 <= l < |t0| && l != k ==> t1[l] == Task(Woken(t0[l].state, false), t0[l].pending)
    requires StateOk(t1[k].state) && (t1[k].state.Idle? || t1[k].state == WriteAsleep(src, j))
    requires done1 == if t1[k].state.Idle? then done0[k := done0[k] + src[..j]] else done0
    ensures WritersOk(t1, log + Tagged(k, src[i..j]), done1)
  {
    hide WritersOk, Current, By, Woken, Tagged;
    CurrentWriting(src, i);
    CurrentAsleep(src, j);
    if t1[k].state.Idle? { NoCurrent(t1[k].state); }
    assert src[..i] + src[i..j] == src[..j];
    Regroup(done0[k], src[..i], src[i..j]);
    WritersWoken(t0, t1, k, src[i..j], log, done0, done1);
  }
}
