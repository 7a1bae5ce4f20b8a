/** Whole runs of the block layer: any sequence of reads, writes and truncations is the same sequence on
    byte arrays. */
module FsRun {
  import opened Arith
  import opened FsDisk
  import opened FsInv
  import opened Fs
  import opened FsTrunc
  import opened FsCut
  import opened Mkfs
  import opened BootFs

  /** The calls. A cut whose first-level table was changed in its buffer only may be followed by the
      reuse of that buffer. */
  datatype Op =
    | Read(n: nat, off: nat, count: nat)
    | Write(n: nat, off: nat, src: seq<Byte>)
    | Empty(n: nat)
    | Shorten(n: nat, len: nat, reused: bool)

  datatype Reply = Bytes(data: seq<Byte>) | Count(r: int) | Done

  type Files = seq<seq<Byte>>

  ghost function FilesOf(st: St): Files { seq(|st.inodes|, n requires 0 <= n < |st.inodes| => Content(st, n)) }

  predicate OpOk(op: Op, inodes: nat) {
    op.n < inodes && match op
                     case Read(_, off, count) => off < TWO32 && count < TWO32
                     case Write(_, off, src) => off < TWO32 && |src| < TWO32
                     case _ => true
  }

  /** A byte array with data written at off. */
  function Spliced(f: seq<Byte>, off: nat, data: seq<Byte>): seq<Byte>
    requires off <= |f|
  { f[..off] + data + (if off + |data| <= |f| then f[off + |data|..] else []) }

  /** What a run is about: the contents of the files and the blocks that are free. */
  datatype View = View(files: Files, free: set<nat>)

  ghost function ViewOf(g: Geometry, st: St): View
    requires DiskOk(g, st.disk)
  { View(FilesOf(st), FreeBlocks(g, st.disk)) }

  /** A reply an operation may give on byte arrays. A read returns the range asked for, cut at the end of
      the file, and more only where ReadLengthExact says so; of a file that may have holes, not among the
      whole ones, it may return less. A write takes a prefix or refuses. */
  ghost predicate Legal(whole: set<nat>, files: Files, op: Op, reply: Reply)
    requires op.n < |files|
  {
    var f := files[op.n];
    match op
    case Read(_, off, count) =>
      && reply.Bytes?
      && (off > |f| ==> reply.data == [])
      && (off <= |f| ==>
            var part := Min(count, |f| - off);
            && (op.n in whole ==> part <= |reply.data|)
            && |reply.data| <= ReadLength(off, count, |f|)
            && reply.data[..Min(part, |reply.data|)] == f[off..off + Min(part, |reply.data|)])
    case Write(_, off, src) =>
      && reply.Count?
      && (reply.r == -1 <==> off > |f| || off + |src| >= TWO32 || off + |src| > MAXBYTES)
      && (reply.r != -1 ==> 0 <= reply.r <= |src|)
    case _ => reply.Done?
  }

  /** The byte arrays after an operation that gave a reply. */
  ghost function Next(whole: set<nat>, files: Files, op: Op, reply: Reply): (files': Files)
    requires op.n < |files| && Legal(whole, files, op, reply)
    ensures |files'| == |files|
  {
    var f := files[op.n];
    match op
    case Read(_, _, _) => files
    case Write(_, off, src) => if reply.r == -1 then files else files[op.n := Spliced(f, off, src[..reply.r])]
    case Empty(_) => files[op.n := []]
    case Shorten(_, len, _) => if len >= |f| then files else files[op.n := f[..len]]
  }

  /** The reply to one operation and its effect. A read or a write takes free blocks and gives none back;
      it stops short only when none is left. A truncation gives blocks back. */
  ghost predicate Answers(whole: set<nat>, v: View, op: Op, reply: Reply, v': View) {
    && op.n < |v.files| && Legal(whole, v.files, op, reply) && v'.files == Next(whole, v.files, op, reply)
    && match op
       case Read(n, off, count) =>
         v'.free <= v.free && (off <= |v.files[n]| && |reply.data| < Min(count, |v.files[n]| - off) ==> v'.free == {})
       case Write(_, _, src) =>
         v'.free <= v.free && (reply.r == -1 ==> v' == v) && (0 <= reply.r < |src| ==> v'.free == {})
       case _ => v.free <= v'.free
  }

  /** The replies, one for each operation, through the views between them. */
  ghost predicate Answered(whole: set<nat>, ops: seq<Op>, replies: seq<Reply>, views: seq<View>) {
    && |replies| == |ops| && |views| == |ops| + 1
    && forall i :: 0 <= i < |ops| ==> Answers(whole, views[i], ops[i], replies[i], views[i + 1])
  }

  lemma OneMore(whole: set<nat>, ops: seq<Op>, replies: seq<Reply>, views: seq<View>, op: Op, reply: Reply, v: View)
    requires Answered(whole, ops, replies, views) && Answers(whole, views[|ops|], op, reply, v)
    ensures Answered(whole, ops + [op], replies + [reply], views + [v])
  { hide Answers; }

  /** What every state of a run satisfies: the block invariant, sizes within the largest file, and no holes
      in some files. */
  ghost predicate Good(g: Geometry, st: St, whole: set<nat>) {
    Inv(g, st) && SizesOk(st) && forall n :: n in whole && n < |st.inodes| ==> Dense(st, n)
  }

  lemma GoodParts(g: Geometry, st: St, whole: set<nat>, n: nat)
    requires Good(g, st, whole) && n < |st.inodes|
    ensures Inv(g, st) && (n in whole ==> Dense(st, n)) && st.inodes[n].size <= MAXBYTES && |FilesOf(st)| == |st.inodes|
    ensures FilesOf(st)[n] == Content(st, n) && |Content(st, n)| == st.inodes[n].size
  { hide Inv, Dense; }

  lemma GoodDisk(g: Geometry, st: St, whole: set<nat>)
    requires Good(g, st, whole)
    ensures DiskOk(g, st.disk)
  { DiskLen(g, st); }

  lemma ReadIs(g: Geometry, st: St, st': St, whole: set<nat>, op: Op, data: seq<Byte>)
    requires op.Read? && Good(g, st, whole) && OpOk(op, |st.inodes|) && Grown(g, st, st')
    requires forall i :: 0 <= i < |data| ==> data[i] == FileByte(st, op.n, op.off + i)
    requires op.off > st.inodes[op.n].size ==> data == []
    requires op.off <= st.inodes[op.n].size ==>
               var want := ReadLength(op.off, op.count, st.inodes[op.n].size);
               |data| <= want && (|data| < want ==> (op.off + |data|) / BSIZE >= MAXFILE || Starved(g, st', op.n, (op.off + |data|) / BSIZE))
    ensures Good(g, st', whole) && DiskOk(g, st.disk) && DiskOk(g, st'.disk)
    ensures Answers(whole, ViewOf(g, st), op, Bytes(data), ViewOf(g, st'))
  {
    hide Inv, FileByte, At, Starved, Dense, KeepsMapped, SameBytes, Bit, FreeBlocks;
    GrownUsed(g, st, st');
    GoodParts(g, st, whole, op.n);
    GrownKeeps(g, st, st');
    GrownParts(g, st, st', op.n);
    forall n: nat | n < |st.inodes|
      ensures (n in whole ==> Dense(st', n)) && Content(st', n) == Content(st, n) && st'.inodes[n].size == st.inodes[n].size
    {
      GrownParts(g, st, st', n);
      if n in whole { DenseKept(st, st', n); }
      SameContent(st, st', n);
    }
    var n, off, size := op.n, op.off, st.inodes[op.n].size;
    if off <= size {
      var part := Min(op.count, size - off);
      ReadLengthExact(off, op.count, size);
      if |data| < part { NoneLeft(g, st', n, (off + |data|) / BSIZE); }
      if n in whole && |data| < part {
        DenseCovers(st, n);
        CoveredReads(g, st, st', n, 0, size, off + |data|);
      }
      assert data[..Min(part, |data|)] == Content(st, n)[off..off + Min(part, |data|)];
    }
  }

  lemma NoneLeft(g: Geometry, st: St, n: nat, bn: nat)
    requires bn < MAXFILE && Starved(g, st, n, bn)
    ensures DiskOk(g, st.disk) && FreeBlocks(g, st.disk) == {}
  { hide Bit, At; }

  lemma DenseCovers(st: St, n: nat)
    requires n < |st.inodes| && Dense(st, n)
    ensures Covered(st, n, 0, st.inodes[n].size)
  {}

  lemma WriteIs(g: Geometry, st: St, st': St, whole: set<nat>, op: Op, r: int)
    requires op.Write? && Good(g, st, whole) && OpOk(op, |st.inodes|) && Inv(g, st')
    requires r == -1 <==> op.off > st.inodes[op.n].size || op.off + |op.src| >= TWO32 || op.off + |op.src| > MAXBYTES
    requires r == -1 ==> st' == st
    requires r != -1 ==>
               && 0 <= r <= |op.src| && Written(st, st', op.n, op.off, op.src[..r]) && KeepsMapped(st, st')
               && (r < |op.src| ==> DiskOk(g, st'.disk) && AllUsed(g, st'.disk)) && KeepsUsed(g, st.disk, st'.disk)
               && |st'.inodes| == |st.inodes| && Covered(st', op.n, op.off, op.off + r)
               && st'.inodes[op.n].size == Max(st.inodes[op.n].size, op.off + r)
               && forall m: nat :: m < |st'.inodes| && m != op.n ==> st'.inodes[m].size == st.inodes[m].size
    ensures Good(g, st', whole) && DiskOk(g, st.disk) && DiskOk(g, st'.disk)
    ensures Answers(whole, ViewOf(g, st), op, Count(r), ViewOf(g, st'))
  {
    hide Inv, FileByte, Dense, KeepsMapped, Covered, Bit;
    GoodDisk(g, st, whole);
    GoodParts(g, st, whole, op.n);
    if r != -1 {
      forall n: nat | n < |st.inodes|
        ensures (n in whole ==> Dense(st', n)) && Content(st', n) == Next(whole, FilesOf(st), op, Count(r))[n]
      {
        if n == op.n {
          if n in whole { WriteKeepsDense(st, st', n, op.off, r); }
          assert Content(st', n) == Spliced(Content(st, n), op.off, op.src[..r]);
        } else {
          if n in whole { DenseKept(st, st', n); }
          assert Content(st', n) == Content(st, n);
        }
      }
    }
  }

  lemma CutIs(g: Geometry, st: St, st': St, whole: set<nat>, n: nat, len: nat)
    requires Good(g, st, whole) && n < |st.inodes| && Cut(g, st, st', n, len) && len <= st.inodes[n].size
    ensures Good(g, st', whole) && |FilesOf(st)| == |st.inodes| && FilesOf(st') == FilesOf(st)[n := Content(st, n)[..len]]
    ensures DiskOk(g, st.disk) && DiskOk(g, st'.disk) && FreeBlocks(g, st.disk) <= FreeBlocks(g, st'.disk)
  {
    hide FileByte, At, Bit, Inv, CutSlots, Dense;
    GoodDisk(g, st, whole);
    forall m: nat | m < |st.inodes|
      ensures (m in whole ==> Dense(st', m)) && Content(st', m) == if m == n then Content(st, n)[..len] else Content(st, m)
    {
      CutContent(g, st, st', n, len, m);
      if m in whole { CutDense(g, st, st', n, len, m); }
    }
  }

  lemma CutDense(g: Geometry, st: St, st': St, n: nat, len: nat, m: nat)
    requires Cut(g, st, st', n, len) && len <= st.inodes[n].size && m < |st.inodes| && Dense(st, m)
    ensures m < |st'.inodes| && Dense(st', m)
  {
    hide FileByte, At, Bit, Inv, BitsLost, CutSlots, DataSlot;
    forall b: nat | b * BSIZE < st'.inodes[m].size ensures b < MAXFILE && At(st', Ref(m, DataSlot(b))) != 0 {
      assert RefOk(st, Ref(m, DataSlot(b)));
      if m == n { CutData(st, n, FirstFree(len), b); }
    }
  }

  /** One operation. It stops the run only when the buffer of a table that names blocks given back is reused. */
  method Step(fs: FileSystem, ghost whole: set<nat>, op: Op) returns (reply: Reply, ok: bool)
    requires Good(fs.g, fs.S(), whole) && OpOk(op, |fs.inodes|) && DiskOk(fs.g, fs.disk)
    modifies fs
    ensures ok ==> Good(fs.g, fs.S(), whole) && |fs.inodes| == |old(fs.inodes)| && DiskOk(fs.g, fs.disk)
                   && Answers(whole, old(ViewOf(fs.g, fs.S())), op, reply, ViewOf(fs.g, fs.S()))
    ensures !ok ==> op.Shorten? && op.reused && Stale(old(fs.S()), op.n, FirstFree(op.len)) && !Inv(fs.g, fs.S())
  {
    hide Inv, Good, FilesOf, Grown, Starved, Written, KeepsMapped, KeepsUsed, Covered, Cut, Stale, FileByte, Content, Dense, OnlyTop, Bit, TailIs;
    hide AllUsed, FreeBlocks;
    ghost var st := fs.S();
    GoodParts(fs.g, st, whole, op.n);
    ok := true;
    match op {
      case Read(n, off, count) =>
        var data := fs.Readi(n, off, count);
        GrownParts(fs.g, st, fs.S(), n);
        ReadIs(fs.g, st, fs.S(), whole, op, data);
        reply := Bytes(data);
      case Write(n, off, src) =>
        var r := fs.Writei(n, src, off);
        WriteIs(fs.g, st, fs.S(), whole, op, r);
        reply := Count(r);
      case Empty(n) =>
        Itrunc(fs, n);
        CutIs(fs.g, st, fs.S(), whole, n, 0);
        CutLen(fs.g, st, fs.S(), n, 0);
        reply := Done;
      case Shorten(n, len, reused) =>
        var shorter := len < fs.inodes[n].size;
        var cached := ItruncTo(fs, n, len);
        reply := Done;
        if shorter {
          CutIs(fs.g, st, St(cached, fs.inodes), whole, n, len);
          CutLen(fs.g, st, St(cached, fs.inodes), n, len);
          if cached != fs.disk {
            if reused { return reply, false; }
            fs.disk := cached;
          }
        }
    }
  }

  lemma CutLen(g: Geometry, st: St, st': St, n: nat, len: nat)
    requires Cut(g, st, st', n, len)
    ensures |st'.inodes| == |st.inodes|
  {}

  /** Runs the operations in order. After all of them the block invariant holds, files without holes
      still have none, and there is one reply to each, all of them those of byte arrays over a disk of so
      many blocks. The run ends early only at a cut whose table buffer is reused although the table names
      blocks given back, and then the invariant is broken. */
  method Run(fs: FileSystem, ghost whole: set<nat>, ops: seq<Op>) returns (replies: seq<Reply>, ghost views: seq<View>)
    requires Good(fs.g, fs.S(), whole) && (forall i :: 0 <= i < |ops| ==> OpOk(ops[i], |fs.inodes|)) && DiskOk(fs.g, fs.disk)
    modifies fs
    ensures |replies| <= |ops| && Answered(whole, ops[..|replies|], replies, views) && views[0] == ViewOf(fs.g, old(fs.S()))
    ensures |replies| == |ops| ==> Good(fs.g, fs.S(), whole) && DiskOk(fs.g, fs.disk) && views[|ops|] == ViewOf(fs.g, fs.S())
    ensures |replies| < |ops| ==> var op := ops[|replies|];
              && op.Shorten? && op.reused && !Inv(fs.g, fs.S())
              && exists st :: Good(fs.g, st, whole) && DiskOk(fs.g, st.disk) && views[|replies|] == ViewOf(fs.g, st)
                              && op.n < |st.inodes| && Stale(st, op.n, FirstFree(op.len))
  {
    hide Good, Inv, Answers, Answered, Stale, ViewOf;
    replies, views := [], [ViewOf(fs.g, fs.S())];
    NothingAnswered(whole, views);
    var i := 0;
    while i < |ops|
      invariant i == |replies| <= |ops| && Good(fs.g, fs.S(), whole) && |fs.inodes| == |old(fs.inodes)| && DiskOk(fs.g, fs.disk)
      invariant Answered(whole, ops[..i], replies, views) && |views| == i + 1 && views[0] == ViewOf(fs.g, old(fs.S())) && views[i] == ViewOf(fs.g, fs.S())
    {
      var reply, ok := Step(fs, whole, ops[i]);
      if !ok { return; }
      OneMore(whole, ops[..i], replies, views, ops[i], reply, ViewOf(fs.g, fs.S()));
      assert ops[..i] + [ops[i]] == ops[..i + 1];
      replies, views := replies + [reply], views + [ViewOf(fs.g, fs.S())];
      i := i + 1;
    }
    assert ops[..i] == ops;
  }

  lemma NothingAnswered(whole: set<nat>, views: seq<View>)
    requires |views| == 1
    ensures Answered(whole, [], [], views)
  {}

  /** A finished image is where a run may start. Only the root directory can have a hole, when what was
      appended to it fills its blocks. */
  lemma ImageIsGood(g: Geometry, st: St, script: seq<Piece>, whole: set<nat>)
    requires Packed(g, st, script) && |Of(script, ROOTINO)| < MAXBYTES
    requires ROOTINO in whole ==> |Of(script, ROOTINO)| % BSIZE != 0
    ensures Good(g, st, whole)
  {
    hide Inv, Content, Of;
    PackedSizes(g, st, script);
    if |Of(script, ROOTINO)| % BSIZE != 0 { RoundedDense(st, ROOTINO, |Of(script, ROOTINO)|); }
  }

  lemma RoundedDense(st: St, n: nat, size: nat)
    requires n < |st.inodes| && Covered(st, n, 0, size) && size % BSIZE != 0 && st.inodes[n].size == Rounded(size)
    ensures Dense(st, n)
  {
    hide At, DataSlot;
    forall b: nat | b * BSIZE < Rounded(size) ensures b < MAXFILE && At(st, Ref(n, DataSlot(b))) != 0 {
      assert b <= size / BSIZE;
      assert b * BSIZE < size;
    }
  }
}
