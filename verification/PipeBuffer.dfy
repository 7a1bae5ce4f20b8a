/** A pipe: the ring buffer with wrapping counters, and the protocol of sleeping readers and writers. */
module PipeBuffer {
  import opened Arith

  const PIPESIZE: nat := 512
  const TWO32: nat := 0x1_0000_0000
  const EINTR: int := 4

  /** Bytes between two free-running 32-bit counters. */
  function Count(nread: nat, nwrite: nat): nat { (nwrite - nread) % TWO32 }

  /** Index in the ring of the byte i places after counter value c. */
  function Place(c: nat, i: nat): (k: nat)
    ensures k < PIPESIZE
  { (c + i) % PIPESIZE }

  function Ring(data: seq<Byte>, nread: nat, count: nat): (s: seq<Byte>)
    requires |data| == PIPESIZE
    ensures |s| == count
  { seq(count, i requires 0 <= i => data[Place(nread, i)]) }

  /** Moving the read counter drops the first byte, also when it wraps. */
  lemma RingTake(data: seq<Byte>, nread: nat, count: nat)
    requires |data| == PIPESIZE && 0 < count
    ensures Ring(data, (nread + 1) % TWO32, count - 1) == Ring(data, nread, count)[1..]
  {
    forall i | 0 <= i < count - 1
      ensures Ring(data, (nread + 1) % TWO32, count - 1)[i] == Ring(data, nread, count)[1..][i]
    {
      WrapIndex(nread + 1, i);
    }
  }

  lemma WrapIndex(c: nat, i: nat)
    ensures Place(c % TWO32, i) == Place(c, i)
  {
    var q, x := c / TWO32, c % TWO32 + i;
    assert c + i == PIPESIZE * (0x80_0000 * q + x / PIPESIZE) + x % PIPESIZE;
    ModUnique(c + i, PIPESIZE, 0x80_0000 * q + x / PIPESIZE, x % PIPESIZE);
  }

  /** Storing at the write counter appends a byte while there is room. */
  lemma RingPut(data: seq<Byte>, nread: nat, nwrite: nat, b: Byte)
    requires |data| == PIPESIZE && nread < TWO32 && nwrite < TWO32 && Count(nread, nwrite) < PIPESIZE
    ensures Ring(data[nwrite % PIPESIZE := b], nread, Count(nread, nwrite) + 1) == Ring(data, nread, Count(nread, nwrite)) + [b]
  {
    var n := Count(nread, nwrite);
    WrapIndex(nread + n, 0);
    assert (nread + n) % TWO32 == nwrite;
    forall i: nat | i < n ensures Place(nread, i) != nwrite % PIPESIZE { Apart(nread, i, n); }
  }

  lemma Apart(c: nat, i: nat, n: nat)
    requires i < n < PIPESIZE
    ensures Place(c, i) != Place(c, n)
  {}

  class Pipe {
    const data: array<Byte>
    var nread: nat
    var nwrite: nat
    var readopen: bool
    var writeopen: bool

    ghost predicate Valid()
      reads this, data
    { data.Length == PIPESIZE && nread < TWO32 && nwrite < TWO32 && Count(nread, nwrite) <= PIPESIZE }

    /** The bytes accepted and not yet delivered, oldest first. */
    ghost function Contents(): (s: seq<Byte>)
      requires Valid()
      reads this, data
    { Ring(data[..], nread, Count(nread, nwrite)) }

    /** pipealloc's initialisation of the page. */
    constructor ()
      ensures Valid() && Contents() == [] && readopen && writeopen && fresh(data)
    {
      data := new Byte[PIPESIZE];
      nread, nwrite, readopen, writeopen := 0, 0, true, true;
    }

    function IsEmpty(): (r: bool)
      requires Valid()
      reads this, data
      ensures r <==> Contents() == []
    { nread == nwrite }

    function IsFull(): (r: bool)
      requires Valid()
      reads this, data
      ensures r <==> |Contents()| == PIPESIZE
    { nwrite == (nread + PIPESIZE) % TWO32 }

    /** The copy loop of piperead. */
    method Take(n: nat) returns (out: seq<Byte>)
      requires Valid()
      modifies this`nread
      ensures Valid() && out == old(Contents())[..Min(n, |old(Contents())|)] && Contents() == old(Contents())[Min(n, |old(Contents())|)..]
    {
      hide Ring, Count;
      ghost var all := Contents();
      out := [];
      while |out| < n
        invariant |out| <= n && Valid() && |out| <= |all| && out == all[..|out|] && Contents() == all[|out|..]
        decreases n - |out|
      {
        if IsEmpty() { break; }
        CountDown(nread, nwrite);
        RingTake(data[..], nread, Count(nread, nwrite));
        assert data[nread % PIPESIZE] == Contents()[0] by { FirstByte(data[..], nread, Count(nread, nwrite)); }
        out := out + [data[nread % PIPESIZE]];
        nread := (nread + 1) % TWO32;
      }
    }

    /** The copy loop of pipewrite inside one masked section: until the source ends or the ring is full. */
    method Put(src: seq<Byte>, start: nat) returns (i: nat)
      requires Valid() && start <= |src|
      modifies this`nwrite, data
      ensures Valid() && start <= i <= |src| && Contents() == old(Contents()) + src[start..i]
      ensures i < |src| <==> |src| - start > PIPESIZE - |old(Contents())|
      ensures i < |src| ==> IsFull()
    {
      hide Ring;
      ghost var all := Contents();
      i := start;
      while i < |src|
        invariant start <= i <= |src| && Valid() && Contents() == all + src[start..i]
        decreases |src| - i
      {
        if IsFull() { break; }
        ghost var d0 := data[..];
        RingPut(d0, nread, nwrite, src[i]);
        CountUp(nread, nwrite);
        data[nwrite % PIPESIZE] := src[i];
        assert data[..] == d0[nwrite % PIPESIZE := src[i]];
        nwrite := (nwrite + 1) % TWO32;
        assert src[start..i] + [src[i]] == src[start..i + 1];
        i := i + 1;
      }
    }
  }

  lemma FirstByte(data: seq<Byte>, nread: nat, count: nat)
    requires |data| == PIPESIZE && count > 0
    ensures Ring(data, nread, count)[0] == data[nread % PIPESIZE]
  {}

  lemma CountUp(nread: nat, nwrite: nat)
    requires nread < TWO32 && nwrite < TWO32 && Count(nread, nwrite) < PIPESIZE
    ensures Count(nread, (nwrite + 1) % TWO32) == Count(nread, nwrite) + 1
  {}

  lemma CountDown(nread: nat, nwrite: nat)
    requires nread < TWO32 && nwrite < TWO32 && nread != nwrite
    ensures Count(nread, nwrite) > 0 && Count((nread + 1) % TWO32, nwrite) == Count(nread, nwrite) - 1
  {}
}
