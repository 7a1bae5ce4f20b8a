/** The buffer cache: a circular doubly linked list of buffers, least recently released last. */
module Bio {
  import opened Arith
  import opened FsDisk

  const NBUF: nat := 64
  const HEAD: nat := 64  // the list head's index, one past the buffers

  datatype Buf = Buf(valid: bool, dev: nat, blockno: nat, refcnt: nat, data: Block)

  predicate Keyed(b: Buf, dev: nat, blockno: nat) { b.dev == dev && b.blockno == blockno }

  predicate SameKey(b: Buf, c: Buf) { Keyed(b, c.dev, c.blockno) }

  predicate Live(b: Buf) { b.refcnt > 0 || b.valid }

  // ---------- The list ----------

  /** Position i of the ring that starts at the head: the head, the buffers in order, the head again. */
  function Node(order: seq<nat>, i: nat): nat
    requires i <= |order| + 1
  { if i == 0 || i == |order| + 1 then HEAD else order[i - 1] }

  ghost predicate Linked(next: seq<nat>, prev: seq<nat>, order: seq<nat>) {
    && |next| == |prev| == NBUF + 1
    && (forall i :: 0 <= i < |order| ==> order[i] < NBUF)
    && (forall i, j :: 0 <= i < j < |order| ==> order[i] != order[j])
    && (forall i: nat :: i <= |order| ==> next[Node(order, i)] == Node(order, i + 1))
    && (forall i: nat :: i <= |order| ==> prev[Node(order, i + 1)] == Node(order, i))
  }

  /** Taking out the buffer at place p. */
  function Without(order: seq<nat>, p: nat): seq<nat>
    requires p < |order|
  { order[..p] + order[p + 1..] }

  /** Ring positions after taking out place p. */
  lemma NodeWithout(order: seq<nat>, p: nat, i: nat)
    requires p < |order| && i <= |order|
    ensures Node(Without(order, p), i) == Node(order, if i <= p then i else i + 1)
  {}

  lemma Unlinks(next: seq<nat>, prev: seq<nat>, order: seq<nat>, p: nat)
    requires Linked(next, prev, order) && p < |order|
    ensures var b := order[p];
            && b < NBUF && next[b] <= NBUF && prev[b] <= NBUF
            && Linked(next[prev[b] := next[b]], prev[next[b] := prev[b]], Without(order, p)) && b !in Without(order, p)
  {
    var b := order[p];
    assert Node(order, p + 1) == b;
    assert next[b] == Node(order, p + 2) && prev[b] == Node(order, p);
    var o := Without(order, p);
    var n1, p1 := next[prev[b] := next[b]], prev[next[b] := prev[b]];
    forall i: nat | i <= |o| ensures n1[Node(o, i)] == Node(o, i + 1) && p1[Node(o, i + 1)] == Node(o, i) {
      NodeWithout(order, p, i);
      NodeWithout(order, p, i + 1);
      RingPlace(next, prev, order, p, i);
    }
  }

  /** Which of the remaining links are rewritten: the one that jumped over place p. */
  lemma RingPlace(next: seq<nat>, prev: seq<nat>, order: seq<nat>, p: nat, i: nat)
    requires Linked(next, prev, order) && p < |order| && i < |order|
    ensures i < p ==> Node(order, i) != Node(order, p) && Node(order, i + 1) != Node(order, p + 2)
    ensures i > p ==> Node(order, i + 1) != Node(order, p) && Node(order, i + 2) != Node(order, p + 2)
  {}

  /** Putting a buffer in front. */
  lemma Pushes(next: seq<nat>, prev: seq<nat>, order: seq<nat>, b: nat)
    requires Linked(next, prev, order) && b < NBUF && b !in order
    ensures next[HEAD] <= NBUF
    ensures Linked(next[b := next[HEAD]][HEAD := b], prev[b := HEAD][next[HEAD] := b], [b] + order)
  {
    var o := [b] + order;
    assert Node(order, 0) == HEAD && next[HEAD] == Node(order, 1);
    var n1, p1 := next[b := next[HEAD]][HEAD := b], prev[b := HEAD][next[HEAD] := b];
    forall i: nat | i <= |o| ensures n1[Node(o, i)] == Node(o, i + 1) && p1[Node(o, i + 1)] == Node(o, i) {
      if i == 0 {
        assert Node(o, 0) == HEAD && Node(o, 1) == b;
      } else if i == 1 {
        assert Node(o, 1) == b && Node(o, 2) == Node(order, 1);
      } else {
        assert Node(o, i) == Node(order, i - 1) && Node(o, i + 1) == Node(order, i);
        assert Node(order, i) != Node(order, 1);
      }
    }
  }

  // ---------- The cache ----------

  /** Of two buffers with one key, the later in the list is neither held nor valid. This holds from the
      start, when every buffer has the key (0, 0), and makes the search find the live one. */
  ghost predicate FirstLive(bufs: seq<Buf>, order: seq<nat>) {
    forall p, q :: 0 <= p < q < |order| && order[p] < |bufs| && order[q] < |bufs| && SameKey(bufs[order[p]], bufs[order[q]]) ==>
      !Live(bufs[order[q]])
  }

  ghost predicate Covers(order: seq<nat>) { forall b: nat :: b < NBUF ==> b in order }

  /** Valid buffers stand for blocks of the disk. */
  ghost predicate InDisk(bufs: seq<Buf>, disk: Disk) { forall b :: 0 <= b < |bufs| && bufs[b].valid ==> bufs[b].blockno < |disk| }

  predicate Agrees(b: Buf, disk: Disk) { b.blockno < |disk| && b.data == disk[b.blockno] }

  /** Valid buffers nobody holds agree with the disk. */
  ghost predicate Clean(bufs: seq<Buf>, disk: Disk) {
    forall b :: 0 <= b < |bufs| && bufs[b].valid && bufs[b].refcnt == 0 ==> Agrees(bufs[b], disk)
  }

  ghost predicate StandsFor(bufs: seq<Buf>, b: nat, dev: nat, k: nat) { b < |bufs| && bufs[b].valid && Keyed(bufs[b], dev, k) }

  /** What a reader of the cache is shown for a block: a valid buffer if there is one, else the disk. */
  ghost function Seen(bufs: seq<Buf>, disk: Disk, dev: nat, k: nat): Block
    requires k < |disk|
  { if exists b: nat :: StandsFor(bufs, b, dev, k) then var b: nat :| StandsFor(bufs, b, dev, k); bufs[b].data else disk[k] }

  /** At most one buffer can be meant. */
  lemma SeenIs(bufs: seq<Buf>, disk: Disk, order: seq<nat>, b: nat)
    requires FirstLive(bufs, order) && Covers(order) && |bufs| == NBUF && (forall i :: 0 <= i < |order| ==> order[i] < NBUF)
    requires b < NBUF && bufs[b].valid && bufs[b].blockno < |disk|
    ensures Seen(bufs, disk, bufs[b].dev, bufs[b].blockno) == bufs[b].data
  {
    var dev, k := bufs[b].dev, bufs[b].blockno;
    assert StandsFor(bufs, b, dev, k);
    forall c: nat | StandsFor(bufs, c, dev, k) ensures c == b { if c != b { KeysUnique(bufs, order, b, c); } }
  }

  /** What is seen depends on the data of the buffers that stand for the block only. */
  lemma SeenSame(bufs: seq<Buf>, bufs': seq<Buf>, disk: Disk, disk': Disk, order: seq<nat>, dev: nat, k: nat)
    requires FirstLive(bufs, order) && Covers(order) && |bufs| == NBUF == |bufs'| && (forall i :: 0 <= i < |order| ==> order[i] < NBUF)
    requires k < |disk| == |disk'|
    requires forall b: nat :: StandsFor(bufs', b, dev, k) <==> StandsFor(bufs, b, dev, k)
    requires forall b: nat :: StandsFor(bufs, b, dev, k) ==> bufs'[b].data == bufs[b].data
    requires (forall b: nat :: !StandsFor(bufs, b, dev, k)) ==> disk'[k] == disk[k]
    ensures Seen(bufs', disk', dev, k) == Seen(bufs, disk, dev, k)
  {
    if c: nat :| StandsFor(bufs, c, dev, k) {
      SeenIs(bufs, disk, order, c);
      forall b: nat | StandsFor(bufs, b, dev, k) ensures b == c { if b != c { KeysUnique(bufs, order, b, c); } }
    }
  }

  lemma NotBuffered(bufs: seq<Buf>, disk: Disk, dev: nat, k: nat)
    requires k < |disk| && forall b: nat :: !StandsFor(bufs, b, dev, k)
    ensures Seen(bufs, disk, dev, k) == disk[k]
  {}

  /** No two live buffers have one key. */
  lemma KeysUnique(bufs: seq<Buf>, order: seq<nat>, b: nat, c: nat)
    requires FirstLive(bufs, order) && Covers(order) && |bufs| == NBUF && b < NBUF && c < NBUF && b != c
    requires forall i :: 0 <= i < |order| ==> order[i] < NBUF
    requires Live(bufs[b]) && Live(bufs[c])
    ensures !SameKey(bufs[b], bufs[c])
  {
    assert b in order && c in order;
    var p :| 0 <= p < |order| && order[p] == b;
    var q :| 0 <= q < |order| && order[q] == c;
  }

  /** While one device is in use, no two valid buffers stand for one disk block. (The disk driver is
      given the block number only, so buffers of two devices would share their blocks.) */
  lemma OneDevice(bufs: seq<Buf>, order: seq<nat>, b: nat)
    requires FirstLive(bufs, order) && Covers(order) && |bufs| == NBUF && b < NBUF && Live(bufs[b])
    requires forall i :: 0 <= i < |order| ==> order[i] < NBUF
    requires forall c :: 0 <= c < NBUF && bufs[c].valid ==> bufs[c].dev == bufs[b].dev
    ensures forall c :: 0 <= c < NBUF && c != b && bufs[c].valid ==> bufs[c].blockno != bufs[b].blockno
  {
    hide FirstLive, Covers;
    forall c | 0 <= c < NBUF && c != b && bufs[c].valid ensures bufs[c].blockno != bufs[b].blockno { KeysUnique(bufs, order, b, c); }
  }

  /** The first buffer in the list with the key, or the last one nobody holds: what bget looks for. */
  ghost predicate IsHit(bufs: seq<Buf>, order: seq<nat>, dev: nat, blockno: nat, p: nat) {
    && p < |order| && order[p] < |bufs| && Keyed(bufs[order[p]], dev, blockno)
    && forall i :: 0 <= i < p && order[i] < |bufs| ==> !Keyed(bufs[order[i]], dev, blockno)
  }

  ghost predicate NoKey(bufs: seq<Buf>, dev: nat, blockno: nat) { forall b :: 0 <= b < |bufs| ==> !Keyed(bufs[b], dev, blockno) }

  ghost predicate IsVictim(bufs: seq<Buf>, order: seq<nat>, p: nat) {
    && p < |order| && order[p] < |bufs| && bufs[order[p]].refcnt == 0
    && forall i :: p < i < |order| && order[i] < |bufs| ==> bufs[order[i]].refcnt != 0
  }

  class Cache {
    var bufs: seq<Buf>
    var next: seq<nat>
    var prev: seq<nat>
    var disk: Disk
    ghost var order: seq<nat>

    ghost predicate Valid()
      reads this
    { |bufs| == NBUF == |order| && Linked(next, prev, order) && Covers(order) && FirstLive(bufs, order) && InDisk(bufs, disk) }

    /** bio_init: each buffer is put in front of the list in turn; all have the key (0, 0) and none is valid. */
    constructor (disk: Disk)
      ensures Valid() && this.disk == disk
      ensures forall b :: 0 <= b < NBUF ==> !Live(bufs[b]) && Keyed(bufs[b], 0, 0)
    {
      var blank: Buf := Buf(false, 0, 0, 0, ZeroBlock());
      this.disk := disk;
      bufs := seq(NBUF, _ => blank);
      next, prev, order := seq(NBUF + 1, _ => HEAD), seq(NBUF + 1, _ => HEAD), [];
      new;
      var i := 0;
      while i < NBUF
        invariant i <= NBUF && Linked(next, prev, order) && |order| == i
        invariant forall b: nat :: b in order <==> b < i
        invariant bufs == seq(NBUF, _ => blank) && this.disk == disk
      {
        Pushes(next, prev, order, i);
        PushFront(i);
        i := i + 1;
      }
    }

    /** The four assignments that put a buffer in front of the list. */
    method PushFront(b: nat)
      requires |next| == |prev| == NBUF + 1 && b < NBUF && next[HEAD] <= NBUF
      modifies this`next, this`prev, this`order
      ensures next == old(next)[b := old(next)[HEAD]][HEAD := b]
      ensures prev == old(prev)[b := HEAD][old(next)[HEAD] := b]
      ensures order == [b] + old(order)
    {
      var first := next[HEAD];
      next := next[b := first];
      prev := prev[b := HEAD];
      prev := prev[first := b];
      next := next[HEAD := b];
      order := [b] + order;
    }

    /** bget's first loop, from the front of the list. */
    method Search(dev: nat, blockno: nat) returns (b: nat, ghost p: nat)
      requires Valid()
      ensures b == HEAD ==> NoKey(bufs, dev, blockno)
      ensures b != HEAD ==> b < NBUF && p < |order| && IsHit(bufs, order, dev, blockno, p) && b == order[p]
    {
      hide FirstLive, InDisk, Keyed;
      p := 0;
      b := next[HEAD];
      assert Node(order, 0) == HEAD;
      while b != HEAD
        invariant p <= |order| && b == Node(order, p + 1)
        invariant forall i :: 0 <= i < p ==> !Keyed(bufs[order[i]], dev, blockno)
        decreases |order| - p
      {
        if Keyed(bufs[b], dev, blockno) { return; }
        p := p + 1;
        b := next[b];
      }
      forall c | 0 <= c < |bufs| ensures !Keyed(bufs[c], dev, blockno) { assert c in order; }
    }

    /** bget's second loop, from the tail. */
    method Victim() returns (b: nat, ghost p: nat)
      requires Valid()
      ensures b == HEAD ==> forall c :: 0 <= c < NBUF ==> bufs[c].refcnt != 0
      ensures b != HEAD ==> b < NBUF && p < |order| && IsVictim(bufs, order, p) && b == order[p]
    {
      hide FirstLive, InDisk;
      ghost var q: nat := |order|;
      b := prev[HEAD];
      assert Node(order, |order| + 1) == HEAD;
      while b != HEAD
        invariant q <= |order| && b == Node(order, q)
        invariant forall i :: q <= i < |order| ==> bufs[order[i]].refcnt != 0
        decreases q
      {
        if bufs[b].refcnt == 0 { p := q - 1; return; }
        q := q - 1;
        b := prev[b];
      }
      p := 0;
      forall c | 0 <= c < NBUF ensures bufs[c].refcnt != 0 { assert c in order; }
    }

    /** bget: the buffer with the key if there is one, otherwise the unheld buffer nearest the tail,
        re-keyed and invalid. A held buffer is never re-keyed. It fails exactly when the key is absent
        and every buffer is held. */
    method Bget(dev: nat, blockno: nat) returns (b: nat)
      requires Valid()
      modifies this`bufs
      ensures Valid() && b <= HEAD
      ensures b == HEAD <==> NoKey(old(bufs), dev, blockno) && forall c :: 0 <= c < NBUF ==> old(bufs)[c].refcnt != 0
      ensures b == HEAD ==> bufs == old(bufs)
      ensures b != HEAD && !NoKey(old(bufs), dev, blockno) ==>
                (exists p: nat :: IsHit(old(bufs), order, dev, blockno, p) && b == order[p])
                && bufs == old(bufs)[b := old(bufs)[b].(refcnt := old(bufs)[b].refcnt + 1)]
      ensures b != HEAD && NoKey(old(bufs), dev, blockno) ==>
                (exists p: nat :: IsVictim(old(bufs), order, p) && b == order[p])
                && bufs == old(bufs)[b := Buf(false, dev, blockno, 1, old(bufs)[b].data)]
      ensures Clean(old(bufs), disk) ==> Clean(bufs, disk)
    {
      hide FirstLive, InDisk, Keyed, Linked, IsHit, IsVictim, Clean;
      OrderFacts(next, prev, order);
      ghost var p;
      b, p := Search(dev, blockno);
      if b != HEAD {
        HitKeeps(bufs, order, disk, dev, blockno, p);
        bufs := bufs[b := bufs[b].(refcnt := bufs[b].refcnt + 1)];
        return;
      }
      b, p := Victim();
      if b != HEAD {
        VictimKeeps(bufs, order, disk, dev, blockno, p);
        bufs := bufs[b := bufs[b].(dev := dev, blockno := blockno, valid := false, refcnt := 1)];
      }
    }

    /** bio_read without device errors: a held valid buffer that shows what the block is seen to be. What is
        seen of other blocks stays, but a block whose buffer is re-keyed falls back to the disk. */
    method Read(dev: nat, blockno: nat) returns (b: nat)
      requires Valid() && blockno < |disk|
      modifies this`bufs
      ensures Valid() && b <= HEAD
      ensures b == HEAD <==> NoKey(old(bufs), dev, blockno) && forall c :: 0 <= c < NBUF ==> old(bufs)[c].refcnt != 0
      ensures b == HEAD ==> bufs == old(bufs)
      ensures b != HEAD ==>
                && Keyed(bufs[b], dev, blockno) && bufs[b].valid && bufs[b].data == Seen(old(bufs), disk, dev, blockno)
                && (Keyed(old(bufs)[b], dev, blockno) || old(bufs)[b].refcnt == 0)
                && bufs[b].data == (if Keyed(old(bufs)[b], dev, blockno) && old(bufs)[b].valid then old(bufs)[b].data else disk[blockno])
                && bufs[b].refcnt == (if Keyed(old(bufs)[b], dev, blockno) then old(bufs)[b].refcnt else 0) + 1
                && forall c :: 0 <= c < NBUF && c != b ==> bufs[c] == old(bufs)[c]
      ensures b != HEAD ==> forall d: nat, k: nat :: k < |disk| ==>
                Seen(bufs, disk, d, k) == if StandsFor(old(bufs), b, d, k) && !Keyed(old(bufs)[b], dev, blockno) then disk[k] else Seen(old(bufs), disk, d, k)
      ensures Clean(old(bufs), disk) ==> Clean(bufs, disk)
    {
      hide FirstLive, Linked, Covers, InDisk, Seen, Clean, NoKey, IsHit, IsVictim;
      OrderFacts(next, prev, order);
      ghost var before := bufs;
      b := Bget(dev, blockno);
      if b == HEAD { return; }
      HitOrNew(before, order, dev, blockno, b, bufs);
      if !bufs[b].valid {
        ghost var mid := bufs;
        bufs := bufs[b := bufs[b].(data := disk[blockno], valid := true)];
        FilledKeeps(mid, order, disk, b, blockno);
      }
      ReadSeen(before, bufs, disk, order, dev, blockno, b);
    }

    /** The holder of a buffer changes it: the block is seen changed, and no other. */
    method Modify(b: nat, data: Block)
      requires Valid() && b < NBUF && bufs[b].refcnt > 0 && bufs[b].valid
      modifies this`bufs
      ensures Valid() && bufs == old(bufs)[b := old(bufs)[b].(data := data)]
      ensures forall d: nat, k: nat :: k < |disk| ==>
                Seen(bufs, disk, d, k) == if Keyed(bufs[b], d, k) then data else Seen(old(bufs), disk, d, k)
      ensures Clean(bufs, disk) <==> Clean(old(bufs), disk)
    {
      hide Linked, Covers, Seen;
      OrderFacts(next, prev, order);
      ghost var before := bufs;
      bufs := bufs[b := bufs[b].(data := data)];
      ModifySeen(before, bufs, disk, order, b, data);
      CleanBut(before, disk, b, bufs[b]);
    }

    /** bio_write without device errors: the disk gets the buffer's block. The driver is not told the
        device, so the block of that number changes for every device that has it in no buffer, and a valid
        buffer another device has for that number may now differ from the disk. */
    method Write(b: nat)
      requires Valid() && b < NBUF && bufs[b].refcnt > 0 && bufs[b].blockno < |disk|
      modifies this`disk
      ensures Valid() && disk == old(disk)[bufs[b].blockno := bufs[b].data]
      ensures forall d: nat, k: nat :: k < |disk| ==>
                Seen(bufs, disk, d, k) ==
                if k == bufs[b].blockno && forall c: nat :: !StandsFor(bufs, c, d, k) then bufs[b].data else Seen(bufs, old(disk), d, k)
      ensures Clean(bufs, old(disk)) ==>
                (Clean(bufs, disk) <==> forall c: nat :: c < NBUF && StandsFor(bufs, c, bufs[c].dev, bufs[b].blockno) && bufs[c].refcnt == 0 ==> bufs[c].data == bufs[b].data)
    {
      hide Linked, Covers, FirstLive, Seen;
      OrderFacts(next, prev, order);
      ghost var before := disk;
      disk := disk[bufs[b].blockno := bufs[b].data];
      WriteSeen(bufs, before, disk, order, b);
    }

    /** bio_release: the last holder's release moves the buffer to the front of the list. Nothing is seen
        changed. A buffer changed and not written is then a valid one nobody holds that differs from the disk. */
    method Release(b: nat)
      requires Valid() && b < NBUF && bufs[b].refcnt > 0
      modifies this`bufs, this`next, this`prev, this`order
      ensures Valid() && bufs == old(bufs)[b := old(bufs)[b].(refcnt := old(bufs)[b].refcnt - 1)]
      ensures old(bufs)[b].refcnt > 1 ==> order == old(order)
      ensures old(bufs)[b].refcnt == 1 ==> exists p: nat :: p < |old(order)| && old(order)[p] == b && order == [b] + Without(old(order), p)
      ensures forall d: nat, k: nat :: k < |disk| ==> Seen(bufs, disk, d, k) == Seen(old(bufs), disk, d, k)
      ensures Clean(bufs, disk) <==> Clean(old(bufs), disk) && (old(bufs)[b].refcnt == 1 && bufs[b].valid ==> Agrees(bufs[b], disk))
    {
      hide FirstLive, InDisk, Linked, Seen;
      OrderFacts(next, prev, order);
      ghost var before := bufs;
      assert b in order;
      ghost var p: nat :| p < |order| && order[p] == b;
      ghost var o := order;
      ReleaseKeeps(bufs, order, disk, p);
      bufs := bufs[b := bufs[b].(refcnt := bufs[b].refcnt - 1)];
      ReleaseSeen(before, bufs, disk, order, b);
      CleanBut(before, disk, b, bufs[b]);
      if bufs[b].refcnt == 0 {
        Unlinks(next, prev, order, p);
        LinkLen(next, prev, order);
        var after, before := next[b], prev[b];
        prev := prev[after := before];
        next := next[before := after];
        order := Without(order, p);
        Pushes(next, prev, order, b);
        LinkLen(next, prev, order);
        PushFront(b);
        MovedCovers(o, p);
      }
    }
  }

  /** What bget did, told by the buffer it returned. */
  lemma HitOrNew(bufs: seq<Buf>, order: seq<nat>, dev: nat, blockno: nat, b: nat, bufs': seq<Buf>)
    requires |bufs| == NBUF && b < NBUF && (forall i :: 0 <= i < |order| ==> order[i] < NBUF)
    requires !NoKey(bufs, dev, blockno) ==>
               (exists p: nat :: IsHit(bufs, order, dev, blockno, p) && b == order[p]) && bufs' == bufs[b := bufs[b].(refcnt := bufs[b].refcnt + 1)]
    requires NoKey(bufs, dev, blockno) ==>
               (exists p: nat :: IsVictim(bufs, order, p) && b == order[p]) && bufs' == bufs[b := Buf(false, dev, blockno, 1, bufs[b].data)]
    ensures Keyed(bufs[b], dev, blockno) ==> bufs' == bufs[b := bufs[b].(refcnt := bufs[b].refcnt + 1)]
    ensures !Keyed(bufs[b], dev, blockno) ==>
              bufs' == bufs[b := Buf(false, dev, blockno, 1, bufs[b].data)] && bufs[b].refcnt == 0 && NoKey(bufs, dev, blockno)
  {}

  lemma ReadSeen(bufs: seq<Buf>, bufs': seq<Buf>, disk: Disk, order: seq<nat>, dev: nat, blockno: nat, b: nat)
    requires FirstLive(bufs, order) && FirstLive(bufs', order) && Covers(order) && |bufs| == NBUF == |bufs'| && (forall i :: 0 <= i < |order| ==> order[i] < NBUF)
    requires b < NBUF && blockno < |disk| && Keyed(bufs'[b], dev, blockno) && bufs'[b].valid && bufs'[b].refcnt > 0
    requires forall c :: 0 <= c < NBUF && c != b ==> bufs'[c] == bufs[c]
    requires Keyed(bufs[b], dev, blockno) || NoKey(bufs, dev, blockno)
    requires bufs'[b].data == if Keyed(bufs[b], dev, blockno) && bufs[b].valid then bufs[b].data else disk[blockno]
    ensures bufs'[b].data == Seen(bufs, disk, dev, blockno)
    ensures forall d: nat, k: nat :: k < |disk| ==>
              Seen(bufs', disk, d, k) == if StandsFor(bufs, b, d, k) && !Keyed(bufs[b], dev, blockno) then disk[k] else Seen(bufs, disk, d, k)
  {
    hide FirstLive, Covers, Seen;
    forall c: nat | c < NBUF && c != b ensures !StandsFor(bufs, c, dev, blockno) {
      if StandsFor(bufs, c, dev, blockno) { KeysUnique(bufs', order, b, c); }
    }
    if Keyed(bufs[b], dev, blockno) && bufs[b].valid { SeenIs(bufs, disk, order, b); } else { NotBuffered(bufs, disk, dev, blockno); }
    forall d: nat, k: nat | k < |disk|
      ensures Seen(bufs', disk, d, k) == if StandsFor(bufs, b, d, k) && !Keyed(bufs[b], dev, blockno) then disk[k] else Seen(bufs, disk, d, k)
    {
      if d == dev && k == blockno {
        SeenIs(bufs', disk, order, b);
      } else if StandsFor(bufs, b, d, k) {
        forall c: nat ensures !StandsFor(bufs', c, d, k) {
          if c < NBUF && c != b && StandsFor(bufs, c, d, k) { KeysUnique(bufs, order, b, c); }
        }
        NotBuffered(bufs', disk, d, k);
      } else {
        SeenSame(bufs, bufs', disk, disk, order, d, k);
      }
    }
  }

  lemma ModifySeen(bufs: seq<Buf>, bufs': seq<Buf>, disk: Disk, order: seq<nat>, b: nat, data: Block)
    requires FirstLive(bufs, order) && FirstLive(bufs', order) && Covers(order) && |bufs| == NBUF && (forall i :: 0 <= i < |order| ==> order[i] < NBUF)
    requires b < NBUF && bufs[b].valid && bufs[b].blockno < |disk| && bufs' == bufs[b := bufs[b].(data := data)]
    ensures forall d: nat, k: nat :: k < |disk| ==> Seen(bufs', disk, d, k) == if Keyed(bufs'[b], d, k) then data else Seen(bufs, disk, d, k)
  {
    hide FirstLive, Covers, Seen;
    SeenIs(bufs', disk, order, b);
    forall d: nat, k: nat | k < |disk| && !Keyed(bufs[b], d, k) ensures Seen(bufs', disk, d, k) == Seen(bufs, disk, d, k) {
      SeenSame(bufs, bufs', disk, disk, order, d, k);
    }
  }

  /** Whether a held buffer's change leaves the cache clean depends on that buffer only. */
  lemma CleanBut(bufs: seq<Buf>, disk: Disk, b: nat, buf: Buf)
    requires b < |bufs| && bufs[b].refcnt > 0
    ensures Clean(bufs[b := buf], disk) <==> Clean(bufs, disk) && (buf.valid && buf.refcnt == 0 ==> Agrees(buf, disk))
  {
    var bufs' := bufs[b := buf];
    forall c | 0 <= c < |bufs| && c != b ensures bufs'[c] == bufs[c] {}
    assert bufs'[b] == buf;
    if Clean(bufs', disk) { forall c | 0 <= c < |bufs| && bufs[c].valid && bufs[c].refcnt == 0 ensures Agrees(bufs[c], disk) { assert bufs'[c] == bufs[c]; } }
  }

  lemma WriteSeen(bufs: seq<Buf>, disk: Disk, disk': Disk, order: seq<nat>, b: nat)
    requires FirstLive(bufs, order) && Covers(order) && |bufs| == NBUF && (forall i :: 0 <= i < |order| ==> order[i] < NBUF)
    requires b < NBUF && bufs[b].blockno < |disk| && disk' == disk[bufs[b].blockno := bufs[b].data]
    ensures forall d: nat, k: nat :: k < |disk| ==>
              Seen(bufs, disk', d, k) == if k == bufs[b].blockno && forall c: nat :: !StandsFor(bufs, c, d, k) then bufs[b].data else Seen(bufs, disk, d, k)
  {}

  lemma ReleaseSeen(bufs: seq<Buf>, bufs': seq<Buf>, disk: Disk, order: seq<nat>, b: nat)
    requires FirstLive(bufs, order) && Covers(order) && |bufs| == NBUF && (forall i :: 0 <= i < |order| ==> order[i] < NBUF)
    requires b < NBUF && bufs[b].refcnt > 0 && bufs' == bufs[b := bufs[b].(refcnt := bufs[b].refcnt - 1)]
    ensures forall d: nat, k: nat :: k < |disk| ==> Seen(bufs', disk, d, k) == Seen(bufs, disk, d, k)
  {
    hide FirstLive, Covers, Seen;
    forall d: nat, k: nat | k < |disk| ensures Seen(bufs', disk, d, k) == Seen(bufs, disk, d, k) {
      SeenSame(bufs, bufs', disk, disk, order, d, k);
    }
  }

  lemma LinkLen(next: seq<nat>, prev: seq<nat>, order: seq<nat>)
    requires Linked(next, prev, order)
    ensures |next| == |prev| == NBUF + 1
  {}

  lemma OrderFacts(next: seq<nat>, prev: seq<nat>, order: seq<nat>)
    requires Linked(next, prev, order)
    ensures forall i :: 0 <= i < |order| ==> order[i] < NBUF
    ensures forall i, j :: 0 <= i < j < |order| ==> order[i] != order[j]
  {}

  lemma MovedCovers(order: seq<nat>, p: nat)
    requires p < |order| && Covers(order)
    ensures Covers([order[p]] + Without(order, p)) && |[order[p]] + Without(order, p)| == |order|
  {
    var o := [order[p]] + Without(order, p);
    forall b: nat | b < NBUF ensures b in o {
      assert b in order;
      var i :| 0 <= i < |order| && order[i] == b;
      if i < p { assert o[i + 1] == b; } else if i == p { assert o[0] == b; } else { assert o[i] == b; }
    }
  }

  lemma HitKeeps(bufs: seq<Buf>, order: seq<nat>, disk: Disk, dev: nat, blockno: nat, p: nat)
    requires FirstLive(bufs, order) && InDisk(bufs, disk) && IsHit(bufs, order, dev, blockno, p) && |bufs| == NBUF
    requires forall i :: 0 <= i < |order| ==> order[i] < NBUF
    requires forall i, j :: 0 <= i < j < |order| ==> order[i] != order[j]
    ensures var b := order[p]; var bufs' := bufs[b := bufs[b].(refcnt := bufs[b].refcnt + 1)];
            FirstLive(bufs', order) && InDisk(bufs', disk) && (Clean(bufs, disk) ==> Clean(bufs', disk)) && !NoKey(bufs, dev, blockno)
  {}

  lemma VictimKeeps(bufs: seq<Buf>, order: seq<nat>, disk: Disk, dev: nat, blockno: nat, p: nat)
    requires FirstLive(bufs, order) && InDisk(bufs, disk) && NoKey(bufs, dev, blockno) && IsVictim(bufs, order, p) && |bufs| == NBUF
    requires forall i, j :: 0 <= i < j < |order| ==> order[i] != order[j]
    ensures var b := order[p]; var bufs' := bufs[b := Buf(false, dev, blockno, 1, bufs[b].data)];
            FirstLive(bufs', order) && InDisk(bufs', disk) && (Clean(bufs, disk) ==> Clean(bufs', disk)) && bufs[b].refcnt == 0
  {}

  lemma FilledKeeps(bufs: seq<Buf>, order: seq<nat>, disk: Disk, b: nat, blockno: nat)
    requires FirstLive(bufs, order) && InDisk(bufs, disk) && b < |bufs| && bufs[b].refcnt > 0 && bufs[b].blockno == blockno < |disk|
    ensures var bufs' := bufs[b := bufs[b].(data := disk[blockno], valid := true)];
            FirstLive(bufs', order) && InDisk(bufs', disk) && (Clean(bufs, disk) ==> Clean(bufs', disk))
  {}

  /** A buffer about to be released is the only live one with its key, so it may go to the front. */
  lemma ReleaseKeeps(bufs: seq<Buf>, order: seq<nat>, disk: Disk, p: nat)
    requires FirstLive(bufs, order) && InDisk(bufs, disk) && p < |order| && |bufs| == NBUF && (forall i :: 0 <= i < |order| ==> order[i] < NBUF)
    requires forall i, j :: 0 <= i < j < |order| ==> order[i] != order[j]
    requires bufs[order[p]].refcnt > 0
    ensures var b := order[p]; var bufs' := bufs[b := bufs[b].(refcnt := bufs[b].refcnt - 1)];
            InDisk(bufs', disk) && FirstLive(bufs', order) && FirstLive(bufs', [b] + Without(order, p))
  {
    var b := order[p];
    var bufs' := bufs[b := bufs[b].(refcnt := bufs[b].refcnt - 1)];
    var o := [b] + Without(order, p);
    forall i, j | 0 <= i < j < |o| && SameKey(bufs'[o[i]], bufs'[o[j]]) ensures !Live(bufs'[o[j]]) {
      MovedPlace(order, p, i);
      MovedPlace(order, p, j);
    }
  }

  function OldPlace(p: nat, i: nat): nat { if i == 0 then p else if i <= p then i - 1 else i }

  lemma MovedPlace(order: seq<nat>, p: nat, i: nat)
    requires p < |order| && i < |order|
    ensures ([order[p]] + Without(order, p))[i] == order[OldPlace(p, i)]
  {}
}
