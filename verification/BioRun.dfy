/** Whole runs of the buffer cache on one device: to its clients it is a plain array of blocks. */
module BioRun {
  import opened Arith
  import opened FsDisk
  import opened Bio

  /** Calls of clients; Change is what a holder does to the data of its buffer. */
  datatype Call = Fetch(blockno: nat) | Change(b: nat, data: Block) | Flush(b: nat) | Drop(b: nat)

  /** What the client is told: the buffer and its contents, that no buffer is to be had, that the call
      was carried out, or that it was left out because it breaks the rules for clients. */
  datatype Reply = Got(b: nat, data: Block) | NoBuffer | Done | Refused

  /** What clients know: the array, how often each buffer is held and for which block, and which held
      buffers were changed since they were written. */
  datatype View = View(plain: Disk, holds: seq<nat>, block: seq<nat>, unwritten: set<nat>)

  ghost predicate Held(v: View, b: nat) { b < |v.holds| && b < |v.block| && v.holds[b] > 0 && v.block[b] < |v.plain| }

  ghost predicate HeldFor(v: View, b: nat, k: nat) { Held(v, b) && v.block[b] == k }

  /** The reply to one call and its effect, on a plain array. A block is given out in the buffer that is
      held for it already, if there is one, otherwise in one nobody holds; it is refused exactly when
      all buffers are held, for other blocks. */
  ghost predicate Answers(v: View, call: Call, reply: Reply, v': View) {
    && |v.holds| == NBUF == |v.block|
    && match call
       case Fetch(k) =>
         if k >= |v.plain| then reply == Refused && v' == v
         else if reply == NoBuffer then v' == v && forall c: nat :: c < NBUF ==> Held(v, c) && v.block[c] != k
         else
           && reply.Got? && reply.b < NBUF && reply.data == v.plain[k]
           && (Held(v, reply.b) ==> v.block[reply.b] == k) && (forall c: nat :: HeldFor(v, c, k) ==> c == reply.b)
           && v' == v.(holds := v.holds[reply.b := v.holds[reply.b] + 1], block := v.block[reply.b := k])
       case Change(b, data) =>
         if Held(v, b) then reply == Done && v' == v.(plain := v.plain[v.block[b] := data], unwritten := v.unwritten + {b})
         else reply == Refused && v' == v
       case Flush(b) =>
         if Held(v, b) then reply == Done && v' == v.(unwritten := v.unwritten - {b}) else reply == Refused && v' == v
       case Drop(b) =>
         if Held(v, b) && (v.holds[b] > 1 || b !in v.unwritten) then reply == Done && v' == v.(holds := v.holds[b := v.holds[b] - 1])
         else reply == Refused && v' == v
  }

  /** The replies to all calls, one for each, through the views between them. */
  ghost predicate Answered(calls: seq<Call>, replies: seq<Reply>, views: seq<View>) {
    && |replies| == |calls| && |views| == |calls| + 1
    && forall i :: 0 <= i < |calls| ==> Answers(views[i], calls[i], replies[i], views[i + 1])
  }

  lemma OneMore(calls: seq<Call>, replies: seq<Reply>, views: seq<View>, call: Call, reply: Reply, v: View)
    requires Answered(calls, replies, views) && Answers(views[|calls|], call, reply, v)
    ensures Answered(calls + [call], replies + [reply], views + [v])
  { hide Answers; }

  /** The cache shows the array: its buffers hold it, and where the disk differs there is a held buffer
      that was changed and not written. */
  ghost predicate Shows(bufs: seq<Buf>, disk: Disk, dev: nat, v: View) {
    && |v.plain| == |disk| && |v.holds| == NBUF == |v.block| && |bufs| == NBUF
    && (forall b: nat :: b < NBUF && bufs[b].valid ==>
          bufs[b].dev == dev && bufs[b].blockno < |disk| && bufs[b].data == v.plain[bufs[b].blockno]
          && (b !in v.unwritten ==> bufs[b].data == disk[bufs[b].blockno]))
    && (forall b: nat :: b < NBUF ==> v.holds[b] == bufs[b].refcnt && (bufs[b].refcnt > 0 ==> bufs[b].valid && v.block[b] == bufs[b].blockno))
    && (forall b :: b in v.unwritten ==> b < NBUF && bufs[b].refcnt > 0)
    && (forall k: nat :: k < |disk| && v.plain[k] != disk[k] ==> exists b: nat :: b in v.unwritten && b < NBUF && bufs[b].blockno == k)
  }

  /** The ring facts the steps need. */
  ghost predicate Keys(bufs: seq<Buf>, order: seq<nat>) {
    |bufs| == NBUF && FirstLive(bufs, order) && Covers(order) && forall i :: 0 <= i < |order| ==> order[i] < NBUF
  }

  lemma SeenIsPlain(bufs: seq<Buf>, disk: Disk, order: seq<nat>, dev: nat, v: View, k: nat)
    requires Shows(bufs, disk, dev, v) && Keys(bufs, order) && k < |disk|
    ensures Seen(bufs, disk, dev, k) == v.plain[k]
  {
    hide FirstLive, Covers, Seen;
    assert forall b: nat :: b in v.unwritten ==> StandsFor(bufs, b, dev, bufs[b].blockno);
    if b: nat :| StandsFor(bufs, b, dev, k) {
      SeenIs(bufs, disk, order, b);
    } else {
      NotBuffered(bufs, disk, dev, k);
    }
  }

  /** Held buffers, as the clients and as the cache see them. */
  lemma HeldIs(bufs: seq<Buf>, disk: Disk, dev: nat, v: View, b: nat)
    requires Shows(bufs, disk, dev, v)
    ensures Held(v, b) <==> b < NBUF && bufs[b].refcnt > 0
    ensures Held(v, b) ==> bufs[b].valid && v.block[b] == bufs[b].blockno < |disk| && Keyed(bufs[b], dev, v.block[b])
  {}

  lemma FetchShows(bufs: seq<Buf>, bufs': seq<Buf>, disk: Disk, dev: nat, v: View, b: nat, k: nat)
    requires Shows(bufs, disk, dev, v) && |bufs'| == NBUF && b < NBUF && k < |disk|
    requires Keyed(bufs'[b], dev, k) && bufs'[b].valid && bufs'[b].data == v.plain[k]
    requires Keyed(bufs[b], dev, k) || bufs[b].refcnt == 0
    requires bufs'[b].refcnt == (if Keyed(bufs[b], dev, k) then bufs[b].refcnt else 0) + 1
    requires bufs'[b].data == if Keyed(bufs[b], dev, k) && bufs[b].valid then bufs[b].data else disk[k]
    requires forall c :: 0 <= c < NBUF && c != b ==> bufs'[c] == bufs[c]
    ensures Shows(bufs', disk, dev, v.(holds := v.holds[b := v.holds[b] + 1], block := v.block[b := k]))
  {}

  lemma FetchAnswers(bufs: seq<Buf>, bufs': seq<Buf>, disk: Disk, order: seq<nat>, dev: nat, v: View, b: nat, k: nat)
    requires Shows(bufs, disk, dev, v) && Keys(bufs', order) && b < NBUF && k < |disk|
    requires Keyed(bufs'[b], dev, k) && bufs'[b].valid && bufs'[b].data == v.plain[k]
    requires Keyed(bufs[b], dev, k) || bufs[b].refcnt == 0
    requires forall c :: 0 <= c < NBUF && c != b ==> bufs'[c] == bufs[c]
    ensures |v.holds| == NBUF == |v.block|
    ensures Answers(v, Fetch(k), Got(b, bufs'[b].data), v.(holds := v.holds[b := v.holds[b] + 1], block := v.block[b := k]))
  {
    hide Shows, FirstLive, Covers, Held;
    ShowsLengths(bufs, disk, dev, v);
    HeldIs(bufs, disk, dev, v, b);
    forall c: nat | HeldFor(v, c, k) ensures c == b {
      HeldIs(bufs, disk, dev, v, c);
      if c != b { KeysUnique(bufs', order, b, c); }
    }
  }

  lemma NoBufferAnswers(bufs: seq<Buf>, disk: Disk, dev: nat, v: View, k: nat)
    requires Shows(bufs, disk, dev, v) && k < |disk| && NoKey(bufs, dev, k) && forall c :: 0 <= c < NBUF ==> bufs[c].refcnt != 0
    ensures Answers(v, Fetch(k), NoBuffer, v)
  {
    forall c: nat | c < NBUF ensures Held(v, c) && v.block[c] != k { HeldIs(bufs, disk, dev, v, c); }
  }

  lemma ShowsLengths(bufs: seq<Buf>, disk: Disk, dev: nat, v: View)
    requires Shows(bufs, disk, dev, v)
    ensures |v.plain| == |disk| && |v.holds| == NBUF == |v.block|
  {}

  lemma ChangeShows(bufs: seq<Buf>, disk: Disk, order: seq<nat>, dev: nat, v: View, b: nat, data: Block)
    requires Shows(bufs, disk, dev, v) && Keys(bufs, order) && Held(v, b)
    ensures b < NBUF && bufs[b].refcnt > 0 && bufs[b].valid && |v.holds| == NBUF == |v.block|
    ensures Shows(bufs[b := bufs[b].(data := data)], disk, dev, v.(plain := v.plain[v.block[b] := data], unwritten := v.unwritten + {b}))
  {
    hide FirstLive, Covers;
    var bufs' := bufs[b := bufs[b].(data := data)];
    OneDevice(bufs, order, b);
    forall j: nat | j < |disk| && v.plain[v.block[b] := data][j] != disk[j]
      ensures exists c: nat :: c in v.unwritten + {b} && c < NBUF && bufs'[c].blockno == j
    {
      if j == v.block[b] {
        assert bufs'[b].blockno == j;
      } else {
        var c: nat :| c in v.unwritten && c < NBUF && bufs[c].blockno == j;
        assert bufs'[c].blockno == j;
      }
    }
  }

  lemma FlushShows(bufs: seq<Buf>, disk: Disk, order: seq<nat>, dev: nat, v: View, b: nat)
    requires Shows(bufs, disk, dev, v) && Keys(bufs, order) && Held(v, b)
    ensures b < NBUF && bufs[b].refcnt > 0 && bufs[b].blockno < |disk| && |v.holds| == NBUF == |v.block|
    ensures Shows(bufs, disk[bufs[b].blockno := bufs[b].data], dev, v.(unwritten := v.unwritten - {b}))
  {}

  lemma DropShows(bufs: seq<Buf>, disk: Disk, dev: nat, v: View, b: nat)
    requires Shows(bufs, disk, dev, v) && Held(v, b) && (v.holds[b] > 1 || b !in v.unwritten)
    ensures b < NBUF && bufs[b].refcnt > 0 && |v.holds| == NBUF == |v.block|
    ensures Shows(bufs[b := bufs[b].(refcnt := bufs[b].refcnt - 1)], disk, dev, v.(holds := v.holds[b := v.holds[b] - 1]))
  {}

  lemma ValidKeys(cache: Cache)
    requires cache.Valid()
    ensures Keys(cache.bufs, cache.order)
  {}

  /** One call, by a client that keeps the rules: it changes and writes only buffers it holds and does
      not give up the last hold on one before writing its change. Other calls, and those that name a
      block past the disk, are left out. */
  method Serve(cache: Cache, dev: nat, unwritten: set<nat>, call: Call, ghost v: View) returns (reply: Reply, now: set<nat>, ghost v': View)
    requires cache.Valid() && Shows(cache.bufs, cache.disk, dev, v) && unwritten == v.unwritten
    modifies cache
    ensures cache.Valid() && |cache.disk| == |old(cache.disk)| && Shows(cache.bufs, cache.disk, dev, v') && now == v'.unwritten
    ensures Answers(v, call, reply, v')
  {
    hide Keys, Shows, Seen, Clean, StandsFor, Held;
    ValidKeys(cache);
    ShowsLengths(cache.bufs, cache.disk, dev, v);
    ghost var bufs, order := cache.bufs, cache.order;
    reply, now, v' := Refused, unwritten, v;
    match call {
      case Fetch(k) =>
        if k < |cache.disk| {
          var b := cache.Read(dev, k);
          if b == HEAD {
            NoBufferAnswers(bufs, cache.disk, dev, v, k);
            return NoBuffer, unwritten, v;
          }
          ValidKeys(cache);
          SeenIsPlain(bufs, cache.disk, order, dev, v, k);
          FetchShows(bufs, cache.bufs, cache.disk, dev, v, b, k);
          FetchAnswers(bufs, cache.bufs, cache.disk, cache.order, dev, v, b, k);
          v' := v.(holds := v.holds[b := v.holds[b] + 1], block := v.block[b := k]);
          reply := Got(b, cache.bufs[b].data);
        }
      case Change(b, data) =>
        HeldIs(cache.bufs, cache.disk, dev, v, b);
        if b < NBUF && cache.bufs[b].refcnt > 0 {
          ChangeShows(bufs, cache.disk, order, dev, v, b, data);
          cache.Modify(b, data);
          v' := v.(plain := v.plain[v.block[b] := data], unwritten := v.unwritten + {b});
          reply, now := Done, unwritten + {b};
        }
      case Flush(b) =>
        HeldIs(cache.bufs, cache.disk, dev, v, b);
        if b < NBUF && cache.bufs[b].refcnt > 0 {
          FlushShows(bufs, cache.disk, order, dev, v, b);
          cache.Write(b);
          v' := v.(unwritten := v.unwritten - {b});
          reply, now := Done, unwritten - {b};
        }
      case Drop(b) =>
        HeldIs(cache.bufs, cache.disk, dev, v, b);
        if b < NBUF && cache.bufs[b].refcnt > 0 {
          HoldsIs(cache.bufs, cache.disk, dev, v, b);
          if cache.bufs[b].refcnt > 1 || b !in unwritten {
            DropShows(bufs, cache.disk, dev, v, b);
            cache.Release(b);
            v' := v.(holds := v.holds[b := v.holds[b] - 1]);
            reply := Done;
          }
        }
    }
  }

  lemma HoldsIs(bufs: seq<Buf>, disk: Disk, dev: nat, v: View, b: nat)
    requires Shows(bufs, disk, dev, v) && b < NBUF
    ensures |v.holds| == NBUF && v.holds[b] == bufs[b].refcnt
  {}

  /** Any sequence of calls on one device after bio_init. There is one reply to each call, and all are those
      of a plain array that starts as the disk. Afterwards readers are shown that array, and the disk holds it
      but for blocks whose change was not written yet; once nobody holds a buffer there are none. */
  method Run(cache: Cache, dev: nat, calls: seq<Call>) returns (replies: seq<Reply>, ghost views: seq<View>)
    requires cache.Valid() && forall b :: 0 <= b < NBUF ==> !Live(cache.bufs[b])
    modifies cache
    ensures cache.Valid() && Answered(calls, replies, views) && views[0] == View(old(cache.disk), seq(NBUF, _ => 0), seq(NBUF, _ => 0), {})
    ensures var v := views[|calls|];
            && |cache.disk| == |v.plain| && |v.holds| == NBUF == |v.block|
            && (forall k: nat :: k < |cache.disk| ==> Seen(cache.bufs, cache.disk, dev, k) == v.plain[k])
            && (forall k: nat :: k < |cache.disk| && cache.disk[k] != v.plain[k] ==> exists b: nat :: b in v.unwritten && HeldFor(v, b, k))
            && ((forall b :: 0 <= b < NBUF ==> v.holds[b] == 0) ==> cache.disk == v.plain)
  {
    hide Keys, Shows, Seen, Answers, Answered, Clean, StandsFor;
    ghost var v := View(cache.disk, seq(NBUF, _ => 0), seq(NBUF, _ => 0), {});
    var unwritten := {};
    replies, views := [], [v];
    StartShows(cache.bufs, cache.disk, dev, v);
    var i := 0;
    while i < |calls|
      invariant i <= |calls| && cache.Valid() && Answered(calls[..i], replies, views) && |views| == i + 1
      invariant views[0] == View(old(cache.disk), seq(NBUF, _ => 0), seq(NBUF, _ => 0), {}) && views[i] == v
      invariant Shows(cache.bufs, cache.disk, dev, v) && unwritten == v.unwritten
    {
      ghost var v0 := v;
      var reply;
      reply, unwritten, v := Serve(cache, dev, unwritten, calls[i], v0);
      OneMore(calls[..i], replies, views, calls[i], reply, v);
      assert calls[..i] + [calls[i]] == calls[..i + 1];
      replies, views := replies + [reply], views + [v];
      i := i + 1;
    }
    assert calls[..i] == calls;
    ValidKeys(cache);
    ShowsLengths(cache.bufs, cache.disk, dev, v);
    forall k: nat | k < |cache.disk| ensures Seen(cache.bufs, cache.disk, dev, k) == v.plain[k] {
      SeenIsPlain(cache.bufs, cache.disk, cache.order, dev, v, k);
    }
    Unwritten(cache.bufs, cache.disk, dev, v);
    ViewsLength(calls, replies, views);
  }

  lemma ViewsLength(calls: seq<Call>, replies: seq<Reply>, views: seq<View>)
    requires Answered(calls, replies, views)
    ensures |views| == |calls| + 1
  {}

  lemma StartShows(bufs: seq<Buf>, disk: Disk, dev: nat, v: View)
    requires |bufs| == NBUF && forall b :: 0 <= b < NBUF ==> !Live(bufs[b])
    requires v == View(disk, seq(NBUF, _ => 0), seq(NBUF, _ => 0), {})
    ensures Answered([], [], [v]) && Shows(bufs, disk, dev, v)
  {}

  lemma Unwritten(bufs: seq<Buf>, disk: Disk, dev: nat, v: View)
    requires Shows(bufs, disk, dev, v)
    ensures |v.plain| == |disk| && |v.holds| == NBUF
    ensures forall k: nat :: k < |disk| && disk[k] != v.plain[k] ==> exists b: nat :: b in v.unwritten && HeldFor(v, b, k)
    ensures (forall b :: 0 <= b < NBUF ==> v.holds[b] == 0) ==> disk == v.plain
  {
    forall k: nat | k < |disk| && disk[k] != v.plain[k] ensures exists b: nat :: b in v.unwritten && HeldFor(v, b, k) {
      var b: nat :| b in v.unwritten && b < NBUF && bufs[b].blockno == k;
      assert HeldFor(v, b, k);
    }
  }
}
