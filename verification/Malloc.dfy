/** The user heap: first fit over a free list of block headers, growing by sbrk. Sizes are 64-bit. */
module Malloc {
  import opened Arith

  const TWO64: nat := 0x1_0000_0000_0000_0000
  const TWO63: int := 0x8000_0000_0000_0000
  const HEADER: nat := 32
  const MINALLOC: nat := 16

  /** Every page of the heap is backed by a physical page, so the break stays below this. */
  const LIMIT: nat := 0x1_0000_0000_0000

  datatype Header = Header(size: nat, next: nat, isFree: bool)

  type Headers = map<nat, Header>

  /** ALIGN_UP, with the addition wrapping. */
  function AlignUp(x: nat): nat { (x + 15) % TWO64 / 16 * 16 }

  /** The block size used for a request. */
  function Rounded(x: nat): nat { if AlignUp(x) < MINALLOC then MINALLOC else AlignUp(x) }

  /** The same without wrapping. */
  function Ideal(x: nat): nat { if x <= 16 then 16 else (x + 15) / 16 * 16 }

  /** Requests the allocator serves properly: the block with its header is a positive long, or so large
      that adding it to the break is refused. */
  predicate Sane(request: nat, brk: nat) { Ideal(request) + HEADER < TWO63 || Ideal(request) + HEADER + brk < TWO64 }

  lemma RoundedIs(x: nat)
    requires 0 < x < TWO64
    ensures Rounded(x) % 16 == 0 && Rounded(x) >= 16 && Rounded(x) < TWO64
    ensures x + 15 < TWO64 ==> Rounded(x) == Ideal(x) && x <= Rounded(x) < x + 16
    ensures x + 15 >= TWO64 ==> Rounded(x) == 16 && Ideal(x) == TWO64
  {}

  /** What sbrk is asked for: the block with its header, the sum wrapping and read as a signed number. */
  function Growth(request: nat): int {
    var n := (HEADER + Rounded(request)) % TWO64;
    if n >= TWO63 then n - TWO64 else n
  }

  /** When sbrk refuses to move the break by n: a shrink past zero, or growth without pages. */
  predicate Refused(brk: nat, n: int, grant: bool) { (n < 0 && brk + n < 0) || (n > 0 && (!grant || brk + n > LIMIT)) }

  /** Sane growth is refused exactly when there is no room, and otherwise takes the block and its header. */
  lemma SaneGrowth(request: nat, brk: nat, grant: bool)
    requires 0 < request < TWO64 && brk <= LIMIT && Sane(request, brk)
    ensures Refused(brk, Growth(request), grant) <==> !grant || brk + HEADER + Rounded(request) > LIMIT
    ensures !Refused(brk, Growth(request), grant) ==> Growth(request) == HEADER + Rounded(request)
  {}

  /** An insane request is never told that there is no room while there is room for 48 bytes: it gets a
      block that is too small. */
  lemma InsaneServed(request: nat, brk: nat)
    requires 0 < request < TWO64 && brk + 48 <= LIMIT && !Sane(request, brk)
    ensures !Refused(brk, Growth(request), true) && Growth(request) <= 48
  {}

  /** The largest request at a break of 4096 is served 16 bytes; one that makes the sum negative moves the
      break down. */
  lemma InsaneRequests()
    ensures !Sane(TWO64 - 1, 4096) && Rounded(TWO64 - 1) == 16 && Growth(TWO64 - 1) == 48
    ensures !Sane(TWO64 - 2048, 4096) && Growth(TWO64 - 2048) == -2016 && !Refused(4096, -2016, false)
  {}

  /** Exactly which requests these are. */
  lemma SaneMeans(request: nat, brk: nat)
    requires 0 < request < TWO64 && brk % 16 == 0
    ensures Sane(request, brk) <==> request <= TWO63 - 48 || request + brk <= TWO64 - 48
  {}

  // ---------- Layout ----------

  function End(hs: Headers, a: nat): nat
    requires a in hs
  { a + HEADER + hs[a].size }

  predicate BlockOk(hs: Headers, base: nat, brk: nat, a: nat)
    requires a in hs
  { base <= a && a % 16 == 0 && hs[a].size % 16 == 0 && hs[a].size >= MINALLOC && End(hs, a) <= brk }

  /** Blocks are aligned, inside the heap, and do not overlap. */
  ghost predicate Laid(hs: Headers, base: nat, brk: nat) {
    && (forall a :: a in hs ==> BlockOk(hs, base, brk, a))
    && (forall a, b :: a in hs && b in hs && a < b ==> End(hs, a) <= b)
  }

  /** Each block ends where the next begins, or at the break: the blocks fill the heap. */
  ghost predicate Tiled(hs: Headers, base: nat, brk: nat) {
    && (base == brk || base in hs)
    && forall a :: a in hs ==> End(hs, a) == brk || End(hs, a) in hs
  }

  /** With the layout, filling means every address of the heap is in exactly one block. */
  lemma {:induction false} TiledCovers(hs: Headers, base: nat, brk: nat, x: nat, a: nat) returns (b: nat)
    requires Laid(hs, base, brk) && Tiled(hs, base, brk) && a <= x < brk && (a == base || a in hs) && base <= a
    ensures b in hs && b <= x < End(hs, b)
    ensures forall c :: c in hs && c <= x < End(hs, c) ==> c == b
    decreases brk - a
  {
    assert a in hs;
    assert BlockOk(hs, base, brk, a);
    if x < End(hs, a) { b := a; } else { b := TiledCovers(hs, base, brk, x, End(hs, a)); }
  }

  // ---------- The free list ----------

  function At(fl: seq<nat>, i: nat): nat { if i < |fl| then fl[i] else 0 }

  predicate Link(hs: Headers, fl: seq<nat>, i: nat)
    requires i < |fl|
  { fl[i] in hs && hs[fl[i]].next == At(fl, i + 1) }

  ghost predicate Chained(hs: Headers, head: nat, fl: seq<nat>) {
    && head == At(fl, 0) && 0 !in hs
    && (forall i :: 0 <= i < |fl| ==> fl[i] in hs) && (forall i :: 0 <= i < |fl| ==> Link(hs, fl, i))
    && (forall i, j :: 0 <= i < j < |fl| ==> fl[i] != fl[j])
    && (forall a :: a in hs ==> (hs[a].isFree <==> a in fl))
  }

  /** The first block of the list that is large enough, |fl| if none. */
  function FirstFit(hs: Headers, fl: seq<nat>, size: nat): (p: nat)
    ensures p <= |fl| && (p < |fl| ==> Fits(hs, fl[p], size)) && forall i :: 0 <= i < p ==> !Fits(hs, fl[i], size)
  { if fl == [] || Fits(hs, fl[0], size) then 0 else 1 + FirstFit(hs, fl[1..], size) }

  predicate Fits(hs: Headers, a: nat, size: nat) { a in hs && hs[a].size >= size }

  lemma {:induction false} FirstFitIs(hs: Headers, fl: seq<nat>, size: nat, p: nat)
    requires p <= |fl| && (forall i :: 0 <= i < p ==> !Fits(hs, fl[i], size)) && (p < |fl| ==> Fits(hs, fl[p], size))
    ensures FirstFit(hs, fl, size) == p
  {}

  /** The part of curr past the request becomes a block of its own, next in the list. */
  function Split(hs: Headers, a: nat, size: nat): Headers
    requires a in hs && hs[a].size >= size + HEADER
  {
    hs[a + HEADER + size := Header(hs[a].size - size - HEADER, hs[a].next, true)][a := Header(size, a + HEADER + size, true)]
  }

  lemma BlockAt(hs: Headers, base: nat, brk: nat, a: nat)
    requires Laid(hs, base, brk) && a in hs
    ensures BlockOk(hs, base, brk, a)
  {}

  lemma SplitIsNew(hs: Headers, base: nat, brk: nat, a: nat, size: nat)
    requires Laid(hs, base, brk) && a in hs && hs[a].size >= size + HEADER + MINALLOC
    ensures a + HEADER + size !in hs
  {}

  lemma SplitBlock(hs: Headers, base: nat, brk: nat, a: nat, size: nat, b: nat)
    requires Laid(hs, base, brk) && a in hs && hs[a].size >= size + HEADER + MINALLOC && size % 16 == 0 && size >= 16
    requires a + HEADER + size !in hs && b in Split(hs, a, size)
    ensures BlockOk(Split(hs, a, size), base, brk, b)
  {
    hide Laid;
    BlockAt(hs, base, brk, a);
    if b in hs { BlockAt(hs, base, brk, b); }
  }

  lemma SplitApart(hs: Headers, base: nat, brk: nat, a: nat, size: nat, b: nat, c: nat)
    requires Laid(hs, base, brk) && a in hs && hs[a].size >= size + HEADER + MINALLOC
    requires a + HEADER + size !in hs && b in Split(hs, a, size) && c in Split(hs, a, size) && b < c
    ensures End(Split(hs, a, size), b) <= c
  {}

  lemma SplitLaid(hs: Headers, base: nat, brk: nat, a: nat, size: nat)
    requires Laid(hs, base, brk) && a in hs && hs[a].size >= size + HEADER + MINALLOC && size % 16 == 0 && size >= 16
    ensures a + HEADER + size !in hs && Laid(Split(hs, a, size), base, brk)
    ensures Tiled(hs, base, brk) ==> Tiled(Split(hs, a, size), base, brk)
  {
    SplitIsNew(hs, base, brk, a, size);
    if Tiled(hs, base, brk) { SplitTiled(hs, base, brk, a, size); }
    assert Laid(Split(hs, a, size), base, brk) by {
      hide Split, BlockOk, End;
      var h := Split(hs, a, size);
      forall b | b in h ensures BlockOk(h, base, brk, b) { SplitBlock(hs, base, brk, a, size, b); }
      forall b, c | b in h && c in h && b < c ensures End(h, b) <= c { SplitApart(hs, base, brk, a, size, b, c); }
    }
  }

  lemma SplitTiled(hs: Headers, base: nat, brk: nat, a: nat, size: nat)
    requires a in hs && hs[a].size >= size + HEADER && a + HEADER + size !in hs && Tiled(hs, base, brk)
    ensures Tiled(Split(hs, a, size), base, brk)
  {
    var h, n := Split(hs, a, size), a + HEADER + size;
    forall b | b in h ensures End(h, b) == brk || End(h, b) in h {
      if b == n { assert End(h, n) == End(hs, a); } else if b != a { assert End(h, b) == End(hs, b); }
    }
  }

  function Inserted(fl: seq<nat>, p: nat, n: nat): seq<nat>
    requires p < |fl|
  { fl[..p + 1] + [n] + fl[p + 1..] }

  lemma SplitChained(hs: Headers, head: nat, fl: seq<nat>, p: nat, size: nat)
    requires Chained(hs, head, fl) && p < |fl| && hs[fl[p]].size >= size + HEADER && fl[p] + HEADER + size !in hs
    ensures Chained(Split(hs, fl[p], size), head, Inserted(fl, p, fl[p] + HEADER + size))
  {
    var n := fl[p] + HEADER + size;
    var g := Inserted(fl, p, n);
    var h := Split(hs, fl[p], size);
    SplitMarks(hs, fl, p, size);
    forall i | 0 <= i < |g| ensures Link(h, g, i) { InsertedLink(hs, fl, p, size, i); }
    forall i, j | 0 <= i < j < |g| ensures g[i] != g[j] { InsertedApart(hs, fl, p, n, i, j); }
  }

  lemma InsertedLink(hs: Headers, fl: seq<nat>, p: nat, size: nat, i: nat)
    requires p < |fl| && (forall j :: 0 <= j < |fl| ==> Link(hs, fl, j)) && (forall j, k :: 0 <= j < k < |fl| ==> fl[j] != fl[k]) && i <= |fl|
    requires fl[p] in hs && hs[fl[p]].size >= size + HEADER && fl[p] + HEADER + size !in hs
    ensures Link(Split(hs, fl[p], size), Inserted(fl, p, fl[p] + HEADER + size), i)
  {
    var o := if i <= p then i else i - 1;
    assert Link(hs, fl, o) && Link(hs, fl, p);
    if o != p { assert fl[o] != fl[p]; }
  }

  lemma InsertedApart(hs: Headers, fl: seq<nat>, p: nat, n: nat, i: nat, j: nat)
    requires p < |fl| && n !in hs && (forall k :: 0 <= k < |fl| ==> Link(hs, fl, k)) && (forall k, l :: 0 <= k < l < |fl| ==> fl[k] != fl[l])
    requires i < j <= |fl|
    ensures Inserted(fl, p, n)[i] != Inserted(fl, p, n)[j]
  {
    var x, y := if i <= p then i else i - 1, if j <= p then j else j - 1;
    assert Link(hs, fl, x) && Link(hs, fl, y);
  }

  lemma SplitMarks(hs: Headers, fl: seq<nat>, p: nat, size: nat)
    requires p < |fl| && fl[p] in hs && hs[fl[p]].size >= size + HEADER && fl[p] + HEADER + size !in hs
    requires forall a :: a in hs ==> (hs[a].isFree <==> a in fl)
    ensures forall a :: a in Split(hs, fl[p], size) ==> (Split(hs, fl[p], size)[a].isFree <==> a in Inserted(fl, p, fl[p] + HEADER + size))
  {}

  /** Unlinking block p of the list and marking it live. */
  function Unlinked(hs: Headers, prev: nat, a: nat): Headers
    requires a in hs
  {
    var h := if prev in hs then hs[prev := hs[prev].(next := hs[a].next)] else hs;
    h[a := h[a].(isFree := false, next := 0)]
  }

  function Removed(fl: seq<nat>, p: nat): seq<nat>
    requires p < |fl|
  { fl[..p] + fl[p + 1..] }

  lemma UnlinkChained(hs: Headers, head: nat, fl: seq<nat>, p: nat)
    requires Chained(hs, head, fl) && p < |fl|
    ensures Chained(Unlinked(hs, if p == 0 then 0 else fl[p - 1], fl[p]), if p == 0 then hs[fl[p]].next else head, Removed(fl, p))
  {
    var prev := if p == 0 then 0 else fl[p - 1];
    var g := Removed(fl, p);
    var h := Unlinked(hs, prev, fl[p]);
    assert Link(hs, fl, p);
    if p > 0 { assert Link(hs, fl, p - 1); }
    forall i | 0 <= i < |g| ensures Link(h, g, i) { RemovedLink(hs, fl, p, i); }
    UnlinkMarks(hs, fl, p, prev);
  }

  lemma RemovedLink(hs: Headers, fl: seq<nat>, p: nat, i: nat)
    requires p < |fl| && (forall j :: 0 <= j < |fl| ==> Link(hs, fl, j)) && (forall j, k :: 0 <= j < k < |fl| ==> fl[j] != fl[k]) && i < |fl| - 1
    requires fl[p] in hs && 0 !in hs
    ensures Link(Unlinked(hs, if p == 0 then 0 else fl[p - 1], fl[p]), Removed(fl, p), i)
  {
    var o := if i < p then i else i + 1;
    assert Link(hs, fl, o) && Link(hs, fl, p) && fl[o] != fl[p];
    if p > 0 && o != p - 1 { assert fl[o] != fl[p - 1]; }
  }

  lemma UnlinkMarks(hs: Headers, fl: seq<nat>, p: nat, prev: nat)
    requires p < |fl| && fl[p] in hs && (forall a :: a in hs ==> (hs[a].isFree <==> a in fl)) && (forall i, j :: 0 <= i < j < |fl| ==> fl[i] != fl[j])
    ensures forall a :: a in Unlinked(hs, prev, fl[p]) ==> (Unlinked(hs, prev, fl[p])[a].isFree <==> a in Removed(fl, p))
  {}

  lemma SameLayout(hs: Headers, h: Headers, base: nat, brk: nat)
    requires h.Keys == hs.Keys && forall a :: a in hs ==> h[a].size == hs[a].size
    ensures Laid(hs, base, brk) ==> Laid(h, base, brk)
    ensures Tiled(hs, base, brk) ==> Tiled(h, base, brk)
  {
    if Laid(hs, base, brk) {
      forall a | a in h ensures BlockOk(h, base, brk, a) { assert a in hs.Keys && BlockOk(hs, base, brk, a); }
    }
    if Tiled(hs, base, brk) {
      forall a | a in h ensures End(h, a) == brk || End(h, a) in h { assert a in hs.Keys && End(h, a) == End(hs, a); }
    }
  }

  /** A block at the old break after the heap grew by exactly that block. */
  lemma Grows(hs: Headers, head: nat, fl: seq<nat>, base: nat, brk: nat, size: nat)
    requires Laid(hs, base, brk) && Chained(hs, head, fl) && base <= brk && 0 < brk && brk % 16 == 0 && size % 16 == 0 && size >= 16
    ensures brk !in hs && Laid(hs[brk := Header(size, 0, false)], base, brk + HEADER + size)
    ensures Chained(hs[brk := Header(size, 0, false)], head, fl)
    ensures Tiled(hs, base, brk) ==> Tiled(hs[brk := Header(size, 0, false)], base, brk + HEADER + size)
  {
    hide Laid, Tiled, Chained;
    if brk in hs { BlockAt(hs, base, brk, brk); }
    GrowsLaid(hs, base, brk, size);
    GrowsChained(hs, head, fl, brk, size);
    GrowsTiled(hs, base, brk, size);
  }

  lemma GrowsLaid(hs: Headers, base: nat, brk: nat, size: nat)
    requires Laid(hs, base, brk) && base <= brk && brk !in hs && brk % 16 == 0 && size % 16 == 0 && size >= 16
    ensures Laid(hs[brk := Header(size, 0, false)], base, brk + HEADER + size)
  {}

  lemma GrowsChained(hs: Headers, head: nat, fl: seq<nat>, brk: nat, size: nat)
    requires Chained(hs, head, fl) && brk !in hs && brk > 0
    ensures Chained(hs[brk := Header(size, 0, false)], head, fl)
  {
    var h := hs[brk := Header(size, 0, false)];
    forall i | 0 <= i < |fl| ensures Link(h, fl, i) { assert Link(hs, fl, i); }
  }

  lemma GrowsTiled(hs: Headers, base: nat, brk: nat, size: nat)
    requires brk !in hs
    ensures Tiled(hs, base, brk) ==> Tiled(hs[brk := Header(size, 0, false)], base, brk + HEADER + size)
  {
    var h := hs[brk := Header(size, 0, false)];
    forall a | Tiled(hs, base, brk) && a in h ensures End(h, a) == brk + HEADER + size || End(h, a) in h {
      if a in hs { assert End(h, a) == End(hs, a); }
    }
  }

  /** Live blocks except one keep their place, size and bytes. */
  ghost predicate Undisturbed(hs: Headers, m: seq<Byte>, h: Headers, m2: seq<Byte>, except: nat) {
    forall a :: a in hs && !hs[a].isFree && a != except ==>
      a in h && !h[a].isFree && h[a].size == hs[a].size && SamePayload(hs, m, m2, a)
  }

  ghost predicate SamePayload(hs: Headers, m: seq<Byte>, m2: seq<Byte>, a: nat)
    requires a in hs
  { End(hs, a) <= |m| && End(hs, a) <= |m2| && forall i: nat :: a + HEADER <= i < End(hs, a) ==> m2[i] == m[i] }

  /** The heap as a whole. */
  ghost predicate HeapOk(hs: Headers, head: nat, fl: seq<nat>, base: nat, brk: nat, mem: seq<Byte>) {
    && Laid(hs, base, brk) && Chained(hs, head, fl) && 0 < base <= brk <= LIMIT && brk % 16 == 0 && |mem| == brk
  }

  /** Taking block p of the list, split if it is large enough. */
  function Taken(hs: Headers, prev: nat, a: nat, size: nat): Headers
    requires a in hs && hs[a].size >= size
  { if hs[a].size >= size + HEADER + MINALLOC then Unlinked(Split(hs, a, size), prev, a) else Unlinked(hs, prev, a) }

  /** Taking a block from the list keeps the heap and every live block. */
  lemma TakenKeeps(hs: Headers, head: nat, fl: seq<nat>, base: nat, brk: nat, mem: seq<Byte>, p: nat, size: nat)
    requires HeapOk(hs, head, fl, base, brk, mem) && p < |fl| && fl[p] in hs && hs[fl[p]].size >= size && size % 16 == 0 && size >= 16
    ensures var a, prev := fl[p], if p == 0 then 0 else fl[p - 1];
            var split := hs[a].size >= size + HEADER + MINALLOC;
            var l := if split then Inserted(fl, p, a + HEADER + size) else fl;
            var h := Taken(hs, prev, a, size);
            && p < |l| && l[p] == a && (p > 0 ==> l[p - 1] == prev)
            && HeapOk(h, if p == 0 then (if split then a + HEADER + size else hs[a].next) else head, Removed(l, p), base, brk, mem)
            && hs[a].isFree && a in h && !h[a].isFree && h[a].size >= size && (Tiled(hs, base, brk) ==> Tiled(h, base, brk))
            && Undisturbed(hs, mem, h, mem, 0) && hs.Keys <= h.Keys
  {
    hide Laid, Chained, Tiled, Undisturbed, Unlinked, Removed;
    var a, prev := fl[p], if p == 0 then 0 else fl[p - 1];
    ListedFree(hs, head, fl, p);
    BlockAt(hs, base, brk, a);
    if hs[a].size >= size + HEADER + MINALLOC {
      SplitLaid(hs, base, brk, a, size);
      SplitChained(hs, head, fl, p, size);
      var h, l := Split(hs, a, size), Inserted(fl, p, a + HEADER + size);
      UnlinkChained(h, head, l, p);
      UnlinkSizes(h, prev, a);
      SameLayout(h, Unlinked(h, prev, a), base, brk);
      TakenLive(hs, base, brk, mem, a, size, prev, h);
    } else {
      UnlinkChained(hs, head, fl, p);
      UnlinkSizes(hs, prev, a);
      SameLayout(hs, Unlinked(hs, prev, a), base, brk);
      TakenLive(hs, base, brk, mem, a, size, prev, hs);
    }
  }

  /** Block a was taken for a block size: cut down to it when the rest can hold a block, which becomes
      a free block of its own; the size and state of every other block stay. */
  ghost predicate Took(hs: Headers, h: Headers, a: nat, size: nat) {
    && a in hs && a in h && !h[a].isFree
    && (forall b :: b in hs && b != a ==> b in h && h[b].size == hs[b].size && h[b].isFree == hs[b].isFree)
    && if hs[a].size >= size + 48 then
         var n := a + 32 + size;
         && h[a].size == size && n !in hs && n in h && h[n].isFree && h[n].size == hs[a].size - size - 32
         && h.Keys == hs.Keys + {n}
       else h[a].size == hs[a].size && h.Keys == hs.Keys
  }

  lemma TakenTook(hs: Headers, base: nat, brk: nat, prev: nat, a: nat, size: nat)
    requires Laid(hs, base, brk) && a in hs && hs[a].size >= size && prev != a && (prev == 0 || prev in hs)
    ensures Took(hs, Taken(hs, prev, a, size), a, size)
  {
    hide Laid, Unlinked, Split;
    if hs[a].size >= size + HEADER + MINALLOC {
      SplitIsNew(hs, base, brk, a, size);
      SplitSizes(hs, a, size);
      UnlinkSizes(Split(hs, a, size), prev, a);
    } else {
      UnlinkSizes(hs, prev, a);
    }
  }

  lemma SplitSizes(hs: Headers, a: nat, size: nat)
    requires a in hs && hs[a].size >= size + HEADER && a + HEADER + size !in hs
    ensures var h, n := Split(hs, a, size), a + HEADER + size;
            && h.Keys == hs.Keys + {n} && h[a].size == size && h[n].isFree && h[n].size == hs[a].size - size - HEADER
            && forall b :: b in hs && b != a ==> h[b] == hs[b]
  {}

  lemma RemovedIs(fl: seq<nat>, i: nat, n: nat)
    requires i < |fl|
    ensures Removed(fl, i) == fl[..i] + [] + fl[i + 1..] && Removed(Inserted(fl, i, n), i) == fl[..i] + [n] + fl[i + 1..]
  {}

  lemma ListedFree(hs: Headers, head: nat, fl: seq<nat>, p: nat)
    requires Chained(hs, head, fl) && p < |fl|
    ensures fl[p] in hs && hs[fl[p]].isFree && fl[p] != 0
    ensures p > 0 ==> fl[p - 1] in hs && hs[fl[p - 1]].isFree && fl[p - 1] != fl[p]
  {}

  lemma UnlinkSizes(hs: Headers, prev: nat, a: nat)
    requires a in hs
    ensures var h := Unlinked(hs, prev, a);
            h.Keys == hs.Keys && !h[a].isFree && (forall b :: b in hs ==> h[b].size == hs[b].size)
            && forall b :: b in hs && b != a ==> h[b].isFree == hs[b].isFree
  {}

  lemma TakenLive(hs: Headers, base: nat, brk: nat, mem: seq<Byte>, a: nat, size: nat, prev: nat, h: Headers)
    requires Laid(hs, base, brk) && a in hs && a in h && hs[a].isFree && |mem| == brk
    requires forall b :: b in hs && b != a ==> b in h && h[b] == hs[b]
    ensures Undisturbed(hs, mem, Unlinked(h, prev, a), mem, 0)
  {}

  lemma HeadIs(hs: Headers, head: nat, fl: seq<nat>)
    requires Chained(hs, head, fl)
    ensures head == At(fl, 0)
  {}

  lemma NextIs(hs: Headers, head: nat, fl: seq<nat>, i: nat)
    requires Chained(hs, head, fl) && i < |fl|
    ensures fl[i] in hs && hs[fl[i]].next == At(fl, i + 1)
  { assert Link(hs, fl, i); }

  lemma AtEnd(hs: Headers, head: nat, fl: seq<nat>, i: nat)
    requires Chained(hs, head, fl) && i <= |fl| && At(fl, i) == 0
    ensures i == |fl|
  {}

  /** A live block with room for a sane request holds all of it; no block holds an insane one. */
  lemma SaneFit(hs: Headers, base: nat, brk: nat, a: nat, request: nat, brk0: nat)
    requires Laid(hs, base, brk) && a in hs && 0 < request < TWO64 && hs[a].size >= Rounded(request) && brk <= LIMIT && brk0 <= LIMIT
    ensures Sane(request, brk0) <==> a + HEADER + request <= brk
    ensures Sane(request, brk0) ==> hs[a].size >= request && (a + HEADER) % 16 == 0
  {
    hide Laid;
    BlockAt(hs, base, brk, a);
    RoundedIs(request);
    SaneBound(request, brk0);
  }

  lemma SaneBound(request: nat, brk: nat)
    requires 0 < request < TWO64 && brk <= LIMIT
    ensures Sane(request, brk) ==> Rounded(request) == Ideal(request) >= request
    ensures !Sane(request, brk) ==> request > LIMIT
  {}

  /** A fresh block at the break disturbs nobody. */
  lemma GrownLive(hs: Headers, base: nat, brk: nat, m: seq<Byte>, m2: seq<Byte>, size: nat)
    requires Laid(hs, base, brk) && brk !in hs && |m| == brk <= |m2| && forall i :: 0 <= i < brk ==> m2[i] == m[i]
    ensures Undisturbed(hs, m, hs[brk := Header(size, 0, false)], m2, 0)
  {}

  lemma FreedKeeps(hs: Headers, head: nat, fl: seq<nat>, base: nat, brk: nat, mem: seq<Byte>, a: nat)
    requires HeapOk(hs, head, fl, base, brk, mem) && a in hs && !hs[a].isFree
    ensures var h := hs[a := Header(hs[a].size, head, true)];
            HeapOk(h, a, [a] + fl, base, brk, mem) && Undisturbed(hs, mem, h, mem, a) && (Tiled(hs, base, brk) ==> Tiled(h, base, brk))
  {
    hide Laid, Tiled, Chained;
    var h := hs[a := Header(hs[a].size, head, true)];
    SameLayout(hs, h, base, brk);
    FreedChained(hs, head, fl, a);
    forall b | b in hs && !hs[b].isFree ensures SamePayload(hs, mem, mem, b) { BlockAt(hs, base, brk, b); }
  }

  lemma FreedChained(hs: Headers, head: nat, fl: seq<nat>, a: nat)
    requires Chained(hs, head, fl) && a in hs && !hs[a].isFree
    ensures Chained(hs[a := Header(hs[a].size, head, true)], a, [a] + fl)
  {
    var h, g := hs[a := Header(hs[a].size, head, true)], [a] + fl;
    forall i | 0 <= i < |g| ensures Link(h, g, i) {
      if i > 0 { assert Link(hs, fl, i - 1) && g[i] == fl[i - 1] && fl[i - 1] in fl && At(g, i + 1) == At(fl, i); }
    }
    forall b | b in h ensures h[b].isFree <==> b in g { assert g[0] == a; assert b in fl ==> b in g; }
  }

  /** Giving up the tail of a block leaves a gap, but nothing else changes. */
  lemma ShrunkKeeps(hs: Headers, head: nat, fl: seq<nat>, base: nat, brk: nat, mem: seq<Byte>, a: nat, size: nat)
    requires HeapOk(hs, head, fl, base, brk, mem) && a in hs && !hs[a].isFree && size <= hs[a].size && size % 16 == 0 && size >= 16
    ensures var h := hs[a := hs[a].(size := size)];
            HeapOk(h, head, fl, base, brk, mem) && Undisturbed(hs, mem, h, mem, a)
            && (Tiled(hs, base, brk) && size == hs[a].size ==> Tiled(h, base, brk))
  {
    hide Laid, Tiled, Chained;
    var h := hs[a := hs[a].(size := size)];
    assert size == hs[a].size ==> h == hs;
    ShrunkLaid(hs, base, brk, a, size);
    ShrunkChained(hs, head, fl, a, size);
    forall b | b in hs && !hs[b].isFree ensures SamePayload(hs, mem, mem, b) { BlockAt(hs, base, brk, b); }
  }

  lemma ShrunkLaid(hs: Headers, base: nat, brk: nat, a: nat, size: nat)
    requires Laid(hs, base, brk) && a in hs && size <= hs[a].size && size % 16 == 0 && size >= 16
    ensures Laid(hs[a := hs[a].(size := size)], base, brk)
  {}

  lemma ShrunkChained(hs: Headers, head: nat, fl: seq<nat>, a: nat, size: nat)
    requires Chained(hs, head, fl) && a in hs
    ensures Chained(hs[a := hs[a].(size := size)], head, fl)
  {
    var h := hs[a := hs[a].(size := size)];
    forall i | 0 <= i < |fl| ensures Link(h, fl, i) { assert Link(hs, fl, i); }
  }

  predicate Shrinks(hs: Headers, ptr: nat, request: nat)
    requires ptr >= HEADER
  { ptr - HEADER in hs && hs[ptr - HEADER].size > Rounded(request) }

  /** The first bytes, up to the smaller of the old size and the request, are the old ones. */
  ghost predicate PrefixKept(hs: Headers, m: seq<Byte>, m2: seq<Byte>, ptr: nat, q: nat, request: nat)
    requires ptr >= HEADER && ptr - HEADER in hs
  {
    forall i: nat :: i < hs[ptr - HEADER].size && i < request ==> ByteMoved(m, ptr, m2, q, i)
  }

  predicate ByteMoved(m: seq<Byte>, src: nat, m2: seq<Byte>, dst: nat, i: nat) {
    src + i < |m| && dst + i < |m2| && m2[dst + i] == m[src + i]
  }

  lemma PrefixInPlace(hs: Headers, base: nat, brk: nat, m: seq<Byte>, ptr: nat, request: nat)
    requires ptr >= HEADER && ptr - HEADER in hs && Laid(hs, base, brk) && |m| == brk
    ensures PrefixKept(hs, m, m, ptr, ptr, request)
  {}

  lemma SaneTwice(request: nat, brk: nat)
    requires 0 < request && request + 15 < TWO64
    ensures Rounded(request) > 0 && Rounded(Rounded(request)) == Rounded(request) && (Sane(Rounded(request), brk) <==> Sane(request, brk))
  { RoundedIs(request); }

  lemma GrowthTwice(request: nat)
    requires 0 < request && request + 15 < TWO64
    ensures Growth(Rounded(request)) == Growth(request)
  { SaneTwice(request, 0); }

  /** memcpy of n bytes, as far as both ranges exist. */
  function Copied(m: seq<Byte>, dst: nat, src: nat, n: nat): (r: seq<Byte>)
    ensures |r| == |m|
  {
    seq(|m|, i requires 0 <= i < |m| => if dst <= i < dst + n && src + (i - dst) < |m| then m[src + (i - dst)] else m[i])
  }

  /** The new block is clear of the old one and of every other live block. */
  lemma MovedApart(hs: Headers, m: seq<Byte>, h: Headers, m1: seq<Byte>, base: nat, brk: nat, a: nat, b: nat)
    requires Laid(h, base, brk) && a in hs && !hs[a].isFree && b in h && Undisturbed(hs, m, h, m1, 0) && 0 !in hs
    requires !(b in hs && !hs[b].isFree)
    ensures a in h && a != b && h[a].size == hs[a].size && !h[a].isFree
    ensures SamePayload(hs, m, m1, a)
  {}

  /** Copying into block b does not touch the bytes of another live block. */
  lemma CopyOther(hs: Headers, m: seq<Byte>, h: Headers, m1: seq<Byte>, base: nat, brk: nat, a: nat, b: nat, c: nat)
    requires Laid(h, base, brk) && |m1| == brk && a in hs && b in h && h[b].size >= hs[a].size
    requires c in hs && c in h && c != b && h[c].size == hs[c].size && SamePayload(hs, m, m1, c)
    ensures SamePayload(hs, m, Copied(m1, b + HEADER, a + HEADER, hs[a].size), c)
  {}

  lemma CopyKeeps(hs: Headers, m: seq<Byte>, h: Headers, m1: seq<Byte>, base: nat, brk: nat, a: nat, b: nat, request: nat)
    requires Laid(h, base, brk) && |m1| == brk && a in hs && a in h && b in h && a != b && h[a].size == hs[a].size && h[b].size >= hs[a].size
    requires Undisturbed(hs, m, h, m1, 0) && SamePayload(hs, m, m1, a) && !(b in hs && !hs[b].isFree)
    ensures Undisturbed(hs, m, h, Copied(m1, b + HEADER, a + HEADER, hs[a].size), 0)
    ensures PrefixKept(hs, m, Copied(m1, b + HEADER, a + HEADER, hs[a].size), a + HEADER, b + HEADER, request)
  {
    hide Laid, Copied, SamePayload, ByteMoved;
    forall c | c in hs && !hs[c].isFree && c != 0 ensures SamePayload(hs, m, Copied(m1, b + HEADER, a + HEADER, hs[a].size), c) {
      CopyOther(hs, m, h, m1, base, brk, a, b, c);
    }
    CopyMoves(hs, m, h, m1, base, brk, a, b, request);
  }

  lemma CopyMoves(hs: Headers, m: seq<Byte>, h: Headers, m1: seq<Byte>, base: nat, brk: nat, a: nat, b: nat, request: nat)
    requires Laid(h, base, brk) && |m1| == brk && a in hs && a in h && b in h && h[a].size == hs[a].size && h[b].size >= hs[a].size
    requires SamePayload(hs, m, m1, a)
    ensures PrefixKept(hs, m, Copied(m1, b + HEADER, a + HEADER, hs[a].size), a + HEADER, b + HEADER, request)
  {}

  lemma MoveDone(hs: Headers, m: seq<Byte>, h1: Headers, m2: seq<Byte>, h2: Headers, a: nat, b: nat)
    requires Undisturbed(hs, m, h1, m2, 0) && a in h1 && Undisturbed(h1, m2, h2, m2, a) && 0 !in hs
    ensures Undisturbed(hs, m, h2, m2, a)
  {}

  class Heap {
    const base: nat
    var freeList: nat
    var headers: Headers
    var brk: nat
    var mem: seq<Byte>
    ghost var fl: seq<nat>

    ghost predicate Valid()
      reads this
    { HeapOk(headers, freeList, fl, base, brk, mem) }

    ghost predicate Live(ptr: nat)
      reads this
    { ptr >= HEADER && ptr - HEADER in headers && !headers[ptr - HEADER].isFree }

    constructor (brk: nat)
      requires 0 < brk <= LIMIT && brk % 16 == 0
      ensures Valid() && Tiled(headers, base, this.brk) && headers == map[] && this.brk == brk
    {
      base, freeList, headers, this.brk := brk, 0, map[], brk;
      mem := seq(brk, _ => 0);
      fl := [];
    }

    /** sys_sbrk: a shrink past address zero is refused; growth needs pages. */
    method Sbrk(n: int, grant: bool) returns (r: int)
      requires -TWO63 <= n < TWO63 && brk <= LIMIT && |mem| == brk
      modifies this`brk, this`mem
      ensures r == -1 ==> brk == old(brk) && mem == old(mem)
      ensures r != -1 ==> r == old(brk) && brk == old(brk) + n && |mem| == brk
                          && forall i :: 0 <= i < old(brk) && i < brk ==> mem[i] == old(mem)[i]
      ensures r == -1 <==> Refused(old(brk), n, grant)
    {
      var oldSize, newSize := brk, (brk + n) % TWO64;
      if n < 0 && newSize > oldSize { return -1; }
      if n > 0 {
        if !grant || newSize > LIMIT { return -1; }
      }
      brk := newSize;
      mem := if newSize <= oldSize then mem[..newSize] else mem + seq(newSize - oldSize, _ => 0);
      r := oldSize;
    }

    /** malloc: the first block of the list that fits, split if the rest can hold a block, otherwise
        fresh memory at the break. It fails exactly when there is no fit and sbrk refuses. The caller gets
        all it asked for exactly when the request is sane. */
    method Malloc(request: nat, grant: bool) returns (p: nat)
      requires Valid() && request < TWO64
      modifies this
      ensures request == 0 ==> p == 0
      ensures p == 0 ==> Valid() && headers == old(headers) && mem == old(mem) && brk == old(brk) && fl == old(fl)
      ensures p != 0 ==> (Sane(request, old(brk)) <==> p + request <= brk)
      ensures brk <= LIMIT && old(headers).Keys <= headers.Keys
      ensures p != 0 && Sane(request, old(brk)) ==>
                && Valid() && p % 16 == 0 && Live(p) && headers[p - HEADER].size >= request
                && !(p - HEADER in old(headers) && !old(headers)[p - HEADER].isFree)
                && Undisturbed(old(headers), old(mem), headers, mem, 0)
                && (Tiled(old(headers), base, old(brk)) ==> Tiled(headers, base, brk))
      ensures var k := FirstFit(old(headers), old(fl), Rounded(request));
              request != 0 ==>
                (k < |old(fl)| ==> p == old(fl)[k] + HEADER && brk == old(brk) && Took(old(headers), headers, old(fl)[k], Rounded(request)))
                && (k < |old(fl)| ==> fl == old(fl)[..k] + (if old(headers)[old(fl)[k]].size >= Rounded(request) + 48 then [p + Rounded(request)] else []) + old(fl)[k + 1..])
                && (k == |old(fl)| ==> fl == old(fl))
                && (k == |old(fl)| && p != 0 ==> headers == old(headers)[old(brk) := Header(Rounded(request), 0, false)])
                && (p == 0 <==> k == |old(fl)| && Refused(old(brk), Growth(request), grant))
                && (k == |old(fl)| && p != 0 ==> p == old(brk) + HEADER && brk == old(brk) + Growth(request))
    {
      hide Laid, Chained, Tiled, Undisturbed, Unlinked, Removed, Split, Took;
      if request == 0 { return 0; }
      RoundedIs(request);
      var size := AlignUp(request);
      if size < MINALLOC { size := MINALLOC; }
      ghost var i := 0;
      HeadIs(headers, freeList, fl);
      var prev, curr := 0, freeList;
      while curr != 0
        invariant i <= |fl| && curr == At(fl, i) && prev == (if i == 0 then 0 else fl[i - 1])
        invariant forall j :: 0 <= j < i ==> !Fits(headers, fl[j], size)
        invariant Valid() && headers == old(headers) && mem == old(mem) && brk == old(brk) && fl == old(fl) && freeList == old(freeList)
        decreases |fl| - i
      {
        ListedFree(headers, freeList, fl, i);
        if headers[curr].isFree && headers[curr].size >= size {
          FirstFitIs(headers, fl, size, i);
          p := TakeBlock(prev, curr, size, i);
          SaneFit(headers, base, brk, curr, request, brk);
          return;
        }
        NextIs(headers, freeList, fl, i);
        prev := curr;
        curr := headers[curr].next;
        i := i + 1;
      }
      AtEnd(headers, freeList, fl, i);
      FirstFitIs(headers, fl, size, i);
      p := Extend(request, size, grant);
    }

    /** The part of malloc past the list. */
    method Extend(request: nat, size: nat, grant: bool) returns (p: nat)
      requires Valid() && 0 < request < TWO64 && size == Rounded(request)
      modifies this`headers, this`brk, this`mem
      ensures p == 0 ==> headers == old(headers) && mem == old(mem) && brk == old(brk)
      ensures p == 0 <==> Refused(old(brk), Growth(request), grant)
      ensures p != 0 ==> p == old(brk) + HEADER && brk == old(brk) + Growth(request)
      ensures p != 0 ==> headers == old(headers)[old(brk) := Header(size, 0, false)]
      ensures p != 0 ==> (Sane(request, old(brk)) <==> p + request <= brk)
      ensures brk <= LIMIT && old(headers).Keys <= headers.Keys
      ensures p != 0 && Sane(request, old(brk)) ==>
                && p == old(brk) + HEADER && brk == old(brk) + HEADER + size && old(brk) !in old(headers)
                && Valid() && p % 16 == 0 && size >= request
                && Undisturbed(old(headers), old(mem), headers, mem, 0)
                && (Tiled(old(headers), base, old(brk)) ==> Tiled(headers, base, brk))
    {
      hide Laid, Chained, Tiled, Undisturbed;
      RoundedIs(request);
      SaneBound(request, brk);
      if Sane(request, brk) { SaneGrowth(request, brk, grant); }
      var allocSize := (HEADER + size) % TWO64;
      var block := Sbrk(if allocSize >= TWO63 then allocSize - TWO64 else allocSize, grant);
      if block == -1 { return 0; }
      if Sane(request, old(brk)) {
        Grows(headers, freeList, fl, base, old(brk), size);
        GrownLive(headers, base, old(brk), old(mem), mem, size);
      }
      headers := headers[block := Header(size, 0, false)];
      p := block + HEADER;
    }

    /** free: the block goes to the front of the list. */
    method Free(ptr: nat)
      requires ptr == 0 || (ptr >= HEADER && ptr - HEADER in headers)
      modifies this`headers, this`freeList, this`fl
      ensures ptr == 0 ==> headers == old(headers) && fl == old(fl) && freeList == old(freeList)
      ensures ptr != 0 ==> var a := ptr - HEADER;
                a in old(headers) && headers == old(headers)[a := Header(old(headers)[a].size, old(freeList), true)]
                && fl == [a] + old(fl) && freeList == a
      ensures old(Valid() && Live(ptr)) ==>
                Valid() && Undisturbed(old(headers), mem, headers, mem, ptr - HEADER) && (Tiled(old(headers), base, brk) ==> Tiled(headers, base, brk))
    {
      hide Laid, Chained, Tiled, Undisturbed;
      if ptr == 0 { return; }
      var block := ptr - HEADER;
      if Valid() && Live(ptr) { FreedKeeps(headers, freeList, fl, base, brk, mem, block); }
      headers := headers[block := headers[block].(isFree := true)];
      headers := headers[block := headers[block].(next := freeList)];
      freeList := block;
      fl := [block] + fl;
    }

    /** realloc: shrinks in place, or moves the block and copies it. The common prefix survives, other
        blocks are undisturbed, and a failure leaves everything as it was. As for malloc, the caller
        gets all it asked for exactly when the request is sane. */
    method Realloc(ptr: nat, request: nat, grant: bool) returns (q: nat)
      requires Valid() && request < TWO64 && (ptr == 0 || Live(ptr))
      modifies this
      ensures request == 0 ==> q == 0 && Valid() && (ptr != 0 ==> ptr - HEADER in headers && headers[ptr - HEADER].isFree)
      ensures q != 0 ==> (Sane(request, old(brk)) <==> q + request <= brk)
      ensures q == 0 && request != 0 ==>
                Valid() && headers == old(headers) && mem == old(mem)
      ensures request != 0 ==>
                (q == 0 <==> FirstFit(old(headers), old(fl), Rounded(request)) == |old(fl)| && Refused(old(brk), Growth(request), grant)
                             && !(ptr != 0 && ptr - HEADER in old(headers) && old(headers)[ptr - HEADER].size >= Rounded(request)))
      ensures ptr != 0 && request != 0 && ptr - HEADER in old(headers) && old(headers)[ptr - HEADER].size >= Rounded(request) ==> q == ptr
      ensures q != 0 && Sane(request, old(brk)) ==>
                && Valid() && q % 16 == 0 && Live(q) && headers[q - HEADER].size >= request
                && Undisturbed(old(headers), old(mem), headers, mem, if ptr == 0 then 0 else ptr - HEADER)
                && (ptr != 0 ==> PrefixKept(old(headers), old(mem), mem, ptr, q, request))
                && (ptr != 0 && q != ptr ==> ptr - HEADER in headers && headers[ptr - HEADER].isFree)
                && (Tiled(old(headers), base, old(brk)) && (ptr == 0 || !Shrinks(old(headers), ptr, request)) ==> Tiled(headers, base, brk))
    {
      hide Laid, Chained, Tiled, Undisturbed, SamePayload, PrefixKept, Growth, Refused, FirstFit, Took;
      if ptr == 0 {
        q := Malloc(request, grant);
        return;
      }
      if request == 0 {
        Free(ptr);
        return 0;
      }
      NoNull(headers, freeList, fl);
      var block := ptr - HEADER;
      var oldSize := headers[block].size;
      RoundedIs(request);
      var size := AlignUp(request);
      if size < MINALLOC { size := MINALLOC; }
      if oldSize >= size {
        ShrunkKeeps(headers, freeList, fl, base, brk, mem, block, size);
        headers := headers[block := headers[block].(size := size)];
        SaneFit(headers, base, brk, block, request, brk);
        PrefixInPlace(old(headers), base, brk, mem, ptr, request);
        return ptr;
      }
      BlockAt(headers, base, brk, block);
      SaneTwice(request, brk);
      GrowthTwice(request);
      q := Malloc(size, grant);
      if q == 0 { return; }
      SaneBound(request, old(brk));
      ghost var h1, m1 := headers, mem;
      if Sane(request, old(brk)) { MovedApart(old(headers), old(mem), h1, m1, base, brk, block, q - HEADER); }
      mem := Copied(mem, q, ptr, oldSize);
      if Sane(request, old(brk)) { CopyKeeps(old(headers), old(mem), h1, m1, base, brk, block, q - HEADER, request); }
      ghost var m2 := mem;
      Free(ptr);
      if Sane(request, old(brk)) { MoveDone(old(headers), old(mem), h1, m2, headers, block, q - HEADER); }
    }

    /** Splitting and unlinking a block of the list. */
    method TakeBlock(prev: nat, curr: nat, size: nat, ghost i: nat) returns (p: nat)
      requires Valid() && i < |fl| && fl[i] == curr && curr in headers && prev == (if i == 0 then 0 else fl[i - 1])
      requires headers[curr].size >= size && size % 16 == 0 && size >= 16
      modifies this`headers, this`freeList, this`fl
      ensures p == curr + HEADER && Valid() && Live(p) && headers[curr].size >= size && old(headers)[curr].isFree
      ensures headers == Taken(old(headers), prev, curr, size) && old(headers).Keys <= headers.Keys
      ensures Took(old(headers), headers, curr, size)
      ensures fl == old(fl)[..i] + (if old(headers)[curr].size >= size + 48 then [p + size] else []) + old(fl)[i + 1..]
      ensures Undisturbed(old(headers), mem, headers, mem, 0) && (Tiled(old(headers), base, brk) ==> Tiled(headers, base, brk))
    {
      hide Laid, Tiled, Undisturbed, Removed, Chained, Took, Inserted;
      TakenKeeps(headers, freeList, fl, base, brk, mem, i, size);
      BlockAt(headers, base, brk, curr);
      ListedFree(headers, freeList, fl, i);
      NoNull(headers, freeList, fl);
      TakenTook(headers, base, brk, prev, curr, size);
      if headers[curr].size >= (size + HEADER + MINALLOC) % TWO64 {
        var n := curr + HEADER + size;
        headers := headers[n := Header(headers[curr].size - size - HEADER, headers[curr].next, true)];
        headers := headers[curr := Header(size, n, headers[curr].isFree)];
        fl := Inserted(fl, i, n);
      }
      if prev != 0 {
        headers := headers[prev := headers[prev].(next := headers[curr].next)];
      } else {
        freeList := headers[curr].next;
      }
      headers := headers[curr := headers[curr].(isFree := false, next := 0)];
      RemovedIs(old(fl), i, curr + HEADER + size);
      fl := Removed(fl, i);
      p := curr + HEADER;
    }
  }

  lemma NoNull(hs: Headers, head: nat, fl: seq<nat>)
    requires Chained(hs, head, fl)
    ensures 0 !in hs
  {}
}
