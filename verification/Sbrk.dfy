/** sys_sbrk: the break of a process and the pages mapped below it. */
module Sbrk {
  import opened Arith

  const PAGE: nat := 4096
  const TWO63: int := 0x8000_0000_0000_0000
  const TWO64: int := 0x1_0000_0000_0000_0000

  /** User addresses stay below this; the stack takes the last sixteen pages. */
  const LIMIT: nat := 0x1_0000_0000_0000
  const STACK: nat := 0xF_FFFF_FFF0

  /** Number of pages that hold the first x bytes. */
  function PageUp(x: nat): nat { (x + PAGE - 1) / PAGE }

  /** A call that is refused: a shrink past zero, or growth over a page that is mapped already or over
      more pages than can be had. */
  predicate Refuses(mapped: set<nat>, sz: nat, n: int, have: nat) {
    || (n < 0 && sz + n < 0)
    || (n > 0 && (PageUp(sz + n) - PageUp(sz) > have || exists p: nat :: PageUp(sz) <= p < PageUp(sz + n) && p in mapped))
  }

  /** mapped is were with the pages from lo up to hi. */
  ghost predicate Added(were: set<nat>, mapped: set<nat>, lo: nat, hi: nat) {
    forall p: nat :: p in mapped <==> p in were || lo <= p < hi
  }

  /** Below the stack, exactly the pages below the break are mapped. */
  ghost predicate Exact(mapped: set<nat>, sz: nat) { forall p: nat :: p < STACK ==> (p in mapped <==> p < PageUp(sz)) }

  /** The page the next growth needs is mapped already, as are those below. */
  ghost predicate Stuck(mapped: set<nat>, sz: nat) { forall p: nat :: p <= PageUp(sz) ==> p in mapped }

  lemma PageUpMonotone(x: nat, y: nat)
    requires x <= y
    ensures PageUp(x) <= PageUp(y)
  {}

  /** A stuck break moves by what does not go past its page, whatever can be had; everything else is refused. */
  lemma StuckStays(mapped: set<nat>, sz: nat, n: int, have: nat)
    requires Stuck(mapped, sz)
    ensures Refuses(mapped, sz, n, have) <==> sz + n < 0 || PageUp(sz + n) > PageUp(sz)
    ensures !Refuses(mapped, sz, n, have) ==> Stuck(mapped, sz + n)
  {
    if n <= 0 && sz + n >= 0 { PageUpMonotone(sz + n, sz); }
    if n >= 0 { PageUpMonotone(sz, sz + n); }
    assert PageUp(sz) in mapped;
  }

  class Space {
    var sz: nat
    var mapped: set<nat>

    constructor (sz: nat, mapped: set<nat>)
      ensures this.sz == sz && this.mapped == mapped
    { this.sz, this.mapped := sz, mapped; }

    /** sys_sbrk. have is the number of pages the kernel can still allocate and map. A growth that stops
        half way leaves the pages it has mapped, and a shrink leaves all of them; in both cases the page the
        next growth needs is mapped already. */
    method SysSbrk(n: int, have: nat) returns (r: int, left: nat)
      requires -TWO63 <= n < TWO63 && sz <= LIMIT
      modifies this
      ensures r == -1 <==> Refuses(old(mapped), old(sz), n, have)
      ensures r == -1 ==> sz == old(sz)
      ensures r != -1 ==> r == old(sz) && sz == old(sz) + n
      ensures left <= have && (n <= 0 ==> mapped == old(mapped) && left == have)
      ensures n > 0 ==> var stop := PageUp(old(sz)) + (have - left);
                && stop <= PageUp(old(sz) + n) && Added(old(mapped), mapped, PageUp(old(sz)), stop)
                && (forall q: nat :: PageUp(old(sz)) <= q < stop ==> q !in old(mapped))
                && (r == -1 <==> stop < PageUp(old(sz) + n)) && (r == -1 ==> stop in old(mapped) || left == 0)
      ensures Exact(old(mapped), old(sz)) && PageUp(old(sz)) < STACK && n > 0 && r == -1 ==>
                (Stuck(mapped, sz) <==> have > 0) && (Exact(mapped, sz) <==> have == 0)
      ensures Exact(old(mapped), old(sz)) && n > 0 && r != -1 ==> Exact(mapped, sz)
      ensures Exact(old(mapped), old(sz)) && PageUp(old(sz)) < STACK && n < 0 && r != -1 ==>
                (Stuck(mapped, sz) <==> PageUp(sz) < PageUp(old(sz)))
    {
      hide PageUp;
      ghost var were := mapped;
      var oldSz, newSz := sz, (sz + n) % TWO64;
      left := have;
      if n < 0 && newSz > oldSz { return -1, left; }
      if n > 0 {
        var oldEnd, newEnd := PageUp(oldSz), PageUp(newSz);
        PageUpMonotone(oldSz, newSz);
        var p := oldEnd;
        while p < newEnd
          invariant oldEnd <= p <= newEnd && Added(were, mapped, oldEnd, p) && have - left == p - oldEnd && sz == oldSz
          invariant forall q: nat :: oldEnd <= q < p ==> q !in were
        {
          if left == 0 || p in mapped {
            assert Added(were, mapped, oldEnd, p) && (oldEnd in mapped <==> oldEnd in were || oldEnd < p);
            return -1, left;
          }
          mapped := mapped + {p};
          left := left - 1;
          p := p + 1;
        }
      }
      if n < 0 {
        PageUpMonotone(newSz, oldSz);
        assert PageUp(newSz) in were <==> PageUp(newSz) in mapped;
      }
      sz := newSz;
      r := oldSz;
    }

    /** Once stuck, always stuck: after a growth that failed half way, or a shrink by a page, exactly the calls
        that stay inside the break's page are served, whatever memory becomes free, and no page is mapped. */
    method Run(calls: seq<(int, nat)>) returns (results: seq<int>, ghost breaks: seq<nat>)
      requires Stuck(mapped, sz) && sz <= LIMIT && forall i :: 0 <= i < |calls| ==> -TWO63 <= calls[i].0 < TWO63
      modifies this
      ensures Stuck(mapped, sz) && PageUp(sz) <= PageUp(old(sz)) && mapped == old(mapped)
      ensures |results| == |calls| && |breaks| == |calls| + 1 && breaks[0] == old(sz) && breaks[|calls|] == sz
      ensures forall i :: 0 <= i < |calls| ==> Served(breaks[i], calls[i].0, results[i], breaks[i + 1])
    {
      results, breaks := [], [sz];
      var i := 0;
      while i < |calls|
        invariant i <= |calls| && Stuck(mapped, sz) && PageUp(sz) <= PageUp(old(sz)) <= PageUp(LIMIT) && sz <= LIMIT && mapped == old(mapped)
        invariant |results| == i && |breaks| == i + 1 && breaks[0] == old(sz) && breaks[i] == sz
        invariant forall j :: 0 <= j < i ==> Served(breaks[j], calls[j].0, results[j], breaks[j + 1])
      {
        StuckStays(mapped, sz, calls[i].0, calls[i].1);
        ghost var were, before := mapped, sz;
        var r, left := SysSbrk(calls[i].0, calls[i].1);
        if calls[i].0 > 0 { NothingAdded(were, mapped, PageUp(before), PageUp(before) + (calls[i].1 - left)); }
        results, breaks := results + [r], breaks + [sz];
        i := i + 1;
      }
    }
  }

  /** What a stuck break answers: a call that stays inside its page moves it, any other is refused. */
  predicate Served(sz: nat, n: int, r: int, sz': nat) {
    if sz + n < 0 || PageUp(sz + n) > PageUp(sz) then r == -1 && sz' == sz else r == sz && sz' == sz + n
  }

  /** A stuck break maps nothing. */
  lemma NothingAdded(were: set<nat>, mapped: set<nat>, lo: nat, hi: nat)
    requires lo in were && Added(were, mapped, lo, hi) && forall q: nat :: lo <= q < hi ==> q !in were
    ensures mapped == were
  {}
}
