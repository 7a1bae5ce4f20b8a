/** Physical page allocator: an address-sorted free list threaded through the free pages. */
module Pmm {

  const PAGE_SIZE: int := 4096
  const RAM_BASE: int := 0x4000_0000
  const RAM_SIZE: int := 0x0800_0000
  const KERNEL_BASE: int := 0xFFFF_0000_0000_0000
  const PMM_INVALID: int := -1
  const WORDS: nat := 512

  /** A page as 64-bit words. */
  type Page = p: seq<int> | |p| == WORDS witness seq(WORDS, _ => 0)
  type Mem = map<int, Page>

  function ZeroPage(): Page { seq(WORDS, _ => 0) }

  predicate InRam(pa: int) { RAM_BASE <= pa < RAM_BASE + RAM_SIZE && pa % PAGE_SIZE == 0 }

  ghost predicate Ascending(free: seq<int>) { forall i, j :: 0 <= i < j < |free| ==> free[i] < free[j] }

  /** The pointer stored for position i of the list. */
  function Link(free: seq<int>, i: nat): int { if i < |free| then KERNEL_BASE + free[i] else 0 }

  /** A free page is all zero except for its first word, the pointer to the next free page. */
  function FreePage(link: int): Page { ZeroPage()[0 := link] }

  ghost predicate Linked(mem: Mem, free: seq<int>, i: nat)
    requires i < |free|
  { free[i] in mem && mem[free[i]] == FreePage(Link(free, i + 1)) }

  ghost predicate Threaded(mem: Mem, free: seq<int>) {
    forall i: nat :: i < |free| ==> Linked(mem, free, i)
  }

  ghost function Elems(s: seq<int>): set<int> { set x | x in s }

  /** The pages in use and their contents. */
  ghost function Used(mem: Mem, free: seq<int>): map<int, Page> { map p | p in mem && p !in free :: mem[p] }

  /** Position where pa belongs in an ascending list. */
  ghost predicate Splits(free: seq<int>, i: nat, pa: int) {
    && i <= |free|
    && (forall j :: 0 <= j < i ==> free[j] < pa)
    && (forall j :: i <= j < |free| ==> pa < free[j])
  }

  /** n consecutive page frames starting at position i. */
  ghost predicate RunAt(free: seq<int>, i: nat, n: nat) {
    && i + n <= |free|
    && forall j :: i <= j < i + n ==> free[j] == free[i] + (j - i) * PAGE_SIZE
  }

  // ---------- Facts about lists ----------

  /** The sorted list is determined by its set of pages. */
  lemma {:induction false} AscendingUnique(a: seq<int>, b: seq<int>)
    requires Ascending(a) && Ascending(b) && Elems(a) == Elems(b)
    ensures a == b
  {
    assert a != [] ==> a[0] in Elems(a);
    assert b != [] ==> b[0] in Elems(b);
    if a != [] && b != [] {
      assert a[0] in Elems(a) && b[0] in Elems(b);
      TailElems(a);
      TailElems(b);
      AscendingUnique(a[1..], b[1..]);
      assert a == [a[0]] + a[1..];
    }
  }

  lemma TailElems(a: seq<int>)
    requires Ascending(a) && a != []
    ensures Ascending(a[1..]) && Elems(a[1..]) == Elems(a) - {a[0]}
    ensures forall x :: x in a ==> a[0] <= x
  {}

  lemma InsertElems(free: seq<int>, i: nat, pa: int)
    requires Ascending(free) && Splits(free, i, pa)
    ensures var f := free[..i] + [pa] + free[i..];
            Ascending(f) && Elems(f) == Elems(free) + {pa} && |f| == |free| + 1
  {}

  /** The memory image of an allocator state is determined by the free pages and the pages in use. */
  lemma ImageUnique(m1: Mem, f1: seq<int>, m2: Mem, f2: seq<int>)
    requires Ascending(f1) && Ascending(f2) && Threaded(m1, f1) && Threaded(m2, f2)
    requires Elems(f1) == Elems(f2) && Used(m1, f1) == Used(m2, f2)
    ensures f1 == f2 && m1 == m2
  {
    AscendingUnique(f1, f2);
    forall p | p in m1 ensures p in m2 && m1[p] == m2[p] {
      if p in f1 {
        var i: nat :| i < |f1| && f1[i] == p;
        assert Linked(m1, f1, i) && Linked(m2, f2, i);
      } else { assert p in Used(m1, f1); }
    }
    forall p | p in m2 ensures p in m1 {
      if p in f2 {
        var i: nat :| i < |f2| && f2[i] == p;
        assert Linked(m1, f1, i);
      } else {
        assert p in Used(m2, f2);
      }
    }
  }

  lemma FreePageLink(a: int, b: int)
    ensures FreePage(a)[0] == a && FreePage(a)[0 := b] == FreePage(b)
  {}

  /** Linking a page in at its place keeps the list threaded. */
  lemma ThreadInsert(mem: Mem, free: seq<int>, i: nat, pa: int)
    requires Ascending(free) && Threaded(mem, free) && Splits(free, i, pa)
    ensures var m := mem[pa := FreePage(Link(free, i))];
            Threaded(if i == 0 then m else m[free[i - 1] := FreePage(KERNEL_BASE + pa)], free[..i] + [pa] + free[i..])
  {
    hide FreePage;
    var f := free[..i] + [pa] + free[i..];
    var m0 := mem[pa := FreePage(Link(free, i))];
    var m := if i == 0 then m0 else m0[free[i - 1] := FreePage(KERNEL_BASE + pa)];
    forall j: nat | j < |f| ensures Linked(m, f, j) {
      if j < i {
        assert Linked(mem, free, j);
        assert f[j] == free[j] && f[j + 1] == if j + 1 == i then pa else free[j + 1];
      } else if j > i {
        assert Linked(mem, free, j - 1);
        assert f[j] == free[j - 1] && Link(f, j + 1) == Link(free, j);
      } else {
        assert f[j] == pa && Link(f, j + 1) == Link(free, i);
      }
    }
  }

  /** Cutting n pages out at position i keeps the list threaded. */
  lemma ThreadCut(mem: Mem, free: seq<int>, i: nat, n: nat, mem': Mem)
    requires Ascending(free) && Threaded(mem, free) && i + n <= |free|
    requires i > 0 ==> free[i - 1] in mem' && mem'[free[i - 1]] == FreePage(Link(free, i + n))
    requires forall j :: 0 <= j < i - 1 || i + n <= j < |free| ==>
               free[j] in mem && free[j] in mem' && mem'[free[j]] == mem[free[j]]
    ensures Threaded(mem', free[..i] + free[i + n..])
    ensures Ascending(free[..i] + free[i + n..])
  {
    hide FreePage;
    var f := free[..i] + free[i + n..];
    forall j: nat | j < |f| ensures Linked(mem', f, j) {
      if j < i - 1 {
        assert Linked(mem, free, j);
        assert f[j] == free[j] && f[j + 1] == free[j + 1];
      } else if j >= i {
        assert Linked(mem, free, j + n);
        assert f[j] == free[j + n] && Link(f, j + 1) == Link(free, j + n + 1);
      } else {
        assert f[j] == free[j] && Link(f, j + 1) == Link(free, i + n);
      }
    }
  }

  lemma InsertLinks(mem: Mem, free: seq<int>, i: nat, pa: int)
    requires Threaded(mem, free) && Splits(free, i, pa)
    ensures Link(free[..i] + [pa] + free[i..], 0) == if i == 0 then KERNEL_BASE + pa else Link(free, 0)
    ensures i > 0 ==> free[i - 1] != pa && free[i - 1] in mem && mem[free[i - 1]][0 := KERNEL_BASE + pa] == FreePage(KERNEL_BASE + pa)
    ensures pa !in free
  {
    if i > 0 { assert Linked(mem, free, i - 1); }
  }

  lemma EmptyList(mem: Mem)
    ensures Threaded(mem, []) && Link([], 0) == 0
  {}

  lemma AllBelow(free: seq<int>, pa: int)
    requires forall p :: p in free ==> p < pa
    ensures Splits(free, |free|, pa)
  {
    forall j | 0 <= j < |free| ensures free[j] < pa { assert free[j] in free; }
  }

  /** What a list pointer says about its position. */
  lemma LinkCases(free: seq<int>, i: nat)
    requires i <= |free| && Ascending(free) && forall p :: p in free ==> InRam(p)
    ensures Link(free, i) == 0 <==> i == |free|
    ensures i < |free| ==> Link(free, i) == KERNEL_BASE + free[i] && forall j :: i < j < |free| ==> free[i] < free[j]
  { if i < |free| { assert free[i] in free; } }

  lemma CutHead(mem: Mem, free: seq<int>)
    requires Ascending(free) && Threaded(mem, free) && free != []
    ensures free[0] in mem && mem[free[0]][0] == Link(free[1..], 0)
    ensures Threaded(mem[free[0] := ZeroPage()], free[1..]) && Ascending(free[1..])
  {
    assert Linked(mem, free, 0);
    FreePageLink(Link(free, 1), 0);
    var m := mem[free[0] := ZeroPage()];
    forall j | 1 <= j < |free| ensures free[j] in mem && free[j] in m && m[free[j]] == mem[free[j]] {
      assert Linked(mem, free, j);
    }
    ThreadCut(mem, free, 0, 1, m);
    assert free[..0] + free[1..] == free[1..];
  }

  lemma StoreElsewhere(mem: Mem, free: seq<int>, pa: int, page: Page)
    requires Threaded(mem, free) && pa !in free
    ensures Threaded(mem[pa := page], free)
    ensures pa in mem ==> Used(mem[pa := page], free) == Used(mem, free)[pa := page]
  {
    var m := mem[pa := page];
    forall i: nat | i < |free| ensures Linked(m, free, i) { assert Linked(mem, free, i); }
  }

  lemma CellPage(mem: Mem, free: seq<int>, at: nat, link: int)
    requires Threaded(mem, free) && 0 < at <= |free|
    ensures free[at - 1] in mem && mem[free[at - 1]][0 := link] == FreePage(link)
  { assert Linked(mem, free, at - 1); }

  lemma InRun(free: seq<int>, at: nat, n: nat)
    requires RunAt(free, at, n)
    ensures at + n <= |free|
  {}

  lemma RunOne(free: seq<int>, i: nat)
    requires i < |free|
    ensures RunAt(free, i, 1)
  {}

  lemma OneRun(free: seq<int>, store: map<int, Page>)
    ensures free != [] ==> RunAt(free, 0, 1) && free[..0] + free[0 + 1..] == free[1..]
    ensures free != [] ==> store[free[0] := ZeroPage()] == store + Zeroed(Elems(free[0..0 + 1]))
    ensures free == [] ==> forall i: nat :: !RunAt(free, i, 1)
  {}

  lemma NoRun(free: seq<int>, n: nat)
    requires free == [] && n > 0
    ensures forall i: nat :: !RunAt(free, i, n)
  {}

  lemma RunExtends(free: seq<int>, s: nat, c: nat)
    requires c > 0 && s + c < |free| && RunAt(free, s, c) && free[s + c] == free[s + c - 1] + PAGE_SIZE
    ensures RunAt(free, s, c + 1)
  {}

  lemma TooShort(free: seq<int>, j: nat, n: nat)
    requires j + n > |free|
    ensures !RunAt(free, j, n)
  {}

  ghost function Zeroed(pages: set<int>): map<int, Page> { map p | p in pages :: ZeroPage() }

  /** The pages of a run by address are its pages by position. */
  lemma RunPages(free: seq<int>, at: nat, n: nat)
    requires RunAt(free, at, n) && n > 0
    ensures (set j | 0 <= j < n :: free[at] + j * PAGE_SIZE) == Elems(free[at..at + n])
  {
    var s := set j | 0 <= j < n :: free[at] + j * PAGE_SIZE;
    forall p | p in s ensures p in Elems(free[at..at + n]) {
      var j :| 0 <= j < n && p == free[at] + j * PAGE_SIZE;
      assert free[at + j] == p && free[at..at + n][j] == p;
    }
    forall p | p in free[at..at + n] ensures p in s {
      var j :| 0 <= j < n && free[at..at + n][j] == p;
      assert p == free[at + j] == free[at] + j * PAGE_SIZE;
    }
  }

  lemma CutThread(mem: Mem, free: seq<int>, at: nat, n: nat, cut: seq<int>, m0: Mem)
    requires Ascending(free) && Threaded(mem, free) && at + n <= |free| && n > 0 && cut == free[at..at + n]
    requires m0 == if at == 0 then mem else mem[free[at - 1] := FreePage(Link(free, at + n))]
    ensures var f := free[..at] + free[at + n..];
            && Threaded(m0 + Zeroed(Elems(cut)), f) && Ascending(f)
            && Link(f, 0) == (if at == 0 then Link(free, n) else Link(free, 0))
  {
    hide FreePage, ZeroPage, Ascending, Threaded;
    var m := m0 + Zeroed(Elems(cut));
    CutDisjoint(free, at, n, cut);
    forall j: nat | j < at || at + n <= j < |free|
      ensures free[j] in mem && free[j] in m && m[free[j]] == m0[free[j]] && (j != at - 1 ==> m0[free[j]] == mem[free[j]])
    {
      CutEntry(mem, free, at, j);
    }
    ThreadCut(mem, free, at, n, m);
  }

  lemma CutEntry(mem: Mem, free: seq<int>, at: nat, j: nat)
    requires Ascending(free) && Threaded(mem, free) && j < |free| && at <= |free|
    ensures free[j] in mem && (at > 0 && j != at - 1 ==> free[j] != free[at - 1])
  { assert Linked(mem, free, j); }

  lemma CutDisjoint(free: seq<int>, at: nat, n: nat, cut: seq<int>)
    requires Ascending(free) && at + n <= |free| && cut == free[at..at + n]
    ensures forall j: nat :: j < at || at + n <= j < |free| ==> free[j] !in cut
    ensures forall p :: p in free <==> p in free[..at] + free[at + n..] || p in cut
    ensures Elems(free[..at] + free[at + n..]) !! Elems(cut)
  {}

  lemma CutUsed(mem: Mem, free: seq<int>, f: seq<int>, cut: seq<int>, m0: Mem)
    requires forall p :: p in free <==> p in f || p in cut
    requires Elems(f) !! Elems(cut)
    requires m0.Keys == mem.Keys && forall p :: p in mem && p !in free ==> m0[p] == mem[p]
    ensures Used(m0 + Zeroed(Elems(cut)), f) == Used(mem, free) + Zeroed(Elems(cut))
  {
    hide ZeroPage;
    var u, w := Used(m0 + Zeroed(Elems(cut)), f), Used(mem, free) + Zeroed(Elems(cut));
    forall p ensures p in u <==> p in w { assert p in cut <==> p in Elems(cut); assert p in f <==> p in Elems(f); }
    forall p | p in u ensures u[p] == w[p] { assert p in cut <==> p in Elems(cut); }
  }

  /** A run of n pages cannot span a gap. */
  lemma GapBlocks(free: seq<int>, k: nat, n: nat, j: nat)
    requires k + 1 < |free| && free[k + 1] != free[k] + PAGE_SIZE && j <= k < j + n - 1
    ensures !RunAt(free, j, n)
  {}

  // ---------- The allocator ----------

  /** The frames of a run of n pages that are pages of RAM. */
  ghost function RamFrames(pa: int, n: int): set<int> {
    if n <= 0 then {} else RamFrames(pa, n - 1) + if InRam(pa + (n - 1) * PAGE_SIZE) then {pa + (n - 1) * PAGE_SIZE} else {}
  }

  /** Owner of a list cell: a free page, or the head variable itself. */
  const HEAD: int := -1

  class Phys {
    var mem: Mem
    var freelist: int
    var freeCount: int
    ghost var free: seq<int>

    ghost predicate Valid()
      reads this
    {
      && Ascending(free)
      && (forall p :: p in free ==> InRam(p))
      && (forall p :: InRam(p) ==> p in mem)
      && Threaded(mem, free)
      && freelist == Link(free, 0)
      && freeCount == |free|
    }

    ghost function Store(): map<int, Page>
      reads this
    { Used(mem, free) }

    /** The cell before position i. */
    ghost predicate CellBefore(pp: int, i: nat)
      reads this
    {
      i <= |free| && pp == if i == 0 then HEAD else free[i - 1]
    }

    /** *pp */
    function Deref(pp: int): int
      requires pp == HEAD || pp in mem
      reads this
    { if pp == HEAD then freelist else mem[pp][0] }

    lemma DerefLink(pp: int, i: nat)
      requires Valid() && CellBefore(pp, i)
      ensures (pp == HEAD || pp in mem) && Deref(pp) == Link(free, i) && (pp == HEAD <==> i == 0)
      ensures i < |free| ==> free[i] > 0 && Link(free, i) - KERNEL_BASE == free[i] && Link(free, i) != 0
    {
      if i > 0 {
        assert Linked(mem, free, i - 1);
        assert free[i - 1] in free;
      }
      if i < |free| { assert free[i] in free; }
    }

    /** Puts a zeroed page into the list where the walk stopped: its link takes over what the cell held, and
        the cell is made to point to it. */
    method InsertAt(pp: int, pa: int, ghost i: nat)
      requires Valid() && CellBefore(pp, i) && InRam(pa) && Splits(free, i, pa)
      modifies this
      ensures Valid() && free == old(free)[..i] + [pa] + old(free)[i..]
      ensures Elems(free) == Elems(old(free)) + {pa}
      ensures Store() == old(Store()) - {pa}
    {
      hide FreePage, Threaded, Ascending, Splits, Link;
      DerefLink(pp, i);
      ThreadInsert(mem, free, i, pa);
      InsertElems(free, i, pa);
      InsertLinks(mem, free, i, pa);
      var next := Deref(pp);
      mem := mem[pa := FreePage(next)];
      if pp == HEAD {
        freelist := KERNEL_BASE + pa;
      } else {
        mem := mem[pp := mem[pp][0 := KERNEL_BASE + pa]];
      }
      freeCount := freeCount + 1;
      free := free[..i] + [pa] + free[i..];
      assert forall p :: p in free <==> p in Elems(free);
    }

    /** pmm_init: every whole page of [start, end) outside the reserved range, in address order. */
    constructor (initial: Mem, start: int, end: int, resStart: int, resEnd: int)
      requires start % PAGE_SIZE == 0 && RAM_BASE <= start && end <= RAM_BASE + RAM_SIZE
      requires forall p :: InRam(p) ==> p in initial
      ensures Valid()
      ensures forall p :: p in free <==>
                p % PAGE_SIZE == 0 && start <= p && p + PAGE_SIZE <= end && !(resStart != 0 && resStart <= p < resEnd)
      ensures Store() == initial - Elems(free)
    {
      mem := initial;
      freelist, freeCount := 0, 0;
      free := [];
      new;
      hide Threaded, Splits, Link;
      assert Threaded(mem, free) && freelist == Link(free, 0) by { EmptyList(mem); }
      var pa, tail := start, HEAD;
      while pa + PAGE_SIZE <= end
        invariant start <= pa && pa % PAGE_SIZE == 0
        invariant Valid() && CellBefore(tail, |free|)
        invariant forall p :: p in free <==>
                    p % PAGE_SIZE == 0 && start <= p < pa && !(resStart != 0 && resStart <= p < resEnd)
        invariant pa != start ==> pa <= end
        invariant Store() == initial - Elems(free)
        decreases end - pa
      {
        if !(resStart != 0 && resStart <= pa < resEnd) {
          AllBelow(free, pa);
          ghost var before := free;
          InsertAt(tail, pa, |free|);
          assert forall p :: p in free <==> p in before || p == pa;
          tail := pa;
        }
        pa := pa + PAGE_SIZE;
      }
    }

    /** pmm_alloc: hands out the lowest free page, zeroed, or fails exactly when none is left. */
    method Alloc() returns (pa: int)
      requires Valid()
      modifies this
      ensures Valid()
      ensures old(free) == [] ==>
                pa == PMM_INVALID && free == [] && mem == old(mem) && freelist == old(freelist) && freeCount == old(freeCount)
      ensures old(free) != [] ==>
                pa == old(free)[0] && free == old(free)[1..] && Store() == old(Store())[pa := ZeroPage()] && InRam(pa)
    {
      hide Threaded, FreePage, ZeroPage;
      DerefLink(HEAD, 0);
      if freelist == 0 { return PMM_INVALID; }
      pa := freelist - KERNEL_BASE;
      DerefLink(pa, 1);
      ghost var f := free;
      CutHead(mem, free);
      freelist := mem[pa][0];
      freeCount := freeCount - 1;
      mem := mem[pa := ZeroPage()];
      free := free[1..];
      assert forall p :: p in f <==> p == pa || p in free by { assert f == [f[0]] + f[1..]; }
      assert pa !in free;
    }

    /** pmm_alloc_contiguous: removes exactly the first run of n consecutive free pages, zeroed,
        and fails exactly when there is none (or n is not positive). */
    method AllocContiguous(n: int) returns (pa: int, ghost at: nat)
      requires Valid()
      modifies this
      ensures Valid()
      ensures pa == PMM_INVALID <==> n <= 0 || !exists i: nat :: RunAt(old(free), i, n)
      ensures pa == PMM_INVALID ==>
                free == old(free) && mem == old(mem) && freelist == old(freelist) && freeCount == old(freeCount)
      ensures pa != PMM_INVALID ==>
                && n > 0 && RunAt(old(free), at, n) && pa == old(free)[at]
                && (forall j: nat :: j < at ==> !RunAt(old(free), j, n))
                && free == old(free)[..at] + old(free)[at + n..]
                && Store() == old(Store()) + Zeroed(Elems(old(free)[at..at + n]))
    {
      hide RunAt, Threaded, Used, Link, Ascending;
      at := 0;
      if n <= 0 { return PMM_INVALID, 0; }
      OneRun(free, Store());
      if n == 1 {
        pa := Alloc();
        return;
      }
      DerefLink(HEAD, 0);
      LinkCases(free, 0);
      if freelist == 0 {
        NoRun(free, n);
        return PMM_INVALID, 0;
      }
      var runStart;
      runStart, pa, at := FirstRun(n);
      if pa == PMM_INVALID { return; }
      CutRun(runStart, pa, n, at);
    }

    /** The scan: the cell before the first run of n pages and the run's base address. */
    method FirstRun(n: int) returns (runStart: int, base: int, ghost s: nat)
      requires Valid() && n > 1 && free != []
      ensures base == PMM_INVALID <==> !exists i: nat :: RunAt(free, i, n)
      ensures base != PMM_INVALID ==>
                RunAt(free, s, n) && CellBefore(runStart, s) && base == free[s] && forall j: nat :: j < s ==> !RunAt(free, j, n)
    {
      hide Threaded, Link, RunAt;
      runStart, base, s := HEAD, freelist - KERNEL_BASE, 0;
      LinkCases(free, 0);
      var count, pp := 1, HEAD;
      ghost var k: nat := 0;
      DerefLink(pp, k);
      RunOne(free, 0);
      while Deref(pp) != 0
        invariant k < |free| && CellBefore(pp, k) && (pp == HEAD || pp in mem) && Deref(pp) == Link(free, k)
        invariant CellBefore(runStart, s) && s <= k && count == k - s + 1 <= n && base == free[s]
        invariant RunAt(free, s, count) && forall j: nat :: j < s ==> !RunAt(free, j, n)
        decreases |free| - k
      {
        LinkCases(free, k);
        LinkCases(free, k + 1);
        if count >= n { break; }
        var here := Deref(pp) - KERNEL_BASE;
        DerefLink(here, k + 1);
        var next := Deref(here);
        if next == 0 { break; }
        if next - KERNEL_BASE == here + PAGE_SIZE {
          RunExtends(free, s, count);
          count := count + 1;
        } else {
          forall j: nat | j < k + 1 ensures !RunAt(free, j, n) {
            if s <= j { GapBlocks(free, k, n, j); }
          }
          runStart, base, s, count := here, next - KERNEL_BASE, k + 1, 1;
          RunOne(free, k + 1);
        }
        pp, k := here, k + 1;
      }
      LinkCases(free, k);
      assert free[s] in free;
      if count < n {
        forall j: nat ensures !RunAt(free, j, n) { if s <= j { TooShort(free, j, n); } }
        base := PMM_INVALID;
      }
    }

    /** Unlinks the n pages after a cell and zeroes them. */
    method CutRun(runStart: int, base: int, n: int, ghost at: nat)
      requires Valid() && n > 0 && RunAt(free, at, n) && CellBefore(runStart, at) && base == free[at]
      modifies this
      ensures Valid() && free == old(free)[..at] + old(free)[at + n..]
      ensures Store() == old(Store()) + Zeroed(Elems(old(free)[at..at + n]))
    {
      hide Threaded, Link, FreePage, ZeroPage, RunAt, Ascending, Used;
      DerefLink(runStart, at);
      InRun(free, at, n);
      var end := Skip(Deref(runStart), n, at);
      ghost var m0, f := mem, free;
      if runStart == HEAD {
        freelist := end;
      } else {
        CellPage(mem, free, at, end);
        mem := mem[runStart := mem[runStart][0 := end]];
      }
      freeCount := freeCount - n;
      ghost var m1 := mem;
      ZeroPages(base, n);
      RunPages(f, at, n);
      ghost var cut := f[at..at + n];
      CutThread(m0, f, at, n, cut, m1);
      CutDisjoint(f, at, n, cut);
      CutUsed(m0, f, f[..at] + f[at + n..], cut, m1);
      free := free[..at] + free[at + n..];
    }

    /** Follows n links. */
    method Skip(from: int, n: int, ghost at: nat) returns (end: int)
      requires Valid() && n >= 0 && at + n <= |free| && from == Link(free, at)
      ensures end == Link(free, at + n)
    {
      hide Threaded, Link;
      end := from;
      var i := 0;
      while i < n
        invariant 0 <= i <= n && end == Link(free, at + i)
      {
        LinkCases(free, at + i);
        DerefLink(end - KERNEL_BASE, at + i + 1);
        end := Deref(end - KERNEL_BASE);
        i := i + 1;
      }
    }

    method ZeroPages(base: int, n: int)
      requires n >= 0
      modifies this`mem
      ensures mem == old(mem) + Zeroed(set j | 0 <= j < n :: base + j * PAGE_SIZE)
    {
      hide ZeroPage;
      var i := 0;
      while i < n
        invariant 0 <= i <= n
        invariant mem == old(mem) + Zeroed(set j | 0 <= j < i :: base + j * PAGE_SIZE)
      {
        ghost var s, s' := set j | 0 <= j < i :: base + j * PAGE_SIZE, set j | 0 <= j < i + 1 :: base + j * PAGE_SIZE;
        assert s' == s + {base + i * PAGE_SIZE};
        mem := mem[base + i * PAGE_SIZE := ZeroPage()];
        i := i + 1;
      }
    }

    /** pmm_free: out-of-range, misaligned and double frees change nothing;
        any other page goes back at its place in the order. */
    method Free(pa: int)
      requires Valid()
      modifies this
      ensures Valid()
      ensures !InRam(pa) || pa in old(free) ==>
                free == old(free) && mem == old(mem) && Store() == old(Store()) && freelist == old(freelist) && freeCount == old(freeCount)
      ensures InRam(pa) ==> Elems(free) == Elems(old(free)) + {pa} && Store() == old(Store()) - {pa}
    {
      if pa < RAM_BASE || pa >= RAM_BASE + RAM_SIZE { return; }
      if pa % PAGE_SIZE != 0 { return; }
      hide Threaded, Link, FreePage;
      var r := KERNEL_BASE + pa;
      var pp := HEAD;
      ghost var i: nat := 0;
      DerefLink(pp, i);
      while Deref(pp) != 0 && Deref(pp) < r
        invariant CellBefore(pp, i) && (pp == HEAD || pp in mem) && Deref(pp) == Link(free, i)
        invariant forall j :: 0 <= j < i ==> free[j] < pa
        decreases |free| - i
        modifies {}
      {
        LinkCases(free, i);
        pp := Deref(pp) - KERNEL_BASE;
        i := i + 1;
        DerefLink(pp, i);
      }
      LinkCases(free, i);
      if Deref(pp) == r {
        assert pa == free[i];
        return;
      }
      assert Splits(free, i, pa);
      InsertAt(pp, pa, i);
    }

    /** pmm_free_contiguous */
    method FreeContiguous(pa: int, n: int)
      requires Valid()
      modifies this
      ensures Valid()
      ensures Elems(free) == Elems(old(free)) + RamFrames(pa, n) && Store() == old(Store()) - RamFrames(pa, n)
    {
      hide Valid, Store, Elems, InRam;
      var i := 0;
      while i < n
        invariant 0 <= i && (i <= n || i == 0) && Valid()
        invariant Elems(free) == Elems(old(free)) + RamFrames(pa, i) && Store() == old(Store()) - RamFrames(pa, i)
      {
        Free(pa + i * PAGE_SIZE);
        i := i + 1;
      }
    }

    /** Stores one word of a page in use. */
    method SetWord(pa: int, i: nat, w: int)
      requires Valid() && pa in Store() && i < WORDS
      modifies this`mem
      ensures Valid() && Store() == old(Store())[pa := old(Store())[pa][i := w]]
    {
      hide FreePage, Link;
      StoreElsewhere(mem, free, pa, mem[pa][i := w]);
      mem := mem[pa := mem[pa][i := w]];
    }

    /** Replaces the contents of a page in use. */
    method SetPage(pa: int, page: Page)
      requires Valid() && pa in Store()
      modifies this`mem
      ensures Valid() && Store() == old(Store())[pa := page]
    {
      hide FreePage, Link;
      StoreElsewhere(mem, free, pa, page);
      mem := mem[pa := page];
    }
  }
}
