/** Freeing and deep-copying whole address spaces, and validating user ranges. */
module VmmCopy {
  import opened Pmm
  import opened PageTable
  import opened Vmm

  ghost predicate AllRam(s: set<int>) { forall p :: p in s ==> InRam(p) }

  // ---------- Freeing ----------

  lemma KidPagesStep(kids: seq<PT>, i: nat, full: bool)
    requires i < |kids|
    ensures KidPages(kids[..i + 1], full) == KidPages(kids[..i], full) + Pages(kids[i], full)
  {
    var a, b := kids[..i + 1], kids[..i];
    forall x ensures x in KidPages(a, full) <==> x in KidPages(b, full) || x in Pages(kids[i], full) {
      if x in KidPages(a, full) {
        var j :| 0 <= j < |a| && x in Pages(a[j], full);
        if j < i { assert b[j] == a[j]; }
      }
      if x in KidPages(b, full) {
        var j :| 0 <= j < |b| && x in Pages(b[j], full);
        assert a[j] == b[j];
      }
      if x in Pages(kids[i], full) { assert a[i] == kids[i]; }
    }
  }

  /** Kid i shares no page with the kids before it or with its table. */
  lemma KidApart(t: PT, i: nat)
    requires t.Table? && Own(t, true) && i < |t.kids|
    ensures Pages(t.kids[i], true) !! KidPages(t.kids[..i], true) && t.pa !in KidPages(t.kids[..i], true)
    ensures Own(t.kids[i], true) && t.pa !in Pages(t.kids[i], true)
  {}

  /** A subtree not touched so far is still represented. */
  lemma StillThere(st0: Mem, gone: set<int>, t: PT, depth: nat)
    requires Repr(st0, t, depth) && gone !! Pages(t, true)
    ensures Repr(st0 - gone, t, depth)
  {
    hide Repr, Pages;
    TablesArePages(t);
    ReprFrame(st0, st0 - gone, t, depth);
  }

  /** freewalk: returns every page below the table exactly once, and touches nothing else. */
  method FreeWalk(ph: Phys, table: int, level: nat, ghost t: PT)
    requires ph.Valid() && t.Table? && t.pa == table && level <= 3 && Repr(ph.Store(), t, level)
    requires Own(t, true) && Pages(t, true) <= ph.Store().Keys && AllRam(Pages(t, true))
    modifies ph
    ensures ph.Valid() && ph.Store() == old(ph.Store()) - KidPages(t.kids, true)
    ensures Elems(ph.free) == Elems(old(ph.free)) + KidPages(t.kids, true)
    decreases t
  {
    hide *;
    ghost var st0, f0 := ph.Store(), ph.free;
    NoKids(t.kids);
    FullTable(st0, t, level);
    var i := 0;
    while i < WORDS
      invariant 0 <= i <= WORDS && ph.Valid()
      invariant ph.Store() == st0 - KidPages(t.kids[..i], true)
      invariant Elems(ph.free) == Elems(f0) + KidPages(t.kids[..i], true)
    {
      ghost var kid, gone := t.kids[i], KidPages(t.kids[..i], true);
      KidIn(t, i, true);
      KidApart(t, i);
      KidPagesStep(t.kids, i, true);
      TableFacts(st0, t, i, level);
      WordFacts(st0, kid, level + 1);
      InUse(ph, table);
      SubRam(Pages(t, true), Pages(kid, true));
      var entry := ph.mem[table][i];
      if IsValid(entry) {
        var pa := Addr(entry);
        if level < 3 {
          TablePages(kid, true);
          StillThere(st0, gone, kid, level + 1);
          FreeWalk(ph, pa, level + 1, kid);
        } else {
          LeafPages(kid);
        }
        ph.Free(pa);
      } else {
        NoPages(true);
      }
      i := i + 1;
    }
    assert t.kids[..WORDS] == t.kids;
  }

  lemma NoKids(kids: seq<PT>)
    ensures KidPages(kids[..0], true) == {}
  {}

  lemma SubRam(s: set<int>, r: set<int>)
    requires AllRam(s) && r <= s
    ensures AllRam(r) && forall p :: p in r ==> InRam(p)
  {}

  lemma TablePages(t: PT, full: bool)
    requires t.Table?
    ensures Pages(t, full) == {t.pa} + KidPages(t.kids, full)
    ensures Own(t, full) ==> t.pa !in KidPages(t.kids, full)
  {}

  lemma LeafPages(t: PT)
    requires t.Leaf?
    ensures Pages(t, true) == {t.pa}
  {}

  /** vmm_free: every table and data page goes back exactly once. */
  method FreeAll(ph: Phys, root: int, ghost t: PT)
    requires ph.Valid() && Held(ph.Store(), t, true) && t.pa == root && AllRam(Pages(t, true))
    modifies ph
    ensures ph.Valid() && ph.Store() == old(ph.Store()) - Pages(t, true)
    ensures Elems(ph.free) == Elems(old(ph.free)) + Pages(t, true)
  {
    HeldParts(ph.Store(), t);
    hide *;
    TablePages(t, true);
    SubRam(Pages(t, true), Pages(t, true));
    FreeWalk(ph, root, 0, t);
    ph.Free(root);
  }

  lemma HeldParts(st: Mem, t: PT)
    requires Held(st, t, true)
    ensures t.Table? && Repr(st, t, 0) && Own(t, true) && Pages(t, true) <= st.Keys
  {}

  // ---------- Copying ----------

  /** Number of tables and mapped pages of a tree. */
  ghost function Count(t: PT): nat
    decreases t
  { match t case Absent => 0 case Leaf(_, _) => 1 case Table(_, kids) => 1 + CountTo(kids, |kids|) }

  ghost function CountTo(kids: seq<PT>, i: nat): nat
    requires i <= |kids|
    decreases kids, i
  { if i == 0 then 0 else CountTo(kids, i - 1) + Count(kids[i - 1]) }

  lemma {:induction false} CountGrows(kids: seq<PT>, i: nat, j: nat)
    requires i <= j <= |kids|
    ensures CountTo(kids, i) <= CountTo(kids, j)
    decreases j
  { if i < j { CountGrows(kids, i, j - 1); } }

  /** In a tree that uses no page twice, the count is the number of its pages. */
  lemma {:induction false} CountIsPages(t: PT)
    requires Own(t, true)
    ensures |Pages(t, true)| == Count(t)
    decreases t, 1, 0
  {
    if t.Table? {
      CountKids(t, |t.kids|);
      assert t.kids[..|t.kids|] == t.kids;
      TableNotKid(t);
    }
  }

  lemma {:induction false} CountKids(t: PT, i: nat)
    requires t.Table? && Own(t, true) && i <= |t.kids|
    ensures |KidPages(t.kids[..i], true)| == CountTo(t.kids, i)
    decreases t, 0, i
  {
    hide Own, Pages, KidPages;
    if i == 0 {
      NoKidPages(t.kids);
    } else {
      KidApart(t, i - 1);
      KidPagesStep(t.kids, i - 1, true);
      CountKids(t, i - 1);
      CountIsPages(t.kids[i - 1]);
    }
  }

  lemma NoKidPages(kids: seq<PT>)
    ensures KidPages(kids[..0], true) == {}
  {}

  lemma TableNotKid(t: PT)
    requires t.Table? && Own(t, true)
    ensures t.pa !in KidPages(t.kids, true) && |Pages(t, true)| == 1 + |KidPages(t.kids, true)|
  {}

  lemma CountStart(s: PT)
    requires s.Table?
    ensures CountTo(s.kids, 0) == 0 && Count(s) == 1 + CountTo(s.kids, |s.kids|)
  {}

  /** What slot i adds to the count. */
  lemma CountSlot(s: PT, i: nat)
    requires s.Table? && |s.kids| == WORDS && i < WORDS
    ensures CountTo(s.kids, 0) == 0 && CountTo(s.kids, i + 1) == CountTo(s.kids, i) + Count(s.kids[i]) <= CountTo(s.kids, WORDS)
    ensures Count(s) == 1 + CountTo(s.kids, WORDS)
    ensures s.kids[i] == Absent ==> Count(s.kids[i]) == 0
    ensures s.kids[i].Leaf? ==> Count(s.kids[i]) == 1
    ensures s.kids[i].Table? ==> Count(s.kids[i]) == 1 + CountTo(s.kids[i].kids, |s.kids[i].kids|)
  { CountGrows(s.kids, i + 1, WORDS); }

  /** d is a copy of s: same shape, same attributes, equal page contents. */
  ghost predicate Copied(st: Mem, st': Mem, s: PT, d: PT) {
    match s
    case Absent => d == Absent
    case Leaf(pa, attr) => d.Leaf? && d.attr == attr && pa in st && d.pa in st' && st'[d.pa] == st[pa]
    case Table(_, kids) =>
      d.Table? && |d.kids| == |kids| && forall i :: 0 <= i < |kids| ==> Copied(st, st', kids[i], d.kids[i])
  }

  lemma {:induction false} CopiedFrame(st: Mem, m: Mem, m': Mem, s: PT, d: PT)
    requires Copied(st, m, s, d)
    requires forall p :: p in Pages(d, true) && p in m ==> p in m' && m'[p] == m[p]
    ensures Copied(st, m', s, d)
    decreases s
  {
    if s.Table? {
      forall i | 0 <= i < |s.kids| ensures Copied(st, m', s.kids[i], d.kids[i]) {
        KidIn(d, i, true);
        CopiedFrame(st, m, m', s.kids[i], d.kids[i]);
      }
    }
  }

  /** The copy maps exactly the pages the source maps, with the same attributes and contents. */
  lemma {:induction false} CopiedLookup(st: Mem, st': Mem, s: PT, d: PT, q: seq<nat>)
    requires Copied(st, st', s, d)
    ensures Copied(st, st', Lookup(s, q), Lookup(d, q))
    decreases q
  {
    if q != [] && s.Table? && q[0] < |s.kids| { CopiedLookup(st, st', s.kids[q[0]], d.kids[q[0]], q[1..]); }
  }

  /** The partial copy dk of a table hangs at dst on exactly the pages taken from the free list. */
  ghost predicate CopyBase(st0: Mem, f0: seq<int>, ph: Phys, dst: int, dk: seq<PT>, level: nat)
    reads ph
  {
    && ph.Valid() && level <= 3 && |dk| == WORDS && dst in ph.Store()
    && Repr(ph.Store(), Table(dst, dk), level) && Own(Table(dst, dk), true)
    && TakenFrom(st0, f0, ph.Store(), ph.free, dst, KidPages(dk, true))
  }

  /** The slots before i are copied and the rest are empty. */
  ghost predicate CopiedTo(st0: Mem, st: Mem, s: PT, dk: seq<PT>, i: nat) {
    && s.Table? && |s.kids| == |dk| == WORDS && i <= WORDS
    && (forall j :: 0 <= j < i ==> Copied(st0, st, s.kids[j], dk[j]))
    && (forall j :: i <= j < WORDS ==> dk[j] == Absent)
  }

  /** The pages in k came from the free list f0; nothing in use but dst changed. */
  ghost predicate TakenFrom(st0: Mem, f0: seq<int>, st: Mem, free: seq<int>, dst: int, k: set<int>) {
    && k <= Elems(f0) && Elems(free) == Elems(f0) - k
    && st.Keys == st0.Keys + k
    && forall p :: p in st0 && p != dst ==> st[p] == st0[p]
  }

  /** Entering slot i: a represented subtree d on pages newly taken, with its entry written. */
  lemma CopySlot(st: Mem, st': Mem, dst: int, dk: seq<PT>, i: nat, d: PT, level: nat)
    requires |dk| == WORDS && i < WORDS && dk[i] == Absent && level <= 3
    requires Repr(st, Table(dst, dk), level) && Own(Table(dst, dk), true) && Pages(Table(dst, dk), true) <= st.Keys
    requires Repr(st', d, level + 1) && Own(d, true) && Pages(d, true) !! st.Keys
    requires dst in st && dst in st' && st'[dst] == st[dst][i := Word(d)]
    requires forall p :: p in st && p != dst ==> p in st' && st'[p] == st[p]
    ensures Repr(st', Table(dst, dk[i := d]), level) && Own(Table(dst, dk[i := d]), true)
    ensures KidPages(dk[i := d], true) == KidPages(dk, true) + Pages(d, true)
    ensures forall j :: 0 <= j < WORDS && j != i ==> dst !in Pages(dk[j], true) && Pages(dk[j], true) <= st.Keys
  {
    hide Repr, Own, Pages, Word;
    var t := Table(dst, dk);
    NoPages(true);
    forall j | 0 <= j < WORDS ensures Repr(st', dk[j], level + 1) && dst !in Pages(dk[j], true) && Pages(dk[j], true) <= st.Keys {
      TableFacts(st, t, j, level);
      KidIn(t, j, true);
      OwnKid(t, j, true);
      TablesArePages(dk[j]);
      ReprFrame(st, st', dk[j], level + 1);
    }
    AssembleRepr(st, st', t, i, d, level);
    TablePages(t, true);
    KidReplace(t, i, d, true);
    TablePages(Table(dst, dk[i := d]), true);
    OwnHead(dst, dk);
    OwnHead(dst, dk[i := d]);
  }

  lemma OwnHead(dst: int, dk: seq<PT>)
    requires Own(Table(dst, dk), true)
    ensures dst !in KidPages(dk, true)
  {}

  lemma CopyStart(ph: Phys, s: PT, dst: int, level: nat)
    requires ph.Valid() && level <= 3 && s.Table? && Repr(ph.Store(), s, level)
    requires dst in ph.Store() && ph.Store()[dst] == ZeroPage() && PaOk(dst)
    ensures CopyBase(ph.Store(), ph.free, ph, dst, EmptyTable(dst).kids, level)
    ensures CopiedTo(ph.Store(), ph.Store(), s, EmptyTable(dst).kids, 0)
  {}

  lemma BaseParts(st0: Mem, f0: seq<int>, ph: Phys, dst: int, dk: seq<PT>, level: nat)
    requires CopyBase(st0, f0, ph, dst, dk, level)
    ensures ph.Valid() && level <= 3 && |dk| == WORDS && dst in ph.Store()
    ensures Repr(ph.Store(), Table(dst, dk), level) && Own(Table(dst, dk), true)
    ensures TakenFrom(st0, f0, ph.Store(), ph.free, dst, KidPages(dk, true))
    ensures Pages(Table(dst, dk), true) <= ph.Store().Keys
  {}

  lemma BasePack(st0: Mem, f0: seq<int>, ph: Phys, dst: int, dk: seq<PT>, level: nat)
    requires ph.Valid() && level <= 3 && |dk| == WORDS && dst in ph.Store()
    requires Repr(ph.Store(), Table(dst, dk), level) && Own(Table(dst, dk), true)
    requires TakenFrom(st0, f0, ph.Store(), ph.free, dst, KidPages(dk, true))
    ensures CopyBase(st0, f0, ph, dst, dk, level)
  {}

  lemma CopiedToParts(st0: Mem, st: Mem, s: PT, dk: seq<PT>, i: nat)
    requires CopiedTo(st0, st, s, dk, i)
    ensures s.Table? && |s.kids| == |dk| == WORDS && i <= WORDS && (i < WORDS ==> dk[i] == Absent)
  {}

  /** Filling slot i with a copy extends the copied part; earlier slots are on other pages. */
  lemma CopiedToStep(st0: Mem, st: Mem, st': Mem, s: PT, dst: int, dk: seq<PT>, i: nat, d: PT)
    requires CopiedTo(st0, st, s, dk, i) && i < WORDS && Copied(st0, st', s.kids[i], d)
    requires forall j :: 0 <= j < WORDS && j != i ==> dst !in Pages(dk[j], true) && Pages(dk[j], true) <= st.Keys
    requires forall p :: p in st && p != dst ==> p in st' && st'[p] == st[p]
    ensures CopiedTo(st0, st', s, dk[i := d], i + 1)
  {
    hide Copied, Pages;
    forall j | 0 <= j < i ensures Copied(st0, st', s.kids[j], dk[j]) { CopiedFrame(st0, st, st', s.kids[j], dk[j]); }
  }

  lemma CopiedToSkip(st0: Mem, st: Mem, s: PT, dk: seq<PT>, i: nat)
    requires CopiedTo(st0, st, s, dk, i) && i < WORDS && s.kids[i] == Absent
    ensures CopiedTo(st0, st, s, dk, i + 1)
  {}

  /** The source side only matters on the source's own pages. */
  lemma {:induction false} CopiedSource(st: Mem, m: Mem, st': Mem, s: PT, d: PT)
    requires Copied(m, st', s, d) && Pages(s, true) <= st.Keys
    requires forall p :: p in Pages(s, true) && p in m ==> st[p] == m[p]
    ensures Copied(st, st', s, d)
    decreases s
  {
    if s.Table? {
      forall i | 0 <= i < |s.kids| ensures Copied(st, st', s.kids[i], d.kids[i]) {
        KidIn(s, i, true);
        CopiedSource(st, m, st', s.kids[i], d.kids[i]);
      }
    }
  }

  /** Taking a page for a slot, then more pages below it. */
  lemma TakenMore(st0: Mem, f0: seq<int>, st1: Mem, f1: seq<int>, dst: int, k1: set<int>,
                  pa: int, st2: Mem, f2: seq<int>, st3: Mem, f3: seq<int>, k2: set<int>)
    requires TakenFrom(st0, f0, st1, f1, dst, k1) && dst in st0 && f1 != [] && pa == f1[0] && f2 == f1[1..] && Ascending(f1)
    requires st2.Keys == st1.Keys + {pa} && forall p :: p in st1 && p != dst ==> st2[p] == st1[p]
    requires pa !in st1 && TakenFrom(st2, f2, st3, f3, pa, k2)
    requires forall x :: x in f1 ==> x !in st1
    ensures TakenFrom(st0, f0, st3, f3, dst, k1 + ({pa} + k2))
    ensures {pa} + k2 <= Elems(f1) && ({pa} + k2) !! st1.Keys
    ensures dst in st3 && st3[dst] == st2[dst]
    ensures forall p :: p in st1 && p != dst ==> p in st3 && st3[p] == st1[p]
  {
    TailElems(f1);
    assert pa in Elems(f1);
  }

  lemma TakenNothing(st: Mem, f: seq<int>, dst: int)
    ensures TakenFrom(st, f, st, f, dst, {})
  {}

  /** The source subtree, seen from any later state of the copy. */
  lemma SourceKept(st0: Mem, f0: seq<int>, st: Mem, f: seq<int>, dst: int, k: set<int>, st2: Mem, kid: PT, depth: nat)
    requires TakenFrom(st0, f0, st, f, dst, k) && Repr(st0, kid, depth) && Pages(kid, true) <= st0.Keys && dst !in Pages(kid, true)
    requires forall p :: p in st && p != dst ==> p in st2 && st2[p] == st[p]
    ensures Repr(st2, kid, depth) && Pages(kid, true) <= st2.Keys
    ensures forall p :: p in Pages(kid, true) ==> p in st2 && st2[p] == st0[p]
  {
    hide Repr, Pages;
    TablesArePages(kid);
    forall p | p in Pages(kid, true) ensures p in st2 && st2[p] == st0[p] { assert p in st; }
    ReprFrame(st0, st2, kid, depth);
  }

  /** copywalk: fills the zeroed table dst with a copy of src on fresh pages. It may stop early when
      memory runs out; the pages taken are then exactly those reachable from dst. */
  method CopyWalk(ph: Phys, dst: int, src: int, level: nat, ghost s: PT) returns (r: int, ghost dk: seq<PT>)
    requires ph.Valid() && level <= 3 && s.Table? && s.pa == src && Repr(ph.Store(), s, level) && Pages(s, true) <= ph.Store().Keys
    requires dst in ph.Store() && ph.Store()[dst] == ZeroPage() && PaOk(dst) && dst !in Pages(s, true)
    modifies ph
    ensures r == 0 || r == -1
    ensures CopyBase(old(ph.Store()), old(ph.free), ph, dst, dk, level)
    ensures r == 0 ==> CopiedTo(old(ph.Store()), ph.Store(), s, dk, WORDS) && |old(ph.free)| == |ph.free| + CountTo(s.kids, |s.kids|)
    ensures r == -1 ==> |old(ph.free)| < CountTo(s.kids, |s.kids|)
    decreases s, 1
  {
    hide *;
    ghost var st0, f0 := ph.Store(), ph.free;
    dk := EmptyTable(dst).kids;
    CopyStart(ph, s, dst, level);
    FullTable(st0, s, level);
    CountStart(s);
    var i := 0;
    while i < WORDS
      invariant 0 <= i <= WORDS && CopyBase(st0, f0, ph, dst, dk, level) && CopiedTo(st0, ph.Store(), s, dk, i)
      invariant |f0| == |ph.free| + CountTo(s.kids, i)
    {
      CountSlot(s, i);
      BaseParts(st0, f0, ph, dst, dk, level);
      ghost var kid := s.kids[i];
      KidIn(s, i, true);
      TableFacts(st0, s, i, level);
      WordFacts(st0, kid, level + 1);
      SourceEntry(st0, f0, ph, dst, dk, s, level);
      var entry := ph.mem[src][i];
      if IsValid(entry) {
        if level < 3 {
          r, dk := CopyTable(ph, dst, i, Addr(entry), level, kid, s, dk, st0, f0);
        } else {
          r, dk := CopyPage(ph, dst, i, entry, kid, s, dk, st0, f0);
        }
        if r < 0 { return; }
      } else {
        CopiedToSkip(st0, ph.Store(), s, dk, i);
      }
      i := i + 1;
    }
    r := 0;
  }

  lemma SourceEntry(st0: Mem, f0: seq<int>, ph: Phys, dst: int, dk: seq<PT>, s: PT, level: nat)
    requires CopyBase(st0, f0, ph, dst, dk, level) && s.Table? && s.pa in st0 && Repr(st0, s, level) && dst !in Pages(s, true)
    ensures s.pa in ph.mem && ph.mem[s.pa] == st0[s.pa]
  {}

  /** One slot above the last level: a new table, filled recursively. */
  method CopyTable(ph: Phys, dst: int, i: nat, srcPa: int, level: nat, ghost kid: PT, ghost s: PT, ghost dk: seq<PT>, ghost st0: Mem, ghost f0: seq<int>)
    returns (r: int, ghost dk': seq<PT>)
    requires CopyBase(st0, f0, ph, dst, dk, level) && CopiedTo(st0, ph.Store(), s, dk, i) && i < WORDS && level < 3 && dst in st0
    requires kid < s && s.kids[i] == kid && kid.Table? && kid.pa == srcPa
    requires Repr(st0, kid, level + 1) && Pages(kid, true) <= st0.Keys && dst !in Pages(kid, true)
    modifies ph
    ensures (r == 0 || r == -1) && CopyBase(st0, f0, ph, dst, dk', level)
    ensures r == 0 ==> CopiedTo(st0, ph.Store(), s, dk', i + 1) && |old(ph.free)| == |ph.free| + 1 + CountTo(kid.kids, |kid.kids|)
    ensures r == -1 ==> |old(ph.free)| < 1 + CountTo(kid.kids, |kid.kids|)
    decreases s, 0
  {
    hide *;
    BaseParts(st0, f0, ph, dst, dk, level);
    CopiedToParts(st0, ph.Store(), s, dk, i);
    ghost var st1, f1 := ph.Store(), ph.free;
    ValidParts(ph);
    FreeNotUsed(ph);
    var pa := AddTable(ph, dst, i);
    if pa == PMM_INVALID {
      BasePack(st0, f0, ph, dst, dk, level);
      return -1, dk;
    }
    ghost var st2, f2 := ph.Store(), ph.free;
    RamPage(pa);
    SourceKept(st0, f0, st1, f1, dst, KidPages(dk, true), st2, kid, level + 1);
    TakenKeys(st0, f0, st1, f1, dst, KidPages(dk, true));
    ghost var ck;
    r, ck := CopyWalk(ph, pa, srcPa, level + 1, kid);
    BaseParts(st2, f2, ph, pa, ck, level + 1);
    TakenMore(st0, f0, st1, f1, dst, KidPages(dk, true), pa, st2, f2, ph.Store(), ph.free, KidPages(ck, true));
    ghost var d := Table(pa, ck);
    TablePages(d, true);
    WordOfTable(pa, ck);
    CopySlot(st1, ph.Store(), dst, dk, i, d, level);
    dk' := dk[i := d];
    BasePack(st0, f0, ph, dst, dk', level);
    if r == 0 {
      CopiedTable(st2, ph.Store(), kid, pa, ck);
      CopiedSource(st0, st2, ph.Store(), kid, d);
      CopiedToStep(st0, st1, ph.Store(), s, dst, dk, i, d);
    }
  }

  lemma TakenKeys(st0: Mem, f0: seq<int>, st: Mem, f: seq<int>, dst: int, k: set<int>)
    requires TakenFrom(st0, f0, st, f, dst, k)
    ensures st0.Keys <= st.Keys
  {}

  lemma WordOfTable(pa: int, ck: seq<PT>)
    ensures Word(Table(pa, ck)) == pa + VALID_BITS
  {}

  lemma CopiedTable(m: Mem, st: Mem, kid: PT, pa: int, ck: seq<PT>)
    requires CopiedTo(m, st, kid, ck, WORDS)
    ensures Copied(m, st, kid, Table(pa, ck))
  {}

  /** One slot of the last level: a new page with the same contents and attributes. */
  method CopyPage(ph: Phys, dst: int, i: nat, entry: int, ghost kid: PT, ghost s: PT, ghost dk: seq<PT>, ghost st0: Mem, ghost f0: seq<int>)
    returns (r: int, ghost dk': seq<PT>)
    requires CopyBase(st0, f0, ph, dst, dk, 3) && CopiedTo(st0, ph.Store(), s, dk, i) && i < WORDS && dst in st0
    requires s.kids[i] == kid && kid.Leaf? && Word(kid) == entry && Repr(st0, kid, 4)
    requires Pages(kid, true) <= st0.Keys && dst !in Pages(kid, true)
    modifies ph
    ensures (r == 0 || r == -1) && CopyBase(st0, f0, ph, dst, dk', 3)
    ensures r == 0 ==> CopiedTo(st0, ph.Store(), s, dk', i + 1) && |old(ph.free)| == |ph.free| + 1
    ensures r == -1 ==> old(ph.free) == []
  {
    hide *;
    BaseParts(st0, f0, ph, dst, dk, 3);
    CopiedToParts(st0, ph.Store(), s, dk, i);
    ghost var st1, f1 := ph.Store(), ph.free;
    ValidParts(ph);
    FreeNotUsed(ph);
    LeafPages(kid);
    LeafFacts(st0, kid);
    SourceKept(st0, f0, st1, f1, dst, KidPages(dk, true), st1, kid, 4);
    var srcPa := Addr(entry);
    var pa := ph.Alloc();
    if f1 != [] { RamPage(pa); }
    if pa == PMM_INVALID {
      SameStore(ph.mem, f1, st1, ph);
      BasePack(st0, f0, ph, dst, dk, 3);
      return -1, dk;
    }
    InUse(ph, srcPa);
    var page := ph.mem[srcPa];
    ph.SetPage(pa, page);
    ph.SetWord(dst, i, entry - srcPa + pa);
    ghost var d := Leaf(pa, kid.attr);
    LeafPages(d);
    CopyLeaf(ph.Store(), pa, kid.attr);
    ghost var st2 := ph.Store();
    TakenNothing(st2, ph.free, pa);
    TakenMore(st0, f0, st1, f1, dst, KidPages(dk, true), pa, st2, ph.free, st2, ph.free, {});
    assert {pa} + {} == {pa};
    CopySlot(st1, st2, dst, dk, i, d, 3);
    dk' := dk[i := d];
    BasePack(st0, f0, ph, dst, dk', 3);
    CopiedLeaf(st0, st2, kid, d);
    CopiedToStep(st0, st1, st2, s, dst, dk, i, d);
    r := 0;
  }

  lemma LeafFacts(st: Mem, kid: PT)
    requires kid.Leaf? && Repr(st, kid, 4)
    ensures Addr(Word(kid)) == kid.pa && Word(kid) == kid.pa + kid.attr && AttrOk(kid.attr)
  { WordDecodes(kid.pa, kid.attr); }

  lemma CopyLeaf(st: Mem, pa: int, attr: int)
    requires PaOk(pa) && AttrOk(attr)
    ensures Repr(st, Leaf(pa, attr), 4) && Own(Leaf(pa, attr), true) && Word(Leaf(pa, attr)) == pa + attr
  {}

  lemma CopiedLeaf(st: Mem, st': Mem, kid: PT, d: PT)
    requires kid.Leaf? && d.Leaf? && d.attr == kid.attr && kid.pa in st && d.pa in st' && st'[d.pa] == st[kid.pa]
    ensures Copied(st, st', kid, d)
  {}

  /** vmm_copy. On success the new tree maps the same pages with the same attributes and contents, on
      pages taken from the free list and disjoint from everything in use, and the source and every
      other page in use are unchanged. On failure memory, free list and count are as before. It fails
      exactly when there are fewer free pages than the source has tables and mapped pages. */
  method Copy(ph: Phys, src: int, ghost s: PT) returns (root: int, ghost d: PT)
    requires ph.Valid() && Held(ph.Store(), s, true) && s.pa == src
    modifies ph
    ensures ph.Valid()
    ensures root == NULL <==> |old(ph.free)| < Count(s)
    ensures root == NULL ==>
              ph.mem == old(ph.mem) && ph.free == old(ph.free) && ph.freelist == old(ph.freelist) && ph.freeCount == old(ph.freeCount)
    ensures root != NULL ==>
              && d.Table? && d.pa == root && Held(ph.Store(), d, true)
              && Copied(old(ph.Store()), ph.Store(), s, d)
              && Pages(d, true) <= Elems(old(ph.free)) && Pages(d, true) !! old(ph.Store()).Keys
              && Elems(ph.free) == Elems(old(ph.free)) - Pages(d, true)
              && KeepsOutside(old(ph.Store()), ph.Store(), {})
  {
    hide *;
    HeldParts(ph.Store(), s);
    ValidParts(ph);
    FreeNotUsed(ph);
    FreeRam(ph);
    ghost var st0, f0, m0 := ph.Store(), ph.free, ph.mem;
    FullTable(st0, s, 0);
    CountStart(s);
    d := Absent;
    root := ph.Alloc();
    if f0 != [] { RamPage(root); }
    if root == PMM_INVALID { return NULL, d; }
    ghost var st1, f1 := ph.Store(), ph.free;
    SourceAfter(st0, st1, s, root);
    var r;
    ghost var dk;
    r, dk := CopyWalk(ph, root, src, 0, s);
    BaseParts(st1, f1, ph, root, dk, 0);
    d := Table(root, dk);
    CopyTotals(st0, f0, st1, f1, ph.Store(), ph.free, root, dk);
    HeldPack(ph.Store(), d);
    if r < 0 {
      SubRam(Elems(f0), Pages(d, true));
      FreeAll(ph, root, d);
      SameImage(m0, f0, ph);
      return NULL, d;
    }
    CopiedTable(st1, ph.Store(), s, root, dk);
    CopiedSource(st0, st1, ph.Store(), s, d);
  }

  lemma FreeRam(ph: Phys)
    requires ph.Valid()
    ensures AllRam(Elems(ph.free))
  {}

  lemma HeldPack(st: Mem, d: PT)
    requires d.Table? && Repr(st, d, 0) && Own(d, true) && Pages(d, true) <= st.Keys
    ensures Held(st, d, true)
  {}

  lemma SourceAfter(st0: Mem, st1: Mem, s: PT, root: int)
    requires Repr(st0, s, 0) && Pages(s, true) <= st0.Keys && root !in st0
    requires st1.Keys == st0.Keys + {root} && forall p :: p in st0 ==> st1[p] == st0[p]
    ensures Repr(st1, s, 0) && Pages(s, true) <= st1.Keys && root !in Pages(s, true)
  {
    hide Repr, Pages;
    ReprFrame(st0, st1, s, 0);
  }

  lemma CopyTotals(st0: Mem, f0: seq<int>, st1: Mem, f1: seq<int>, st: Mem, f: seq<int>, root: int, dk: seq<PT>)
    requires TakenFrom(st1, f1, st, f, root, KidPages(dk, true)) && root !in st0
    requires st1.Keys == st0.Keys + {root} && forall p :: p in st0 ==> st1[p] == st0[p]
    requires Ascending(f0) && f0 != [] && root == f0[0] && f1 == f0[1..] && forall x :: x in f0 ==> x !in st0
    ensures var pages := Pages(Table(root, dk), true);
            && pages <= Elems(f0) && pages !! st0.Keys && pages <= st.Keys
            && Elems(f) == Elems(f0) - pages && Elems(f) + pages == Elems(f0)
            && st - pages == st0 && KeepsOutside(st0, st, {})
  {
    TablePages(Table(root, dk), true);
    TailElems(f0);
    assert root in Elems(f0);
    var pages := Pages(Table(root, dk), true);
    forall p ensures p in st - pages <==> p in st0 {}
    forall p | p in st0 ensures st[p] == st0[p] { assert p in st1 && p != root; }
  }

  // ---------- Validating a user range ----------

  function PageOf(a: int): int { a - a % PAGE_SIZE }

  /** Every page from lo up to hi is accessible. */
  ghost predicate RangeOk(t: PT, lo: int, hi: int, write: bool) {
    forall page :: page % PAGE_SIZE == 0 && lo <= page < hi ==> Accessible(t, page, write)
  }

  predicate Aligned(page: int) { page % PAGE_SIZE == 0 }

  lemma RangeStep(t: PT, lo: int, page: int, write: bool)
    requires Aligned(page) && lo <= page && RangeOk(t, lo, page, write)
    ensures RangeOk(t, lo, page + PAGE_SIZE, write) <==> Accessible(t, page, write)
  {
    hide Accessible;
    forall p | p % PAGE_SIZE == 0 && page <= p < page + PAGE_SIZE ensures p == page {}
  }

  /** The pages touched by a nonempty range are those up to the page of its last byte. */
  lemma RangeEnd(t: PT, lo: int, last: int, write: bool)
    ensures RangeOk(t, lo, PageOf(last) + PAGE_SIZE, write) <==> RangeOk(t, lo, last + 1, write)
  {
    hide Accessible;
    forall p | p % PAGE_SIZE == 0 && p < PageOf(last) + PAGE_SIZE ensures p < last + 1 {}
  }

  lemma RangeShrinks(t: PT, lo: int, mid: int, hi: int, write: bool)
    requires mid <= hi && !RangeOk(t, lo, mid, write)
    ensures !RangeOk(t, lo, hi, write)
  {}

  /** A range inside one page is as accessible as any address of the page: with what MapPage says of
      a new mapping, the page passes for reading, and for writing exactly if it was mapped writable. */
  lemma OnePage(t: PT, va: int, len: int, write: bool)
    requires 0 < len && va % PAGE_SIZE + len <= PAGE_SIZE
    ensures RangeOk(t, PageOf(va), va + len, write) <==> Accessible(t, va, write)
  {
    hide PathOf;
    PageStart(va);
    PathExact(PageOf(va), va);
    hide PageOf, Accessible;
    assert RangeOk(t, PageOf(va), va + len, write) ==> Accessible(t, PageOf(va), write);
    assert Accessible(t, PageOf(va), write) <==> Accessible(t, va, write) by { AccessibleAt(t, va, write); AccessibleAt(t, PageOf(va), write); }
    forall p | p % PAGE_SIZE == 0 && PageOf(va) <= p < va + len ensures p == PageOf(va) { SamePage(va, len, p); }
  }

  lemma PageStart(va: int)
    ensures Aligned(PageOf(va)) && PageOf(va) <= va && PageOf(va) / PAGE_SIZE == va / PAGE_SIZE
  {}

  lemma SamePage(va: int, len: int, p: int)
    requires va % PAGE_SIZE + len <= PAGE_SIZE && Aligned(p) && PageOf(va) <= p < va + len
    ensures p == PageOf(va)
  {}

  lemma PageOfAligned(a: int, start: int)
    requires Aligned(start) && start <= a
    ensures Aligned(PageOf(a)) && start <= PageOf(a) <= a && PAGE_SIZE > 0
  {}

  lemma AlignedStep(page: int, end: int)
    requires Aligned(page) && Aligned(end)
    ensures Aligned(page + PAGE_SIZE) && (page > end ==> page >= end + PAGE_SIZE) && PAGE_SIZE > 0
  {}

  lemma NothingYet(t: PT, lo: int, write: bool)
    ensures RangeOk(t, lo, lo, write)
  {}

  /** vmm_validate: accepts exactly the empty range and the ranges below the user limit, without
      wrap-around, all of whose pages are accessible; changes nothing. */
  method Validate(ph: Phys, root: int, va: int, len: int, write: bool, ghost t: PT) returns (r: int)
    requires ph.Valid() && Held(ph.Store(), t, false) && t.pa == root && 0 <= va < TWO64 && 0 <= len < TWO64
    modifies ph
    ensures ph.mem == old(ph.mem) && ph.free == old(ph.free) && ph.freelist == old(ph.freelist) && ph.freeCount == old(ph.freeCount)
    ensures r == 0 || r == -1
    ensures r == 0 <==> len == 0 || (va + len <= USER_STACK && RangeOk(t, PageOf(va), va + len, write))
  {
    if len == 0 { return 0; }
    if (va + len) % TWO64 < va { return -1; }
    if va >= USER_STACK || va + len > USER_STACK { return -1; }
    r := ValidatePages(ph, root, PageOf(va), va + len - 1, write, t);
  }

  method ValidatePages(ph: Phys, root: int, start: int, last: int, write: bool, ghost t: PT) returns (r: int)
    requires ph.Valid() && Held(ph.Store(), t, false) && t.pa == root && Aligned(start) && start <= last
    modifies ph
    ensures ph.mem == old(ph.mem) && ph.free == old(ph.free) && ph.freelist == old(ph.freelist) && ph.freeCount == old(ph.freeCount)
    ensures r == 0 || r == -1
    ensures r == 0 <==> RangeOk(t, start, last + 1, write)
  {
    hide *;
    var page, end := start, PageOf(last);
    ghost var m0, f0, st0 := ph.mem, ph.free, ph.Store();
    ValidParts(ph);
    PageOfAligned(last, start);
    RangeEnd(t, start, last, write);
    NothingYet(t, page, write);
    while page <= end
      invariant Aligned(page) && start <= page <= end + PAGE_SIZE
      invariant ph.Valid() && ph.mem == m0 && ph.free == f0 && ph.freelist == old(ph.freelist) && ph.freeCount == old(ph.freeCount)
      invariant RangeOk(t, start, page, write)
      decreases end + PAGE_SIZE - page
    {
      SameStore(m0, f0, st0, ph);
      var ok := CheckPage(ph, root, page, write, t);
      RangeStep(t, start, page, write);
      AlignedStep(page, end);
      if !ok {
        RangeShrinks(t, start, page + PAGE_SIZE, end + PAGE_SIZE, write);
        return -1;
      }
      page := page + PAGE_SIZE;
    }
    AlignedStep(page, end);
    return 0;
  }

  method CheckPage(ph: Phys, root: int, page: int, write: bool, ghost t: PT) returns (ok: bool)
    requires ph.Valid() && Held(ph.Store(), t, false) && t.pa == root
    modifies ph
    ensures ph.Valid()
    ensures ph.mem == old(ph.mem) && ph.free == old(ph.free) && ph.freelist == old(ph.freelist) && ph.freeCount == old(ph.freeCount)
    ensures ok <==> Accessible(t, page, write)
  {
    hide *;
    var path := PathOf(page);
    ghost var st0, m0, f0 := ph.Store(), ph.mem, ph.free;
    ValidParts(ph);
    AccessibleAt(t, page, write);
    FullPath(path);
    var table;
    ghost var t';
    table, t' := Walk(ph, root, page, false, t, false);
    if table == NULL {
      if Lookup(t, path) != Absent { MappedHasTables(t, path); }
      return false;
    }
    SameStore(m0, f0, st0, ph);
    WalkUnpack(ph.Store(), t, t', path, 3, table, f0[..|f0| - |ph.free|], false);
    WalkEntry(st0, t, path, 3, false);
    InUse(ph, table);
    var w := ph.mem[table][path[3]];
    ok := IsValid(w) && UserBit(w) && (!write || !ReadOnlyBit(w));
  }

  lemma AccessibleAt(t: PT, page: int, write: bool)
    ensures Accessible(t, page, write) <==>
              var e := Lookup(t, PathOf(page)); e.Leaf? && UserBit(Word(e)) && (write ==> !ReadOnlyBit(Word(e)))
  {}
}
