/** User page tables over the page allocator: walking with rollback, mapping, unmapping,
    freeing and deep copy. */
module Vmm {
  import opened Arith
  import opened Pmm
  import opened PageTable

  const NULL: int := -1
  const USER_STACK: int := TWO48
  const TWO64: int := 0x1_0000_0000_0000_0000

  /** L0 to L3 table indices of a virtual address. */
  function PathOf(va: int): (p: seq<nat>)
    ensures |p| == 4 && PathOk(p)
  {
    [va / 0x80_0000_0000 % 512, va / 0x4000_0000 % 512, va / 0x20_0000 % 512, va / 0x1000 % 512]
  }

  /** The page number with these four base-512 digits. */
  function PageNumber(p: seq<nat>): nat
    requires |p| == 4
  { p[3] + 512 * (p[2] + 512 * (p[1] + 512 * p[0])) }

  /** Two addresses have the same path exactly when they lie in the same page of the 48-bit space. */
  lemma PathExact(x: int, y: int)
    ensures PageNumber(PathOf(x)) == x / PAGE_SIZE % FRAMES
    ensures PathOf(x) == PathOf(y) <==> x / PAGE_SIZE % FRAMES == y / PAGE_SIZE % FRAMES
  {
    hide PathOf, PageNumber;
    PathDigits(x);
    PathDigits(y);
    if PageNumber(PathOf(x)) == PageNumber(PathOf(y)) { Digits(PathOf(x), PathOf(y)); }
  }

  lemma PathDigits(x: int)
    ensures PageNumber(PathOf(x)) == x / PAGE_SIZE % FRAMES
  {
    var n := x / PAGE_SIZE;
    assert x / 0x20_0000 == n / 512 && x / 0x4000_0000 == n / 512 / 512 && x / 0x80_0000_0000 == n / 512 / 512 / 512;
    DigitStep(n, 512 * 512 * 512);
    DigitStep(n / 512, 512 * 512);
    DigitStep(n / 512 / 512, 512);
  }

  lemma DigitStep(n: int, m: int)
    requires m > 0
    ensures n % (512 * m) == n % 512 + 512 * (n / 512 % m)
  {
    var q, r := n / 512 / m, n / 512 % m;
    assert n == 512 * (m * q + r) + n % 512 == (512 * m) * q + (512 * r + n % 512) by { assert 512 * (m * q) == (512 * m) * q; }
    ModUnique(n, 512 * m, q, 512 * r + n % 512);
  }

  lemma Digits(p: seq<nat>, q: seq<nat>)
    requires |p| == 4 && PathOk(p) && |q| == 4 && PathOk(q) && PageNumber(p) == PageNumber(q)
    ensures p == q
  {
    OneDigit(p[3], p[2] + 512 * (p[1] + 512 * p[0]), q[3], q[2] + 512 * (q[1] + 512 * q[0]));
    OneDigit(p[2], p[1] + 512 * p[0], q[2], q[1] + 512 * q[0]);
    OneDigit(p[1], p[0], q[1], q[0]);
  }

  lemma OneDigit(a: nat, x: nat, b: nat, y: nat)
    requires a < 512 && b < 512 && a + 512 * x == b + 512 * y
    ensures a == b && x == y
  {}

  /** make_page_desc_user without the address: AF, inner shareable, normal memory, page, valid,
      access bits, execute-never for the kernel and, unless exec, for the user. */
  function PageAttr(write: bool, exec: bool): int {
    0x400 + 0x300 + 4 + VALID_BITS + (if write then 0x40 else 0xC0)
    + (if exec then 0 else 0x40_0000_0000_0000) + 0x20_0000_0000_0000
  }

  predicate UserBit(w: int) { w / 64 % 2 == 1 }
  predicate ReadOnlyBit(w: int) { w / 128 % 2 == 1 }

  /** The page is mapped, open to user mode and, if needed, writable. */
  ghost predicate Accessible(t: PT, page: int, write: bool) {
    var e := Lookup(t, PathOf(page));
    e.Leaf? && UserBit(Word(e)) && (write ==> !ReadOnlyBit(Word(e)))
  }

  /** The bits of a page descriptor, from its address and what was asked for. */
  lemma DescriptorBits(pa: int, write: bool, exec: bool)
    requires PaOk(pa)
    ensures var w := pa + PageAttr(write, exec);
            && Addr(w) == pa && w % 4 == 3 && w / 4 % 8 == 1 && w / 0x100 % 4 == 3 && w / 0x400 % 2 == 1
            && UserBit(w) && (ReadOnlyBit(w) <==> !write)
            && w / 0x20_0000_0000_0000 == if exec then 1 else 3
  {
    hide Addr, PageAttr;
    AttrParts(write, exec);
    WordDecodes(pa, PageAttr(write, exec));
    var h, low := if exec then 1 else 3, if write then 0x747 else 0x7C7;
    var w, q := pa + PageAttr(write, exec), pa / PAGE_SIZE + 0x200_0000_0000 * h;
    Field(q, low, 1, 4, 1024);
    Field(q, low, 4, 8, 128);
    Field(q, low, 0x100, 4, 4);
    Field(q, low, 0x400, 2, 2);
    Field(q, low, 64, 2, 32);
    Field(q, low, 128, 2, 16);
    assert w == PAGE_SIZE * q + low;
  }

  lemma AttrParts(write: bool, exec: bool)
    ensures AttrOk(PageAttr(write, exec))
    ensures PageAttr(write, exec) == 0x20_0000_0000_0000 * (if exec then 1 else 3) + (if write then 0x747 else 0x7C7)
  {}

  /** A field of d's multiples below the page size is read from the low bits alone. */
  lemma Field(q: int, low: int, d: int, m: int, k: int)
    requires d > 0 && m > 0 && d * m * k == PAGE_SIZE
    ensures (PAGE_SIZE * q + low) / d % m == low / d % m
  {
    assert PAGE_SIZE * q + low == d * (m * (k * q) + low / d) + low % d by { assert d * m * k * q == d * (m * (k * q)); }
    ModUnique(PAGE_SIZE * q + low, d, m * (k * q) + low / d, low % d);
    assert m * (k * q) + low / d == m * (k * q + low / d / m) + low / d % m;
    ModUnique(m * (k * q) + low / d, m, k * q + low / d / m, low / d % m);
  }

  /** Both trees map the same pages the same way. */
  ghost predicate SameMap(t: PT, t': PT) {
    forall q: seq<nat> :: |q| == 4 ==> Lookup(t', q) == Lookup(t, q)
  }

  /** A page table held in the store: laid out there, no page used twice, all pages in use. */
  ghost predicate Held(store: Mem, t: PT, full: bool) {
    t.Table? && Repr(store, t, 0) && Own(t, full) && Pages(t, full) <= store.Keys
  }

  /** Tables missing on the way to the slot p. */
  function Missing(t: PT, p: seq<nat>): nat
    decreases p
  {
    if p == [] then 0
    else if t.Table? && p[0] < |t.kids| && t.kids[p[0]].Table? then Missing(t.kids[p[0]], p[1..])
    else |p|
  }

  // ---------- Undoing one allocation of the walk ----------

  ghost predicate UndoStep(a: Mem, b: Mem, tb: int, i: nat, pa: int) {
    && tb in a && pa !in a && i < WORDS && a[tb][i] == 0
    && b == a[pa := ZeroPage()][tb := a[tb][i := pa + VALID_BITS]]
  }

  lemma UndoRestores(a: Mem, b: Mem, tb: int, i: nat, pa: int)
    requires UndoStep(a, b, tb, i, pa)
    ensures tb in b && b[tb := b[tb][i := 0]] - {pa} == a
  {
    assert b[tb][i := 0] == a[tb];
  }

  /** The states the walk went through, each undoable from the next. */
  ghost predicate UndoChain(stores: seq<Mem>, entT: seq<int>, entI: seq<nat>, pas: seq<int>) {
    && |entT| == |entI| == |pas| && |stores| == |pas| + 1
    && forall j :: 0 <= j < |pas| ==> UndoStep(stores[j], stores[j + 1], entT[j], entI[j], pas[j]) && InRam(pas[j])
  }

  lemma ChainLength(stores: seq<Mem>, entT: seq<int>, entI: seq<nat>, pas: seq<int>)
    requires UndoChain(stores, entT, entI, pas)
    ensures |entT| == |entI| == |pas| && |stores| == |pas| + 1
  {}

  lemma ChainAt(stores: seq<Mem>, entT: seq<int>, entI: seq<nat>, pas: seq<int>, j: nat)
    requires UndoChain(stores, entT, entI, pas) && j < |pas|
    ensures |entT| == |entI| == |pas| && |stores| == |pas| + 1
    ensures UndoStep(stores[j], stores[j + 1], entT[j], entI[j], pas[j]) && InRam(pas[j])
  {}

  lemma ChainStart(st: Mem)
    ensures UndoChain([st], [], [], [])
  {}

  lemma ChainGrow(stores: seq<Mem>, entT: seq<int>, entI: seq<nat>, pas: seq<int>, st: Mem, tb: int, i: nat, pa: int)
    requires UndoChain(stores, entT, entI, pas) && UndoStep(stores[|pas|], st, tb, i, pa) && InRam(pa)
    ensures UndoChain(stores + [st], entT + [tb], entI + [i], pas + [pa])
    ensures (stores + [st])[|pas + [pa]|] == st && (stores + [st])[0] == stores[0]
  {
    hide UndoStep, InRam;
  }

  method Rollback(ph: Phys, entT: seq<int>, entI: seq<nat>, pas: seq<int>, ghost stores: seq<Mem>)
    requires ph.Valid() && UndoChain(stores, entT, entI, pas) && stores[|pas|] == ph.Store()
    modifies ph
    ensures ph.Valid() && ph.Store() == stores[0]
    ensures Elems(ph.free) == Elems(old(ph.free)) + Elems(pas)
  {
    hide *;
    ChainLength(stores, entT, entI, pas);
    ElemsCons(pas, |pas|);
    var i := |pas| - 1;
    while i >= 0
      invariant -1 <= i < |pas| && ph.Valid() && ph.Store() == stores[i + 1]
      invariant Elems(ph.free) == Elems(old(ph.free)) + Elems(pas[i + 1..])
    {
      ChainAt(stores, entT, entI, pas, i);
      UndoRestores(stores[i], stores[i + 1], entT[i], entI[i], pas[i]);
      UndoIndex(stores[i], stores[i + 1], entT[i], entI[i], pas[i]);
      ElemsCons(pas, i);
      ph.SetWord(entT[i], entI[i], 0);
      ph.Free(pas[i]);
      i := i - 1;
    }
    assert pas[0..] == pas;
  }

  lemma ElemsCons(s: seq<int>, i: nat)
    requires i <= |s|
    ensures i == |s| ==> Elems(s[i..]) == {}
    ensures i < |s| ==> Elems(s[i..]) == {s[i]} + Elems(s[i + 1..])
  { if i < |s| { assert s[i..] == [s[i]] + s[i + 1..]; } }

  lemma UndoIndex(a: Mem, b: Mem, tb: int, i: nat, pa: int)
    requires UndoStep(a, b, tb, i, pa)
    ensures i < WORDS
  {}

  lemma {:induction false} OwnWeaken(t: PT, full: bool)
    requires Own(t, full)
    ensures Own(t, false)
  {
    if full && t.Table? {
      forall i | 0 <= i < |t.kids| ensures Own(t.kids[i], false) && Pages(t.kids[i], false) <= Pages(t.kids[i], true) {
        OwnWeaken(t.kids[i], full);
        TablesArePages(t.kids[i]);
      }
    }
  }

  /** One step of the walk that had to add a table: the tree gains an empty table at p. */
  lemma GrowStep(st: Mem, t: PT, p: seq<nat>, pa: int, full: bool)
    requires Held(st, t, full) && p != [] && |p| <= 3 && CanPut(t, p) && Lookup(t, p) == Absent && p[|p| - 1] < WORDS
    requires pa !in st && PaOk(pa)
    ensures Holder(t, p) in st
    ensures var st' := st[pa := ZeroPage()][Holder(t, p) := st[Holder(t, p)][p[|p| - 1] := pa + VALID_BITS]];
            var t' := Put(t, p, EmptyTable(pa));
            && Held(st', t', full) && t'.Table? && t'.pa == t.pa && SameMap(t, t')
            && Pages(t', full) == Pages(t, full) + {pa}
            && Lookup(t', p) == EmptyTable(pa)
            && UndoStep(st, st', Holder(t, p), p[|p| - 1], pa)
  {
    hide Repr, Own, Pages;
    var h, last := Holder(t, p), p[|p| - 1];
    HolderIn(t, p);
    PagesInStore(st, t, 0);
    HolderIsParent(t, p);
    LookupRepr(st, t, p[..|p| - 1], 0);
    TableFacts(st, Lookup(t, p[..|p| - 1]), last, |p| - 1);
    var st' := st[pa := ZeroPage()][h := st[h][last := pa + VALID_BITS]];
    EmptyTableFacts(st', pa, |p|, full);
    EmptyTableFacts(st', pa, |p|, false);
    OwnWeaken(t, full);
    PutRepr(st, st', t, p, EmptyTable(pa), 0);
    NoPages(full);
    PutPages(t, p, EmptyTable(pa), full);
    LookupPut(t, p, EmptyTable(pa), p);
    assert p[|p|..] == [];
    forall q: seq<nat> | |q| == 4 ensures Lookup(Put(t, p, EmptyTable(pa)), q) == Lookup(t, q) {
      AddTableMapsNothing(t, p, pa, q);
    }
  }

  lemma NoPages(full: bool)
    ensures Pages(Absent, full) == {}
  {}

  lemma {:induction false} PagesInStore(st: Mem, t: PT, depth: nat)
    requires Repr(st, t, depth)
    ensures Pages(t, false) <= st.Keys
    decreases t
  {
    if t.Table? {
      forall i | 0 <= i < |t.kids| ensures Pages(t.kids[i], false) <= st.Keys { PagesInStore(st, t.kids[i], depth + 1); }
    }
  }

  // ---------- The walk ----------

  /** Where the walk stands after some levels: the current tree still maps what the original did,
      and the tables added so far are accounted for. */
  ghost predicate WalkInv(store: Mem, t: PT, cur: PT, path: seq<nat>, level: nat, table: int, pas: seq<int>, full: bool)
    requires |path| == 4 && level <= 3
  {
    && t.Table? && Held(store, cur, full) && cur.pa == t.pa && SameMap(t, cur)
    && Lookup(cur, path[..level]).Table? && Lookup(cur, path[..level]).pa == table
    && Pages(cur, full) == Pages(t, full) + Elems(pas)
    && Pages(cur, false) == Pages(t, false) + Elems(pas)
    && |pas| + Missing(Lookup(cur, path[..level]), path[level..3]) == Missing(t, path[..3])
  }

  /** Pages in use outside a set keep their contents. */
  ghost predicate KeepsOutside(a: Mem, b: Mem, s: set<int>) {
    forall p :: p in a && p !in s ==> p in b && b[p] == a[p]
  }

  lemma WalkStart(store: Mem, t: PT, path: seq<nat>, full: bool)
    requires Held(store, t, full) && |path| == 4
    ensures WalkInv(store, t, t, path, 0, t.pa, [], full) && KeepsOutside(store, store, Pages(t, false))
  {
    assert path[..0] == [] && path[0..3] == path[..3];
    assert Elems([]) == {};
  }

  /** The entry the walk reads at this level, and what it means. */
  lemma WalkEntry(store: Mem, cur: PT, path: seq<nat>, level: nat, full: bool)
    requires Held(store, cur, full) && |path| == 4 && PathOk(path) && level <= 3 && Lookup(cur, path[..level]).Table?
    ensures var table := Lookup(cur, path[..level]).pa;
            var kid := Lookup(cur, path[..level + 1]);
            && table in store && table in Pages(cur, false) && PaOk(table)
            && CanPut(cur, path[..level + 1]) && Holder(cur, path[..level + 1]) == table
            && store[table][path[level]] == Word(kid)
            && (IsValid(Word(kid)) <==> kid != Absent)
            && (kid != Absent ==> Addr(Word(kid)) == kid.pa)
            && (level < 3 && kid != Absent ==> kid.Table?) && (level == 3 ==> !kid.Table?)
  {
    hide Repr, Own, Pages, Word, IsValid, Addr, Put;
    var p, q := path[..level], path[..level + 1];
    assert q == p + [path[level]];
    assert q[..|q| - 1] == p;
    LookupRepr(store, cur, p, 0);
    FullTable(store, Lookup(cur, p), level);
    CanPutParent(cur, p);
    HolderIsParent(cur, q);
    HolderIn(cur, q);
    TableFacts(store, Lookup(cur, p), path[level], level);
    WordFacts(store, Lookup(cur, q), level + 1);
  }

  lemma FullTable(store: Mem, t: PT, depth: nat)
    requires Repr(store, t, depth) && t.Table?
    ensures |t.kids| == WORDS
  {}

  lemma WalkDown(store: Mem, t: PT, cur: PT, path: seq<nat>, level: nat, table: int, pas: seq<int>, full: bool)
    requires |path| == 4 && PathOk(path) && level < 3 && WalkInv(store, t, cur, path, level, table, pas, full)
    requires Lookup(cur, path[..level + 1]).Table?
    ensures WalkInv(store, t, cur, path, level + 1, Lookup(cur, path[..level + 1]).pa, pas, full)
  {
    hide Held, SameMap, Pages;
    MissingStep(cur, path, level);
  }

  lemma MissingStep(cur: PT, path: seq<nat>, level: nat)
    requires |path| == 4 && level < 3 && Lookup(cur, path[..level]).Table?
    ensures var node, kid := Lookup(cur, path[..level]), Lookup(cur, path[..level + 1]);
            Missing(node, path[level..3]) == if kid.Table? then Missing(kid, path[level + 1..3]) else 3 - level
  {
    var p := path[level..3];
    assert p[0] == path[level] && p[1..] == path[level + 1..3];
    assert path[..level + 1] == path[..level] + [path[level]];
    LookupSplit(cur, path[..level], [path[level]]);
    assert [path[level]][1..] == [];
  }

  lemma WalkGrow(store: Mem, store': Mem, t: PT, cur: PT, path: seq<nat>, level: nat, table: int, pas: seq<int>, pa: int, full: bool)
    requires |path| == 4 && PathOk(path) && level < 3 && WalkInv(store, t, cur, path, level, table, pas, full)
    requires Lookup(cur, path[..level + 1]) == Absent && pa !in store && PaOk(pa) && table in store
    requires store' == store[pa := ZeroPage()][table := store[table][path[level] := pa + VALID_BITS]]
    ensures CanPut(cur, path[..level + 1])
    ensures WalkInv(store', t, Put(cur, path[..level + 1], EmptyTable(pa)), path, level + 1, pa, pas + [pa], full)
    ensures UndoStep(store, store', table, path[level], pa)
    ensures table in Pages(cur, false)
  {
    hide *;
    WalkUnpack(store, t, cur, path, level, table, pas, full);
    WalkEntry(store, cur, path, level, full);
    HeldWeaken(store, cur, full);
    var p := path[..level + 1];
    PathIndex(path, level);
    GrowStep(store, cur, p, pa, full);
    GrowStep(store, cur, p, pa, false);
    MissingStep(cur, path, level);
    MissingEmpty(pa, path[level + 1..3]);
    ElemsSnoc(pas, pa);
    SameMapTrans(t, cur, Put(cur, p, EmptyTable(pa)));
    WalkPack(store', t, Put(cur, p, EmptyTable(pa)), path, level + 1, pa, pas + [pa], full);
  }

  lemma PathIndex(path: seq<nat>, level: nat)
    requires |path| == 4 && level < 3 && PathOk(path)
    ensures |path[..level + 1]| == level + 1 && path[..level + 1][level] == path[level] < WORDS && path[..level + 1] != []
  {}

  lemma WalkUnpack(store: Mem, t: PT, cur: PT, path: seq<nat>, level: nat, table: int, pas: seq<int>, full: bool)
    requires |path| == 4 && level <= 3 && WalkInv(store, t, cur, path, level, table, pas, full)
    ensures Held(store, cur, full) && cur.Table? && t.Table? && cur.pa == t.pa && SameMap(t, cur)
    ensures Lookup(cur, path[..level]).Table? && Lookup(cur, path[..level]).pa == table
    ensures Pages(cur, full) == Pages(t, full) + Elems(pas) && Pages(cur, false) == Pages(t, false) + Elems(pas)
    ensures |pas| + Missing(Lookup(cur, path[..level]), path[level..3]) == Missing(t, path[..3])
  {}

  lemma WalkPack(store: Mem, t: PT, cur: PT, path: seq<nat>, level: nat, table: int, pas: seq<int>, full: bool)
    requires |path| == 4 && level <= 3 && t.Table? && cur.Table?
    requires Held(store, cur, full) && cur.pa == t.pa && SameMap(t, cur)
    requires Lookup(cur, path[..level]) == EmptyTable(table)
    requires Pages(cur, full) == Pages(t, full) + Elems(pas) && Pages(cur, false) == Pages(t, false) + Elems(pas)
    requires |pas| + Missing(EmptyTable(table), path[level..3]) == Missing(t, path[..3])
    ensures WalkInv(store, t, cur, path, level, table, pas, full)
  {}

  lemma HeldWeaken(store: Mem, t: PT, full: bool)
    requires Held(store, t, full)
    ensures Held(store, t, false)
  {
    hide Repr, Own, Pages;
    OwnWeaken(t, full);
    PagesInStore(store, t, 0);
  }

  lemma MissingEmpty(pa: int, p: seq<nat>)
    ensures Missing(EmptyTable(pa), p) == |p|
  {}

  lemma ElemsSnoc(s: seq<int>, x: int)
    ensures Elems(s + [x]) == Elems(s) + {x} && |s + [x]| == |s| + 1
  {}

  lemma SameMapTrans(a: PT, b: PT, c: PT)
    requires SameMap(a, b) && SameMap(b, c)
    ensures SameMap(a, c)
  {}

  /** Allocates a page and enters it as a table in slot i. */
  method AddTable(ph: Phys, table: int, i: nat) returns (pa: int)
    requires ph.Valid() && table in ph.Store() && i < WORDS
    modifies ph
    ensures ph.Valid()
    ensures old(ph.free) == [] ==>
              pa == PMM_INVALID && ph.mem == old(ph.mem) && ph.free == [] && ph.freelist == old(ph.freelist)
              && ph.freeCount == old(ph.freeCount) && ph.Store() == old(ph.Store())
    ensures old(ph.free) != [] ==>
              && pa != PMM_INVALID && pa == old(ph.free)[0] && ph.free == old(ph.free)[1..] && InRam(pa)
              && pa !in old(ph.Store())
              && ph.Store() == old(ph.Store())[pa := ZeroPage()][table := old(ph.Store())[table][i := pa + VALID_BITS]]
  {
    hide *;
    FreeNotUsed(ph);
    ValidParts(ph);
    ghost var st := ph.Store();
    ghost var f := ph.free;
    pa := ph.Alloc();
    ValidParts(ph);
    if f != [] { RamPage(pa); }
    if pa == PMM_INVALID { return; }
    ph.SetWord(table, i, pa + VALID_BITS);
  }

  /** walk: finds the last-level table for va, adding missing tables when asked to. Without alloc
      nothing changes. With alloc it fails exactly when there are fewer free pages than missing
      tables, and then memory, free list and count are as before the call. */
  method Walk(ph: Phys, root: int, va: int, alloc: bool, ghost t: PT, ghost full: bool) returns (table: int, ghost t': PT)
    requires ph.Valid() && Held(ph.Store(), t, full) && t.pa == root
    modifies ph
    ensures ph.Valid() && t'.Table?
    ensures !alloc || table == NULL || |ph.free| == |old(ph.free)| ==>
              ph.mem == old(ph.mem) && ph.free == old(ph.free) && ph.freelist == old(ph.freelist)
              && ph.freeCount == old(ph.freeCount) && t' == t
    ensures !alloc ==> (table != NULL <==> Missing(t, PathOf(va)[..3]) == 0)
    ensures alloc ==> (table != NULL <==> Missing(t, PathOf(va)[..3]) <= |old(ph.free)|)
    ensures table != NULL ==>
              && |ph.free| <= |old(ph.free)| && ph.free == old(ph.free)[|old(ph.free)| - |ph.free|..]
              && WalkInv(ph.Store(), t, t', PathOf(va), 3, table, old(ph.free)[..|old(ph.free)| - |ph.free|], full)
              && KeepsOutside(old(ph.Store()), ph.Store(), Pages(t, false))
  {
    hide *;
    var path := PathOf(va);
    table, t' := root, t;
    var entT: seq<int>, entI: seq<nat>, pas: seq<int> := [], [], [];
    ghost var f0, m0, st0 := ph.free, ph.mem, ph.Store();
    ghost var stores := [st0];
    WalkStart(st0, t, path, full);
    ValidParts(ph);
    BooksStart(st0, f0);
    var level := 0;
    while level < 3
      invariant 0 <= level <= 3 && ph.Valid() && Books(stores, entT, entI, pas, f0, ph.free, st0, ph.Store())
      invariant WalkInv(ph.Store(), t, t', path, level, table, pas, full)
      invariant KeepsOutside(st0, ph.Store(), Pages(t, false))
      invariant pas == [] ==> t' == t && ph.mem == m0 && ph.freelist == old(ph.freelist) && ph.freeCount == old(ph.freeCount)
      invariant !alloc ==> pas == []
    {
      ghost var st, cur := ph.Store(), t';
      label L:
      var next, added;
      next, added, t' := Descend(ph, path, level, table, alloc, t, cur, pas, full);
      if next == NULL {
        BooksParts(stores, entT, entI, pas, f0, ph.free, st0, ph.Store());
        if alloc {
          Rollback(ph, entT, entI, pas, stores);
          SameImage(m0, f0, ph);
        }
        return NULL, t;
      }
      if added {
        WalkGrows(m0, f0, st, ph.Store(), t, cur, path, level, table, pas, next, full, stores, entT, entI, old@L(ph.free), ph.free);
        entT, entI, pas, stores := entT + [table], entI + [path[level]], pas + [next], stores + [ph.Store()];
      }
      table := next;
      level := level + 1;
    }
    BooksParts(stores, entT, entI, pas, f0, ph.free, st0, ph.Store());
    WalkUnpack(ph.Store(), t, t', path, 3, table, pas, full);
    WalkEntry(ph.Store(), t', path, 3, full);
    PaNotNull(table);
    MissingNone(Lookup(t', path[..3]), path);
  }

  /** One level: follow the entry, or add a table if asked to; NULL when there is none to follow. */
  method Descend(ph: Phys, path: seq<nat>, level: nat, table: int, alloc: bool, ghost t: PT, ghost cur: PT, ghost pas: seq<int>, ghost full: bool)
    returns (next: int, added: bool, ghost cur': PT)
    requires ph.Valid() && |path| == 4 && PathOk(path) && level < 3 && WalkInv(ph.Store(), t, cur, path, level, table, pas, full)
    modifies ph
    ensures ph.Valid()
    ensures !added ==> ph.mem == old(ph.mem) && ph.free == old(ph.free) && ph.freelist == old(ph.freelist) && ph.freeCount == old(ph.freeCount) && ph.Store() == old(ph.Store()) && cur' == cur
    ensures next == NULL ==> !added && |pas| < Missing(t, path[..3]) && (alloc ==> ph.free == [])
    ensures next != NULL && !added ==> WalkInv(ph.Store(), t, cur, path, level + 1, next, pas, full)
    ensures added ==>
              && alloc && old(ph.free) != [] && next == old(ph.free)[0] && ph.free == old(ph.free)[1..] && InRam(next)
              && WalkInv(ph.Store(), t, cur', path, level + 1, next, pas + [next], full)
              && AddedAt(old(ph.Store()), ph.Store(), cur, table, path[level], next)
  {
    hide *;
    WalkUnpack(ph.Store(), t, cur, path, level, table, pas, full);
    WalkEntry(ph.Store(), cur, path, level, full);
    MissingStep(cur, path, level);
    InUse(ph, table);
    PathIndex(path, level);
    ValidParts(ph);
    cur' := cur;
    var i := path[level];
    var w := ph.mem[table][i];
    if IsValid(w) {
      WalkDown(ph.Store(), t, cur, path, level, table, pas, full);
      WalkUnpack(ph.Store(), t, cur, path, level + 1, Addr(w), pas, full);
      WalkEntry(ph.Store(), cur, path, level + 1, full);
      PaNotNull(Addr(w));
      return Addr(w), false, cur;
    }
    if !alloc { return NULL, false, cur; }
    ghost var st := ph.Store();
    var pa := AddTable(ph, table, i);
    if pa == PMM_INVALID { return NULL, false, cur; }
    RamPage(pa);
    WalkGrow(st, ph.Store(), t, cur, path, level, table, pas, pa, full);
    PackAdded(st, ph.Store(), cur, table, i, pa);
    cur' := Put(cur, path[..level + 1], EmptyTable(pa));
    return pa, true, cur';
  }

  /** The change of memory when a table was added. */
  ghost predicate AddedAt(st: Mem, st': Mem, cur: PT, table: int, i: nat, pa: int) {
    && table in st && table in Pages(cur, false) && pa !in st && i < |st[table]|
    && st' == st[pa := ZeroPage()][table := st[table][i := pa + VALID_BITS]] && UndoStep(st, st', table, i, pa)
  }

  lemma PackAdded(st: Mem, st': Mem, cur: PT, table: int, i: nat, pa: int)
    requires table in st && table in Pages(cur, false) && pa !in st && i < |st[table]|
    requires st' == st[pa := ZeroPage()][table := st[table][i := pa + VALID_BITS]] && UndoStep(st, st', table, i, pa)
    ensures AddedAt(st, st', cur, table, i, pa)
  {}

  /** One level of the walk that added a table. */
  lemma WalkGrows(m0: Mem, f0: seq<int>, st: Mem, st': Mem, t: PT, cur: PT, path: seq<nat>, level: nat, table: int, pas: seq<int>, pa: int,
                  full: bool, stores: seq<Mem>, entT: seq<int>, entI: seq<nat>, f: seq<int>, f': seq<int>)
    requires |path| == 4 && level < 3 && WalkInv(st, t, cur, path, level, table, pas, full)
    requires AddedAt(st, st', cur, table, path[level], pa) && InRam(pa) && f != [] && f' == f[1..] && pa == f[0]
    requires Books(stores, entT, entI, pas, f0, f, Used(m0, f0), st) && KeepsOutside(Used(m0, f0), st, Pages(t, false))
    ensures Books(stores + [st'], entT + [table], entI + [path[level]], pas + [pa], f0, f', Used(m0, f0), st')
    ensures KeepsOutside(Used(m0, f0), st', Pages(t, false))
  {
    hide KeepsOutside, UndoChain, UndoStep, Pages, WalkInv, Used, InRam, ZeroPage;
    WalkUnpack(st, t, cur, path, level, table, pas, full);
    NotInPrefix(m0, f0, |pas|, table);
    KeepsGrow(stores[0], st, st', Pages(t, false), table, pa);
    ChainGrow(stores, entT, entI, pas, st', table, path[level], pa);
    Chopped(f0, |pas|);
  }

  /** What the walk remembers for the rollback: the pages taken so far are the head of the free list. */
  ghost predicate Books(stores: seq<Mem>, entT: seq<int>, entI: seq<nat>, pas: seq<int>, f0: seq<int>, f: seq<int>, st0: Mem, st: Mem) {
    && UndoChain(stores, entT, entI, pas) && |stores| == |pas| + 1 && |pas| <= |f0| && pas == f0[..|pas|] && f == f0[|pas|..]
    && stores[0] == st0 && stores[|pas|] == st
  }

  lemma BooksStart(st: Mem, f0: seq<int>)
    ensures Books([st], [], [], [], f0, f0, st, st)
  {
    hide UndoChain;
    ChainStart(st);
    Chopped(f0, 0);
  }

  lemma BooksParts(stores: seq<Mem>, entT: seq<int>, entI: seq<nat>, pas: seq<int>, f0: seq<int>, f: seq<int>, st0: Mem, st: Mem)
    requires Books(stores, entT, entI, pas, f0, f, st0, st)
    ensures UndoChain(stores, entT, entI, pas) && |stores| == |pas| + 1 && stores[0] == st0 && stores[|pas|] == st
    ensures |f| <= |f0| && |f0| - |f| == |pas| && pas == f0[..|f0| - |f|] && f == f0[|f0| - |f|..] && Elems(f0) == Elems(f) + Elems(pas)
    ensures |f| == |f0| ==> pas == []
    ensures f == [] ==> |pas| == |f0|
    ensures pas == [] ==> f == f0
  {
    hide UndoChain;
    Chopped(f0, |pas|);
  }

  lemma ValidParts(ph: Phys)
    requires ph.Valid()
    ensures Ascending(ph.free) && Threaded(ph.mem, ph.free) && ph.Store() == Used(ph.mem, ph.free)
    ensures ph.freelist == Link(ph.free, 0) && ph.freeCount == |ph.free|
  {}

  /** A list cut at k, and one page further. */
  lemma Chopped(f: seq<int>, k: nat)
    requires k <= |f|
    ensures f[..k] + f[k..] == f && Elems(f) == Elems(f[..k]) + Elems(f[k..])
    ensures k == 0 ==> f[..k] == [] && f[k..] == f
    ensures k < |f| ==> f[k..][0] == f[k] && f[..k + 1] == f[..k] + [f[k]] && f[k..][1..] == f[k + 1..]
  { assert f == f[..k] + f[k..]; }

  lemma InUse(ph: Phys, p: int)
    requires p in ph.Store()
    ensures p in ph.mem && ph.mem[p] == ph.Store()[p]
  {}

  lemma FreeNotUsed(ph: Phys)
    requires ph.Valid()
    ensures forall p :: p in ph.free ==> p !in ph.Store()
  {}

  lemma RamPage(pa: int)
    requires InRam(pa)
    ensures PaOk(pa) && pa != NULL && pa != PMM_INVALID
  {}

  lemma PaNotNull(pa: int)
    requires PaOk(pa)
    ensures pa != NULL
  {}

  lemma NotInPrefix(m0: Mem, f0: seq<int>, k: nat, p: int)
    requires k <= |f0|
    ensures p in Elems(f0[..k]) ==> p !in Used(m0, f0)
  {}

  lemma KeepsGrow(st0: Mem, st: Mem, st': Mem, s: set<int>, tb: int, pa: int)
    requires KeepsOutside(st0, st, s) && (tb in s || tb !in st0) && pa !in st
    requires st'.Keys == st.Keys + {pa} && forall p :: p in st && p != tb && p != pa ==> st'[p] == st[p]
    ensures KeepsOutside(st0, st', s)
  {}

  /** Back at the same set of free pages and the same pages in use, everything is as it was. */
  lemma SameImage(m0: Mem, f0: seq<int>, ph: Phys)
    requires ph.Valid() && Ascending(f0) && Threaded(m0, f0)
    requires Elems(ph.free) == Elems(f0) && ph.Store() == Used(m0, f0)
    ensures ph.mem == m0 && ph.free == f0 && ph.freelist == Link(f0, 0) && ph.freeCount == |f0|
  { ImageUnique(ph.mem, ph.free, m0, f0); }

  lemma MissingNone(t: PT, path: seq<nat>)
    requires |path| == 4
    ensures Missing(t, path[3..3]) == 0
  {}

  // ---------- Mapping and unmapping one page ----------

  /** The trees map every address outside the page of va the same way. */
  ghost predicate OtherPagesSame(t: PT, t': PT, va: int) {
    forall y: int :: y / PAGE_SIZE % FRAMES != va / PAGE_SIZE % FRAMES ==> Lookup(t', PathOf(y)) == Lookup(t, PathOf(y))
  }

  lemma ElsewhereIsOtherPages(t: PT, t': PT, va: int)
    requires SameElsewhere(t, t', PathOf(va))
    ensures OtherPagesSame(t, t', va)
  {
    hide PathOf;
    forall y: int | y / PAGE_SIZE % FRAMES != va / PAGE_SIZE % FRAMES ensures Lookup(t', PathOf(y)) == Lookup(t, PathOf(y)) {
      PathExact(va, y);
    }
  }

  /** What a freshly mapped page may be used for. */
  lemma LeafAccess(t: PT, va: int, pa: int, write: bool, exec: bool)
    requires Lookup(t, PathOf(va)) == Leaf(Addr(pa), PageAttr(write, exec))
    ensures Accessible(t, va, false) && (Accessible(t, va, true) <==> write)
  { DescriptorBits(Addr(pa), write, exec); }

  /** The trees map every page the same way, except possibly the one at path. */
  ghost predicate SameElsewhere(t: PT, t': PT, path: seq<nat>) {
    forall q: seq<nat> :: |q| == 4 && q != path ==> Lookup(t', q) == Lookup(t, q)
  }

  /** Writing the last-level entry replaces exactly that slot of the tree. */
  lemma SetSlot(st: Mem, st': Mem, t: PT, path: seq<nat>, sub: PT, full: bool)
    requires Held(st, t, full) && |path| == 4 && PathOk(path) && CanPut(t, path) && Holder(t, path) in st
    requires !sub.Table? && Repr(st, sub, 4)
    requires full && sub.Leaf? ==> sub.pa in st && sub.pa !in Pages(t, full) - Pages(Lookup(t, path), full)
    requires st' == st[Holder(t, path) := st[Holder(t, path)][path[3] := Word(sub)]]
    ensures var t' := Put(t, path, sub);
            && t'.Table? && t'.pa == t.pa && Held(st', t', full)
            && Pages(t', full) == (Pages(t, full) - Pages(Lookup(t, path), full)) + Pages(sub, full)
            && Lookup(t', path) == sub
            && SameElsewhere(t, t', path)
    ensures Pages(Lookup(t, path), full) <= Pages(t, full)
  {
    hide Repr, Own, Word, Holder;
    SlotPages(sub, full);
    SlotRepr(st, st', sub);
    OwnWeaken(t, full);
    PutRepr(st, st', t, path, sub, 0);
    PutPages(t, path, sub, full);
    LookupPut(t, path, sub, path);
    forall q: seq<nat> | |q| == 4 && q != path ensures Lookup(Put(t, path, sub), q) == Lookup(t, q) {
      LookupPut(t, path, sub, q);
      assert !(path <= q);
    }
  }

  lemma SlotPages(sub: PT, full: bool)
    requires !sub.Table?
    ensures Own(sub, full) && Pages(sub, full) == if sub.Leaf? && full then {sub.pa} else {}
  {}

  lemma SlotRepr(st: Mem, st': Mem, sub: PT)
    requires !sub.Table? && Repr(st, sub, 4)
    ensures Repr(st', sub, 4)
  {}

  lemma LeafOk(st: Mem, pa: int, write: bool, exec: bool)
    ensures Repr(st, Leaf(Addr(pa), PageAttr(write, exec)), 4)
  {}

  lemma {:induction false} MappedHasTables(t: PT, p: seq<nat>)
    requires p != [] && Lookup(t, p) != Absent
    ensures Missing(t, p[..|p| - 1]) == 0
    decreases p
  {
    if |p| > 1 {
      AbsentLookup(p[1..]);
      assert p[..|p| - 1][1..] == p[1..][..|p[1..]| - 1];
      assert p[1..] != [];
      MappedHasTables(t.kids[p[0]], p[1..]);
    }
  }

  /** vmm_map_page. It succeeds exactly when the page is not mapped and the missing tables can be
      had; then only the addresses of that page are mapped anew, readable, and writable exactly if
      asked. A failed call leaves the tables, all of memory, the free list and the count as they were. */
  method MapPage(ph: Phys, root: int, va: int, pa: int, write: bool, exec: bool, ghost t: PT, ghost full: bool)
    returns (r: int, ghost t': PT)
    requires ph.Valid() && Held(ph.Store(), t, full) && t.pa == root
    requires full ==> Addr(pa) in ph.Store() && Addr(pa) !in Pages(t, full)
    modifies ph
    ensures ph.Valid() && (r == 0 || r == -1) && t'.Table? && t'.pa == root
    ensures r == 0 <==> Lookup(t, PathOf(va)) == Absent && Missing(t, PathOf(va)[..3]) <= |old(ph.free)|
    ensures r == -1 ==>
              ph.mem == old(ph.mem) && ph.free == old(ph.free) && ph.freelist == old(ph.freelist)
              && ph.freeCount == old(ph.freeCount) && t' == t
    ensures r == 0 ==>
              && Held(ph.Store(), t', full)
              && Lookup(t', PathOf(va)) == Leaf(Addr(pa), PageAttr(write, exec))
              && SameElsewhere(t, t', PathOf(va)) && OtherPagesSame(t, t', va)
              && Accessible(t', va, false) && (Accessible(t', va, true) <==> write)
              && |ph.free| <= |old(ph.free)| && ph.free == old(ph.free)[|old(ph.free)| - |ph.free|..]
              && Pages(t', full) == Pages(t, full) + Elems(old(ph.free)[..|old(ph.free)| - |ph.free|])
                                    + (if full then {Addr(pa)} else {})
              && KeepsOutside(old(ph.Store()), ph.Store(), Pages(t, false))
  {
    hide *;
    var path := PathOf(va);
    ghost var st0, f0 := ph.Store(), ph.free;
    FreeNotUsed(ph);
    var table;
    table, t' := Walk(ph, root, va, true, t, full);
    HeldTable(st0, t, full);
    if table == NULL { return -1, t; }
    r, t' := SetLeaf(ph, path, table, pa, write, exec, t, t', st0, f0, full);
    if r == 0 {
      ElsewhereIsOtherPages(t, t', va);
      LeafAccess(t', va, pa, write, exec);
    }
  }

  /** The rest of vmm_map_page once the last-level table is found. */
  method SetLeaf(ph: Phys, path: seq<nat>, table: int, pa: int, write: bool, exec: bool, ghost t: PT, ghost cur: PT,
                 ghost st0: Mem, ghost f0: seq<int>, ghost full: bool) returns (r: int, ghost t': PT)
    requires ph.Valid() && |path| == 4 && PathOk(path) && |ph.free| <= |f0| && ph.free == f0[|f0| - |ph.free|..]
    requires WalkInv(ph.Store(), t, cur, path, 3, table, f0[..|f0| - |ph.free|], full) && KeepsOutside(st0, ph.Store(), Pages(t, false))
    requires (forall p :: p in f0 ==> p !in st0) && (full ==> Addr(pa) in st0 && Addr(pa) !in Pages(t, full))
    requires |ph.free| == |f0| ==> cur == t
    modifies ph
    ensures ph.Valid() && (r == 0 || r == -1) && ph.free == old(ph.free) && ph.freelist == old(ph.freelist) && ph.freeCount == old(ph.freeCount)
    ensures t.Table? && t'.Table? && t'.pa == t.pa
    ensures r == 0 <==> Lookup(t, path) == Absent
    ensures r == -1 ==> ph.mem == old(ph.mem) && |ph.free| == |f0| && t' == t
    ensures r == 0 ==>
              && Held(ph.Store(), t', full) && Lookup(t', path) == Leaf(Addr(pa), PageAttr(write, exec)) && SameElsewhere(t, t', path)
              && Pages(t', full) == Pages(t, full) + Elems(f0[..|f0| - |ph.free|]) + (if full then {Addr(pa)} else {})
              && KeepsOutside(st0, ph.Store(), Pages(t, false))
  {
    hide *;
    ghost var pas := f0[..|f0| - |ph.free|];
    WalkUnpack(ph.Store(), t, cur, path, 3, table, pas, full);
    WalkEntry(ph.Store(), cur, path, 3, full);
    FullPath(path);
    InUse(ph, table);
    SameMapAt(t, cur, path);
    var w := ph.mem[table][path[3]];
    if IsValid(w) {
      MappedHasTables(t, path);
      MissingNone(Lookup(cur, path[..3]), path);
      return -1, t;
    }
    ghost var st, leaf := ph.Store(), Leaf(Addr(pa), PageAttr(write, exec));
    WordOfLeaf(Addr(pa), PageAttr(write, exec));
    ph.SetWord(table, path[3], Addr(pa) + PageAttr(write, exec));
    NotTaken(f0, |pas|, Addr(pa));
    NotInPrefix2(f0, |pas|, table, st0);
    LeafOk(st, pa, write, exec);
    MapFinish(st0, st, ph.Store(), t, cur, path, table, leaf, Elems(pas), full);
    t' := Put(cur, path, leaf);
    r := 0;
  }

  lemma MapFinish(st0: Mem, st: Mem, st': Mem, t: PT, cur: PT, path: seq<nat>, table: int, leaf: PT, taken: set<int>, full: bool)
    requires |path| == 4 && PathOk(path) && CanPut(cur, path) && Holder(cur, path) == table && Lookup(cur, path) == Absent
    requires Held(st, cur, full) && SameMap(t, cur) && KeepsOutside(st0, st, Pages(t, false)) && leaf.Leaf?
    requires Pages(cur, full) == Pages(t, full) + taken && Pages(cur, false) == Pages(t, false) + taken && table in Pages(cur, false)
    requires full ==> leaf.pa in st0 && leaf.pa !in Pages(t, full) && leaf.pa !in taken
    requires Repr(st, leaf, 4) && table in st && (table in taken ==> table !in st0)
    requires st' == st[table := st[table][path[3] := Word(leaf)]]
    ensures Held(st', Put(cur, path, leaf), full) && Put(cur, path, leaf).Table? && cur.Table? && Put(cur, path, leaf).pa == cur.pa
    ensures Lookup(Put(cur, path, leaf), path) == leaf && SameElsewhere(t, Put(cur, path, leaf), path)
    ensures Pages(Put(cur, path, leaf), full) == Pages(t, full) + taken + (if full then {leaf.pa} else {})
    ensures KeepsOutside(st0, st', Pages(t, false))
  {
    hide *;
    HeldTable(st, cur, full);
    KeepsThere(st0, st, Pages(t, false), Pages(t, full), leaf.pa);
    TablesFull(t, full);
    NoPages(full);
    SlotPages(leaf, full);
    SetSlot(st, st', cur, path, leaf, full);
    KeepsSet(st0, st, st', Pages(t, false), table);
    SameMapRest(t, cur, Put(cur, path, leaf), path);
  }

  lemma HeldTable(st: Mem, t: PT, full: bool)
    requires Held(st, t, full)
    ensures t.Table?
  {}

  lemma FullPath(path: seq<nat>)
    requires |path| == 4 && PathOk(path)
    ensures path[..4] == path && path[..3] + [path[3]] == path && path[3] < WORDS && path[..|path| - 1] == path[..3] && path != []
  {}

  lemma SameMapAt(t: PT, t': PT, q: seq<nat>)
    requires SameMap(t, t') && |q| == 4
    ensures Lookup(t', q) == Lookup(t, q)
  {}

  lemma SameMapRest(t: PT, t1: PT, t2: PT, path: seq<nat>)
    requires SameMap(t, t1) && SameElsewhere(t1, t2, path)
    ensures SameElsewhere(t, t2, path)
  {}

  lemma WordOfLeaf(pa: int, attr: int)
    ensures Word(Leaf(pa, attr)) == pa + attr && Word(Absent) == 0
  {}

  lemma NotTaken(f0: seq<int>, k: nat, p: int)
    requires k <= |f0|
    ensures p in Elems(f0[..k]) ==> p in f0
  {}

  lemma NotInPrefix2(f0: seq<int>, k: nat, p: int, st0: Mem)
    requires k <= |f0| && forall x :: x in f0 ==> x !in st0
    ensures p in Elems(f0[..k]) ==> p !in st0
  {}

  lemma KeepsThere(st0: Mem, st: Mem, s: set<int>, s': set<int>, p: int)
    requires KeepsOutside(st0, st, s)
    ensures p in st0 && p !in s ==> p in st
  {}

  lemma TablesFull(t: PT, full: bool)
    ensures Pages(t, false) <= Pages(t, full)
  { if full { TablesArePages(t); } }

  lemma KeepsSet(st0: Mem, st: Mem, st': Mem, s: set<int>, tb: int)
    requires KeepsOutside(st0, st, s) && (tb in s || tb !in st0)
    requires st'.Keys == st.Keys && forall p :: p in st && p != tb ==> st'[p] == st[p]
    ensures KeepsOutside(st0, st', s)
  {}

  /** vmm_unmap_page: succeeds exactly on a mapped page, reports its frame, and changes only its slot. */
  method UnmapPage(ph: Phys, root: int, va: int, ghost t: PT, ghost full: bool) returns (r: int, paOut: int, ghost t': PT)
    requires ph.Valid() && Held(ph.Store(), t, full) && t.pa == root
    modifies ph
    ensures ph.Valid() && (r == 0 || r == -1) && t'.Table? && t'.pa == root
    ensures ph.free == old(ph.free) && ph.freelist == old(ph.freelist) && ph.freeCount == old(ph.freeCount)
    ensures r == 0 <==> Lookup(t, PathOf(va)) != Absent
    ensures r == -1 ==> ph.mem == old(ph.mem) && t' == t
    ensures r == 0 ==>
              && Lookup(t, PathOf(va)).Leaf? && paOut == Lookup(t, PathOf(va)).pa
              && Held(ph.Store(), t', full) && Lookup(t', PathOf(va)) == Absent
              && SameElsewhere(t, t', PathOf(va)) && OtherPagesSame(t, t', va)
              && Pages(t', full) == Pages(t, full) - (if full then {paOut} else {})
              && KeepsOutside(old(ph.Store()), ph.Store(), Pages(t, false))
  {
    hide *;
    var path := PathOf(va);
    ghost var st0, m0, f0 := ph.Store(), ph.mem, ph.free;
    ValidParts(ph);
    paOut := 0;
    HeldTable(st0, t, full);
    var table;
    table, t' := Walk(ph, root, va, false, t, full);
    FullPath(path);
    if table == NULL {
      if Lookup(t, path) != Absent { MappedHasTables(t, path); }
      return -1, 0, t;
    }
    WalkUnpack(ph.Store(), t, t', path, 3, table, old(ph.free)[..|old(ph.free)| - |ph.free|], full);
    WalkEntry(ph.Store(), t', path, 3, full);
    InUse(ph, table);
    var w := ph.mem[table][path[3]];
    if !IsValid(w) { return -1, 0, t; }
    paOut := Addr(w);
    ghost var st := ph.Store();
    SameStore(m0, f0, st0, ph);
    AbsentRepr(st, 4);
    WordOfLeaf(0, 0);
    ph.SetWord(table, path[3], 0);
    NoPages(full);
    SlotPages(Lookup(t, path), full);
    SetSlot(st, ph.Store(), t, path, Absent, full);
    KeepsSelf(st, Pages(t, false));
    KeepsSet(st0, st, ph.Store(), Pages(t, false), table);
    t' := Put(t, path, Absent);
    ElsewhereIsOtherPages(t, t', va);
    r := 0;
  }

  lemma SameStore(m: Mem, f: seq<int>, st0: Mem, ph: Phys)
    requires st0 == Used(m, f) && ph.mem == m && ph.free == f
    ensures ph.Store() == st0
  {}

  lemma KeepsSelf(st: Mem, s: set<int>)
    ensures KeepsOutside(st, st, s)
  {}
}
