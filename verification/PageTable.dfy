/** Four-level page tables as trees, and how a tree is laid out in physical pages. */
module PageTable {
  import opened Arith
  import opened Pmm

  const VALID_BITS: int := 3              // PTE_VALID | PTE_TABLE
  const TWO48: int := 0x1_0000_0000_0000
  const FRAMES: int := 0x10_0000_0000     // 2^36 page frames under the address mask

  /** A slot of a table: empty, a mapped page with its attribute bits, or a lower table. */
  datatype PT = Absent | Leaf(pa: int, attr: int) | Table(pa: int, kids: seq<PT>)

  predicate IsValid(w: int) { w % 2 == 1 }

  /** The bits selected by PTE_ADDR_MASK. */
  function Addr(w: int): int { w / PAGE_SIZE % FRAMES * PAGE_SIZE }

  predicate PaOk(pa: int) { 0 <= pa < TWO48 && pa % PAGE_SIZE == 0 }

  /** Attribute bits: valid, and nothing under the address mask. */
  predicate AttrOk(attr: int) { attr % 2 == 1 && attr / PAGE_SIZE % FRAMES == 0 }

  /** The entry that encodes a slot. */
  function Word(t: PT): int {
    match t
    case Absent => 0
    case Leaf(pa, attr) => pa + attr
    case Table(pa, _) => pa + VALID_BITS
  }

  lemma WordDecodes(pa: int, attr: int)
    requires PaOk(pa) && AttrOk(attr)
    ensures IsValid(pa + attr) && Addr(pa + attr) == pa && pa + attr - Addr(pa + attr) == attr
  {
    var f, q := pa / PAGE_SIZE, attr / PAGE_SIZE;
    assert pa == PAGE_SIZE * f && 0 <= f < FRAMES && attr == PAGE_SIZE * q + attr % PAGE_SIZE && q == FRAMES * (q / FRAMES);
    ModUnique(pa + attr, PAGE_SIZE, f + q, attr % PAGE_SIZE);
    ModUnique(f + q, FRAMES, q / FRAMES, f);
    ModUnique(pa + attr, 2, 2048 * f + attr / 2, 1);
  }

  lemma TableDecodes(pa: int)
    requires PaOk(pa)
    ensures IsValid(pa + VALID_BITS) && Addr(pa + VALID_BITS) == pa
  {}

  /** The tree hanging at a node of the given depth is what the pages hold. */
  ghost predicate Repr(store: Mem, t: PT, depth: nat) {
    match t
    case Absent => true
    case Leaf(pa, attr) => depth == 4 && PaOk(pa) && AttrOk(attr)
    case Table(pa, kids) =>
      && depth <= 3 && PaOk(pa) && pa in store && |kids| == WORDS
      && (forall i :: 0 <= i < WORDS ==> store[pa][i] == Word(kids[i]))
      && (forall i :: 0 <= i < WORDS ==> Repr(store, kids[i], depth + 1))
  }

  /** Pages of a tree: its tables, and with full its mapped pages too. */
  ghost function Pages(t: PT, full: bool): set<int> {
    match t
    case Absent => {}
    case Leaf(pa, _) => if full then {pa} else {}
    case Table(pa, kids) => {pa} + KidPages(kids, full)
  }

  ghost function KidPages(kids: seq<PT>, full: bool): set<int> {
    set i, x | 0 <= i < |kids| && x in Pages(kids[i], full) :: x
  }

  /** No page occurs twice in the tree. */
  ghost predicate Own(t: PT, full: bool) {
    match t
    case Absent => true
    case Leaf(_, _) => true
    case Table(pa, kids) =>
      && (forall i :: 0 <= i < |kids| ==> pa !in Pages(kids[i], full) && Own(kids[i], full))
      && (forall i, j :: 0 <= i < j < |kids| ==> Pages(kids[i], full) !! Pages(kids[j], full))
  }

  lemma {:induction false} ReprFrame(st: Mem, st': Mem, t: PT, depth: nat)
    requires Repr(st, t, depth)
    requires forall p :: p in Pages(t, false) && p in st ==> p in st' && st'[p] == st[p]
    ensures Repr(st', t, depth)
    decreases t
  {
    if t.Table? {
      forall i | 0 <= i < WORDS ensures Repr(st', t.kids[i], depth + 1) {
        KidIn(t, i, false);
        ReprFrame(st, st', t.kids[i], depth + 1);
      }
    }
  }

  lemma KidIn(t: PT, i: nat, full: bool)
    requires t.Table? && i < |t.kids|
    ensures Pages(t.kids[i], full) <= KidPages(t.kids, full) <= Pages(t, full) && t.pa in Pages(t, full)
  {}

  lemma {:induction false} TablesArePages(t: PT)
    ensures Pages(t, false) <= Pages(t, true)
  {
    if t.Table? {
      forall i | 0 <= i < |t.kids| ensures Pages(t.kids[i], false) <= Pages(t.kids[i], true) { TablesArePages(t.kids[i]); }
    }
  }

  // ---------- Looking up and replacing a slot ----------

  predicate PathOk(p: seq<nat>) { |p| <= 4 && forall i :: 0 <= i < |p| ==> p[i] < WORDS }

  function Lookup(t: PT, p: seq<nat>): PT
    decreases p
  {
    if p == [] then t
    else if t.Table? && p[0] < |t.kids| then Lookup(t.kids[p[0]], p[1..])
    else Absent
  }

  /** All slots on the way to p exist and are tables. */
  predicate CanPut(t: PT, p: seq<nat>)
    decreases p
  {
    p != [] ==> t.Table? && p[0] < |t.kids| && (|p| > 1 ==> CanPut(t.kids[p[0]], p[1..]))
  }

  function Put(t: PT, p: seq<nat>, sub: PT): PT
    requires CanPut(t, p)
    decreases p
  {
    if p == [] then sub
    else if |p| == 1 then Table(t.pa, t.kids[p[0] := sub])
    else Table(t.pa, t.kids[p[0] := Put(t.kids[p[0]], p[1..], sub)])
  }

  /** Table whose entry holds slot p. */
  function Holder(t: PT, p: seq<nat>): int
    requires CanPut(t, p) && p != []
    decreases p
  {
    if |p| == 1 then t.pa else Holder(t.kids[p[0]], p[1..])
  }

  /** Replacing a slot changes the lookups that go through it and no others. */
  lemma {:induction false} LookupPut(t: PT, p: seq<nat>, sub: PT, q: seq<nat>)
    requires CanPut(t, p) && |p| <= |q|
    ensures Lookup(Put(t, p, sub), q) == if p <= q then Lookup(sub, q[|p|..]) else Lookup(t, q)
    decreases p
  {
    if p == [] {
      assert q[0..] == q;
    } else {
      var k := t.kids[p[0]];
      assert q[|p|..] == q[1..][|p| - 1..];
      assert p <= q <==> p[0] == q[0] && p[1..] <= q[1..];
      if |p| == 1 {
        assert p[1..] == [];
      } else {
        LookupPut(k, p[1..], sub, q[1..]);
      }
    }
  }

  lemma {:induction false} HolderIn(t: PT, p: seq<nat>)
    requires CanPut(t, p) && p != []
    ensures Holder(t, p) in Pages(t, false)
    decreases p
  {
    if |p| > 1 {
      HolderIn(t.kids[p[0]], p[1..]);
      KidIn(t, p[0], false);
    }
  }

  lemma {:induction false} HolderIsParent(t: PT, p: seq<nat>)
    requires CanPut(t, p) && p != []
    ensures Lookup(t, p[..|p| - 1]).Table? && Lookup(t, p[..|p| - 1]).pa == Holder(t, p)
    ensures p[|p| - 1] < |Lookup(t, p[..|p| - 1]).kids| && Lookup(t, p) == Lookup(t, p[..|p| - 1]).kids[p[|p| - 1]]
    decreases p
  {
    if |p| == 1 {
      assert p[..0] == [] && p[1..] == [];
    } else {
      HolderIsParent(t.kids[p[0]], p[1..]);
      assert p[..|p| - 1][1..] == p[1..][..|p[1..]| - 1];
    }
  }

  lemma {:induction false} CanPutParent(t: PT, p: seq<nat>)
    requires Lookup(t, p).Table?
    ensures forall i :: 0 <= i < |Lookup(t, p).kids| ==> CanPut(t, p + [i])
    decreases p
  {
    if p == [] {
    } else {
      CanPutParent(t.kids[p[0]], p[1..]);
      forall i | 0 <= i < |Lookup(t, p).kids| ensures CanPut(t, p + [i]) {
        assert (p + [i])[1..] == p[1..] + [i];
      }
    }
  }

  lemma TableFacts(st: Mem, t: PT, i: nat, depth: nat)
    requires Repr(st, t, depth) && t.Table? && i < |t.kids|
    ensures depth <= 3 && PaOk(t.pa) && t.pa in st && |t.kids| == WORDS
    ensures st[t.pa][i] == Word(t.kids[i]) && Repr(st, t.kids[i], depth + 1)
  {}

  /** A table whose slot i now encodes k, the other slots being as they were. */
  lemma AssembleRepr(st: Mem, st': Mem, t: PT, i: nat, k: PT, depth: nat)
    requires t.Table? && i < WORDS && Repr(st, t, depth)
    requires forall j :: 0 <= j < WORDS && j != i ==> Repr(st', t.kids[j], depth + 1)
    requires Repr(st', k, depth + 1)
    requires t.pa in st' && st'[t.pa] == st[t.pa][i := Word(k)]
    ensures Repr(st', Table(t.pa, t.kids[i := k]), depth)
  {}

  /** Writing one entry, and whatever pages the new slot uses, re-represents the tree with that slot. */
  lemma {:induction false} PutRepr(st: Mem, st': Mem, t: PT, p: seq<nat>, sub: PT, depth: nat)
    requires Repr(st, t, depth) && Own(t, false) && p != [] && CanPut(t, p) && p[|p| - 1] < WORDS
    requires forall x :: x in Pages(t, false) && x in st ==>
               x in st' && st'[x] == if x == Holder(t, p) then st[x][p[|p| - 1] := Word(sub)] else st[x]
    requires Repr(st', sub, depth + |p|)
    ensures Repr(st', Put(t, p, sub), depth)
    decreases p
  {
    hide Word, Own, Repr, Pages;
    var i, k := p[0], t.kids[p[0]];
    TableFacts(st, t, i, depth);
    OtherKidsRepr(st, st', t, p, depth);
    KidIn(t, i, false);
    if |p| == 1 {
      AssembleRepr(st, st', t, i, sub, depth);
    } else {
      HolderIn(k, p[1..]);
      KidOwn(t, i);
      assert p[1..][|p[1..]| - 1] == p[|p| - 1];
      PutRepr(st, st', k, p[1..], sub, depth + 1);
      SameWord(k, p[1..], sub);
      assert st[t.pa][i := Word(k)] == st[t.pa];
      AssembleRepr(st, st', t, i, Put(k, p[1..], sub), depth);
    }
  }

  lemma SameWord(t: PT, p: seq<nat>, sub: PT)
    requires p != [] && CanPut(t, p)
    ensures Word(Put(t, p, sub)) == Word(t)
  {}

  lemma KidOwn(t: PT, i: nat)
    requires t.Table? && Own(t, false) && i < |t.kids|
    ensures Own(t.kids[i], false) && t.pa !in Pages(t.kids[i], false)
  {}

  lemma OtherKidsRepr(st: Mem, st': Mem, t: PT, p: seq<nat>, depth: nat)
    requires Repr(st, t, depth) && Own(t, false) && p != [] && CanPut(t, p)
    requires forall x :: x in Pages(t, false) && x in st && x != Holder(t, p) ==> x in st' && st'[x] == st[x]
    ensures forall j :: 0 <= j < WORDS && j != p[0] ==> Repr(st', t.kids[j], depth + 1)
  {
    hide Word, Holder, Pages, Own;
    forall j | 0 <= j < WORDS && j != p[0] ensures Repr(st', t.kids[j], depth + 1) {
      KidIn(t, j, false);
      OtherKid(t, p, j);
      ReprFrame(st, st', t.kids[j], depth + 1);
    }
  }

  lemma OtherKid(t: PT, p: seq<nat>, j: nat)
    requires t.Table? && Own(t, false) && p != [] && CanPut(t, p) && j < |t.kids| && j != p[0]
    ensures Holder(t, p) !in Pages(t.kids[j], false)
  { if |p| > 1 { HolderIn(t.kids[p[0]], p[1..]); } }

  /** Replacing a kid whose new pages are not used elsewhere in the table. */
  lemma KidReplace(t: PT, i: nat, k: PT, full: bool)
    requires t.Table? && i < |t.kids| && Own(t, full) && Own(k, full)
    requires Pages(k, full) !! (Pages(t, full) - Pages(t.kids[i], full))
    ensures var t' := Table(t.pa, t.kids[i := k]);
            Own(t', full) && Pages(t', full) == (Pages(t, full) - Pages(t.kids[i], full)) + Pages(k, full)
  {
    var t' := Table(t.pa, t.kids[i := k]);
    forall j | 0 <= j < |t.kids| ensures Pages(t.kids[j], full) <= Pages(t, full) { KidIn(t, j, full); }
    forall j | 0 <= j < |t'.kids| ensures t'.pa !in Pages(t'.kids[j], full) && Own(t'.kids[j], full) {}
    forall j, l | 0 <= j < l < |t'.kids| ensures Pages(t'.kids[j], full) !! Pages(t'.kids[l], full) {}
    KidUnion(t, i, k, full);
  }

  lemma KidUnion(t: PT, i: nat, k: PT, full: bool)
    requires t.Table? && i < |t.kids| && Own(t, full)
    ensures Pages(Table(t.pa, t.kids[i := k]), full) == (Pages(t, full) - Pages(t.kids[i], full)) + Pages(k, full)
  {
    var ks := t.kids[i := k];
    forall x ensures x in KidPages(ks, full) <==> x in Pages(k, full) || (x in KidPages(t.kids, full) && x !in Pages(t.kids[i], full)) {
      if x in KidPages(t.kids, full) && x !in Pages(t.kids[i], full) {
        var j :| 0 <= j < |t.kids| && x in Pages(t.kids[j], full);
        assert ks[j] == t.kids[j];
      }
      if x in KidPages(ks, full) && x !in Pages(k, full) {
        var j :| 0 <= j < |ks| && x in Pages(ks[j], full);
        assert j != i && ks[j] == t.kids[j];
      }
      if x in Pages(k, full) { assert ks[i] == k; }
    }
  }

  /** Replacing a slot replaces exactly its pages. */
  lemma {:induction false} PutPages(t: PT, p: seq<nat>, sub: PT, full: bool)
    requires CanPut(t, p) && p != [] && Own(t, full) && Own(sub, full)
    requires Pages(sub, full) !! (Pages(t, full) - Pages(Lookup(t, p), full))
    ensures Own(Put(t, p, sub), full)
    ensures Pages(Put(t, p, sub), full) == (Pages(t, full) - Pages(Lookup(t, p), full)) + Pages(sub, full)
    ensures Pages(Lookup(t, p), full) <= Pages(t, full)
    decreases p
  {
    hide Pages, Own;
    var i, k := p[0], t.kids[p[0]];
    KidIn(t, i, full);
    OwnKid(t, i, full);
    if |p| == 1 {
      assert Lookup(t, p) == k by { assert p[1..] == []; }
      KidReplace(t, i, sub, full);
    } else {
      PutPages(k, p[1..], sub, full);
      KidReplace(t, i, Put(k, p[1..], sub), full);
    }
  }

  lemma OwnKid(t: PT, i: nat, full: bool)
    requires t.Table? && Own(t, full) && i < |t.kids|
    ensures Own(t.kids[i], full) && t.pa !in Pages(t.kids[i], full)
  {}

  /** A table with nothing in it. */
  function EmptyTable(pa: int): (t: PT)
    ensures t.Table? && t.pa == pa
  { Table(pa, seq(WORDS, _ => Absent)) }

  lemma EmptyTableFacts(st: Mem, pa: int, depth: nat, full: bool)
    requires PaOk(pa) && pa in st && st[pa] == ZeroPage() && depth <= 3
    ensures Repr(st, EmptyTable(pa), depth) && Own(EmptyTable(pa), full) && Pages(EmptyTable(pa), full) == {pa}
  {}

  lemma {:induction false} EmptyLookup(pa: int, q: seq<nat>)
    requires q != []
    ensures Lookup(EmptyTable(pa), q) == Absent
  {}

  lemma {:induction false} AbsentLookup(q: seq<nat>)
    ensures Lookup(Absent, q) == Absent
  {}

  lemma {:induction false} LookupSplit(t: PT, p: seq<nat>, q: seq<nat>)
    ensures Lookup(t, p + q) == Lookup(Lookup(t, p), q)
    decreases p
  {
    if p == [] {
      assert p + q == q;
    } else if t.Table? && p[0] < |t.kids| {
      assert (p + q)[1..] == p[1..] + q;
      LookupSplit(t.kids[p[0]], p[1..], q);
    } else {
      AbsentLookup(q);
    }
  }

  /** Adding an empty table in an empty slot maps nothing. */
  lemma AddTableMapsNothing(t: PT, p: seq<nat>, pa: int, q: seq<nat>)
    requires CanPut(t, p) && Lookup(t, p) == Absent && |p| < |q|
    ensures Lookup(Put(t, p, EmptyTable(pa)), q) == Lookup(t, q)
  {
    LookupPut(t, p, EmptyTable(pa), q);
    if p <= q {
      assert q == p + q[|p|..];
      LookupSplit(t, p, q[|p|..]);
      AbsentLookup(q[|p|..]);
      EmptyLookup(pa, q[|p|..]);
    }
  }

  /** Every lookup in a represented tree is represented at its depth. */
  lemma {:induction false} LookupRepr(st: Mem, t: PT, p: seq<nat>, depth: nat)
    requires Repr(st, t, depth)
    ensures Repr(st, Lookup(t, p), depth + |p|)
    decreases p
  {
    hide Repr;
    if p != [] && t.Table? && p[0] < |t.kids| {
      TableFacts(st, t, p[0], depth);
      LookupRepr(st, t.kids[p[0]], p[1..], depth + 1);
    } else if p != [] {
      AbsentRepr(st, depth + |p|);
    }
  }

  lemma AbsentRepr(st: Mem, depth: nat)
    ensures Repr(st, Absent, depth)
  {}

  /** What the entry of a represented slot says about it. */
  lemma WordFacts(st: Mem, t: PT, depth: nat)
    requires Repr(st, t, depth)
    ensures IsValid(Word(t)) <==> t != Absent
    ensures t != Absent ==> Addr(Word(t)) == t.pa
    ensures depth <= 3 ==> !t.Leaf?
    ensures depth >= 4 ==> !t.Table?
  {
    match t {
      case Absent =>
      case Leaf(pa, attr) => WordDecodes(pa, attr);
      case Table(pa, _) => TableDecodes(pa);
    }
  }
}
