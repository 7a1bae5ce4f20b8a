/** The linker's symbol table and the extraction of archive members. */
module Archives {
  import opened Arith
  import opened Objects

  /** A definition: the symbol and the position of its object in the list of objects. */
  datatype Def = Def(name: string, strong: bool, value: nat, shndx: nat, file: nat)

  type Table = map<string, Def>

  // ---------- Definitions and the table they give ----------

  predicate IsDef(s: Sym) { s.binding != Local && s.shndx != UNDEF && s.name != "" }

  /** An undefined reference that must be found somewhere. */
  predicate IsRef(s: Sym) { s.binding != Local && s.shndx == UNDEF && s.name != "" }

  function DefOf(s: Sym, file: nat): Def { Def(s.name, s.binding == Global, s.value, s.shndx, file) }

  function DefsIn(o: Syms, file: nat): seq<Def> {
    if o == [] then []
    else DefsIn(o[..|o| - 1], file) + if IsDef(o[|o| - 1]) then [DefOf(o[|o| - 1], file)] else []
  }

  /** All definitions in the order of the objects. */
  function Defs(objects: seq<Object>): seq<Def> {
    if objects == [] then [] else Defs(objects[..|objects| - 1]) + DefsIn(objects[|objects| - 1].syms, |objects| - 1)
  }

  /** One more definition: a weak one gives way to a strong one, two strong ones clash. */
  function Add(t: Table, d: Def): Option<Table> {
    if d.name !in t then Some(t[d.name := d])
    else if !t[d.name].strong && d.strong then Some(t[d.name := d])
    else if t[d.name].strong && d.strong then None
    else Some(t)
  }

  function Fold(t: Table, ds: seq<Def>): Option<Table> {
    if ds == [] then Some(t)
    else match Fold(t, ds[..|ds| - 1])
         case None => None
         case Some(u) => Add(u, ds[|ds| - 1])
  }

  lemma {:induction false} FoldAppend(t: Table, a: seq<Def>, b: seq<Def>)
    ensures Fold(t, a + b) == match Fold(t, a) case None => None case Some(u) => Fold(u, b)
    decreases |b|
  {
    if b == [] {
      assert a + b == a;
    } else {
      assert (a + b)[..|a + b| - 1] == a + b[..|b| - 1];
      FoldAppend(t, a, b[..|b| - 1]);
    }
  }

  /** d is the definition the table must hold for its name: the strong one if there is one, otherwise
      the first. */
  ghost predicate Chosen(ds: seq<Def>, d: Def) {
    exists i :: 0 <= i < |ds| && ds[i] == d
                && (forall j :: 0 <= j < |ds| && j != i && ds[j].name == d.name ==> !ds[j].strong && (!d.strong ==> i < j))
  }

  ghost predicate Clash(ds: seq<Def>) {
    exists i, j :: 0 <= i < j < |ds| && ds[i].name == ds[j].name && ds[i].strong && ds[j].strong
  }

  /** The table built from nothing holds for each defined name exactly the chosen definition, and
      linking fails exactly when two strong definitions share a name. */
  lemma {:induction false} TableIs(ds: seq<Def>)
    ensures Fold(map[], ds) == None <==> Clash(ds)
    ensures Fold(map[], ds).Some? ==>
              (forall n :: n in Fold(map[], ds).value <==> exists i :: 0 <= i < |ds| && ds[i].name == n)
              && (forall n :: n in Fold(map[], ds).value ==> Fold(map[], ds).value[n].name == n && Chosen(ds, Fold(map[], ds).value[n]))
    decreases |ds|
  {
    if ds != [] {
      var a, d := ds[..|ds| - 1], ds[|ds| - 1];
      TableIs(a);
      assert ds == a + [d];
      if Fold(map[], a).None? {
        ClashMore(a, d);
      } else {
        var t := Fold(map[], a).value;
        StepTable(a, d, t);
        StepClash(a, d, t);
      }
    }
  }

  lemma ClashMore(a: seq<Def>, d: Def)
    requires Clash(a)
    ensures Clash(a + [d])
  {
    var i, j :| 0 <= i < j < |a| && a[i].name == a[j].name && a[i].strong && a[j].strong;
    assert (a + [d])[i] == a[i] && (a + [d])[j] == a[j];
  }

  lemma StepClash(a: seq<Def>, d: Def, t: Table)
    requires !Clash(a) && (forall n :: n in t <==> exists i :: 0 <= i < |a| && a[i].name == n)
    requires forall n :: n in t ==> t[n].name == n && Chosen(a, t[n])
    ensures Clash(a + [d]) <==> d.name in t && t[d.name].strong && d.strong
  {
    var ds := a + [d];
    if d.name in t && t[d.name].strong && d.strong {
      var i :| 0 <= i < |a| && a[i] == t[d.name];
      assert ds[i] == a[i] && ds[|a|] == d;
    }
    if Clash(ds) {
      var i, j :| 0 <= i < j < |ds| && ds[i].name == ds[j].name && ds[i].strong && ds[j].strong;
      if j == |a| {
        assert a[i].name == d.name;
        var k :| 0 <= k < |a| && a[k] == t[d.name]
                 && (forall l :: 0 <= l < |a| && l != k && a[l].name == t[d.name].name ==> !a[l].strong && (!t[d.name].strong ==> k < l));
      }
    }
  }

  lemma StepTable(a: seq<Def>, d: Def, t: Table)
    requires (forall n :: n in t <==> exists i :: 0 <= i < |a| && a[i].name == n)
    requires forall n :: n in t ==> t[n].name == n && Chosen(a, t[n])
    ensures Add(t, d).Some? ==>
              (forall n :: n in Add(t, d).value <==> exists i :: 0 <= i < |a + [d]| && (a + [d])[i].name == n)
              && (forall n :: n in Add(t, d).value ==> Add(t, d).value[n].name == n && Chosen(a + [d], Add(t, d).value[n]))
  {
    if Add(t, d).Some? {
      var ds, u := a + [d], Add(t, d).value;
      forall n ensures n in u <==> exists i :: 0 <= i < |ds| && ds[i].name == n {
        if n in t { var i :| 0 <= i < |a| && a[i].name == n; assert ds[i].name == n; }
        if n == d.name { assert ds[|a|].name == n; }
        if i :| 0 <= i < |ds| && ds[i].name == n { if i < |a| { assert a[i].name == n; } }
      }
      forall n | n in u ensures u[n].name == n && Chosen(ds, u[n]) { StepChosen(a, d, t, n); }
    }
  }

  lemma StepChosen(a: seq<Def>, d: Def, t: Table, n: string)
    requires (forall x :: x in t <==> exists i :: 0 <= i < |a| && a[i].name == x)
    requires forall x :: x in t ==> t[x].name == x && Chosen(a, t[x])
    requires Add(t, d).Some? && n in Add(t, d).value
    ensures Add(t, d).value[n].name == n && Chosen(a + [d], Add(t, d).value[n])
  {
    var ds, e := a + [d], Add(t, d).value[n];
    if n in t {
      var i :| 0 <= i < |a| && a[i] == t[n]
               && (forall j :: 0 <= j < |a| && j != i && a[j].name == n ==> !a[j].strong && (!t[n].strong ==> i < j));
      if e == t[n] && !(n == d.name && e == d && !t[n].strong && d.strong) {
        assert ds[i] == e;
      } else {
        assert ds[|a|] == d == e;
      }
    } else {
      assert n == d.name && ds[|a|] == d == e;
      forall j | 0 <= j < |a| ensures ds[j].name != n { assert ds[j] == a[j]; }
    }
  }

  // ---------- The table in terms of the symbols of the objects ----------

  /** Symbol j of object i defines the name: not local, not undefined, not nameless. */
  ghost predicate DefinedAt(objects: seq<Object>, i: nat, j: nat, n: string) {
    && i < |objects| && j < |objects[i].syms| && n != ""
    && objects[i].syms[j].name == n && objects[i].syms[j].binding != Local && objects[i].syms[j].shndx != UNDEF
  }

  predicate Earlier(i: nat, j: nat, k: nat, l: nat) { i < k || (i == k && j < l) }

  /** d has value, section and object of a symbol that defines the name: of the only strong one if
      there is one, otherwise of the first. */
  ghost predicate IsChosen(objects: seq<Object>, n: string, d: Def) {
    exists i: nat, j: nat :: ChosenAt(objects, n, i, j)
      && d == Def(n, objects[i].syms[j].binding == Global, objects[i].syms[j].value, objects[i].syms[j].shndx, i)
  }

  ghost predicate ChosenAt(objects: seq<Object>, n: string, i: nat, j: nat) {
    && DefinedAt(objects, i, j, n)
    && forall k: nat, l: nat :: DefinedAt(objects, k, l, n) && !(k == i && l == j) ==>
         objects[k].syms[l].binding == Weak && (objects[i].syms[j].binding == Weak ==> Earlier(i, j, k, l))
  }

  /** Two strong symbols define one name. */
  ghost predicate TwoStrong(objects: seq<Object>) {
    exists n: string, i: nat, j: nat, k: nat, l: nat :: StrongAt(objects, i, j, n) && StrongAt(objects, k, l, n) && Earlier(i, j, k, l)
  }

  ghost predicate StrongAt(objects: seq<Object>, i: nat, j: nat, n: string) {
    DefinedAt(objects, i, j, n) && objects[i].syms[j].binding == Global
  }

  /** Where the definitions stand, in their order. */
  ghost function SpotsIn(o: Syms, file: nat): seq<(nat, nat)> {
    if o == [] then [] else SpotsIn(o[..|o| - 1], file) + if IsDef(o[|o| - 1]) then [(file, |o| - 1)] else []
  }

  ghost function Spots(objects: seq<Object>): seq<(nat, nat)> {
    if objects == [] then [] else Spots(objects[..|objects| - 1]) + SpotsIn(objects[|objects| - 1].syms, |objects| - 1)
  }

  ghost predicate Ordered(s: seq<(nat, nat)>) { forall p, q :: 0 <= p < q < |s| ==> Earlier(s[p].0, s[p].1, s[q].0, s[q].1) }

  lemma {:induction false} SpotsInAre(o: Syms, file: nat)
    ensures |SpotsIn(o, file)| == |DefsIn(o, file)| && Ordered(SpotsIn(o, file))
    ensures forall q :: 0 <= q < |SpotsIn(o, file)| ==>
              var s := SpotsIn(o, file)[q]; s.0 == file && s.1 < |o| && IsDef(o[s.1]) && DefsIn(o, file)[q] == DefOf(o[s.1], file)
    ensures forall j: nat :: j < |o| && IsDef(o[j]) ==> (file, j) in SpotsIn(o, file)
  { if o != [] { SpotsInAre(o[..|o| - 1], file); } }

  lemma {:induction false} SpotsAre(objects: seq<Object>)
    ensures |Spots(objects)| == |Defs(objects)| && Ordered(Spots(objects))
    ensures forall q :: 0 <= q < |Spots(objects)| ==>
              var s := Spots(objects)[q]; s.0 < |objects| && s.1 < |objects[s.0].syms| && IsDef(objects[s.0].syms[s.1])
                                          && Defs(objects)[q] == DefOf(objects[s.0].syms[s.1], s.0)
    ensures forall i: nat, j: nat :: i < |objects| && j < |objects[i].syms| && IsDef(objects[i].syms[j]) ==> (i, j) in Spots(objects)
  {
    hide DefOf, IsDef, SpotsIn, DefsIn;
    if objects != [] {
      var m := |objects| - 1;
      SpotsAre(objects[..m]);
      SpotsInAre(objects[m].syms, m);
    }
  }

  /** What the table built from the objects' definitions means for their symbols. */
  lemma TableOfSymbols(objects: seq<Object>)
    ensures Fold(map[], Defs(objects)) == None <==> TwoStrong(objects)
    ensures Fold(map[], Defs(objects)).Some? ==>
              (forall i: nat, j: nat, n: string :: DefinedAt(objects, i, j, n) ==> n in Fold(map[], Defs(objects)).value)
              && (forall n :: n in Fold(map[], Defs(objects)).value ==> IsChosen(objects, n, Fold(map[], Defs(objects)).value[n]))
  {
    hide Fold, Defs, Spots, Chosen, Clash, TwoStrong, IsChosen, Ordered;
    SpotsAre(objects);
    TableIs(Defs(objects));
    var ds, at := Defs(objects), Spots(objects);
    assert Lists(objects, ds, at);
    ClashOfSymbols(objects, ds, at);
    if Fold(map[], ds).Some? {
      var t := Fold(map[], ds).value;
      forall i: nat, j: nat, n: string | DefinedAt(objects, i, j, n) ensures n in t {
        var q :| 0 <= q < |at| && at[q] == (i, j);
        assert ds[q].name == n;
      }
      forall n | n in t ensures IsChosen(objects, n, t[n]) { ChosenOfSymbols(objects, ds, at, t[n]); }
    }
  }

  /** ds lists the definitions of the objects, found at the places in at. */
  ghost predicate Lists(objects: seq<Object>, ds: seq<Def>, at: seq<(nat, nat)>) {
    && |at| == |ds| && Ordered(at)
    && (forall q :: 0 <= q < |at| ==>
          at[q].0 < |objects| && at[q].1 < |objects[at[q].0].syms| && IsDef(objects[at[q].0].syms[at[q].1])
          && ds[q] == DefOf(objects[at[q].0].syms[at[q].1], at[q].0))
    && forall i: nat, j: nat :: i < |objects| && j < |objects[i].syms| && IsDef(objects[i].syms[j]) ==> (i, j) in at
  }

  lemma ClashOfSymbols(objects: seq<Object>, ds: seq<Def>, at: seq<(nat, nat)>)
    requires Lists(objects, ds, at)
    ensures Clash(ds) <==> TwoStrong(objects)
  {
    hide Lists;
    if Clash(ds) {
      var p, q :| 0 <= p < q < |ds| && ds[p].name == ds[q].name && ds[p].strong && ds[q].strong;
      StrongSpot(objects, ds, at, p, q);
      assert StrongAt(objects, at[p].0, at[p].1, ds[p].name);
    }
    if TwoStrong(objects) {
      var n: string, i: nat, j: nat, k: nat, l: nat :| StrongAt(objects, i, j, n) && StrongAt(objects, k, l, n) && Earlier(i, j, k, l);
      var p := StrongDef(objects, ds, at, n, i, j);
      var q := StrongDef(objects, ds, at, n, k, l);
      SpotOrder(objects, ds, at, p, q);
    }
  }

  lemma StrongSpot(objects: seq<Object>, ds: seq<Def>, at: seq<(nat, nat)>, p: nat, q: nat)
    requires Lists(objects, ds, at) && p < q < |ds| && ds[p].name == ds[q].name && ds[p].strong && ds[q].strong
    ensures |at| == |ds| && StrongAt(objects, at[p].0, at[p].1, ds[p].name) && StrongAt(objects, at[q].0, at[q].1, ds[p].name)
    ensures Earlier(at[p].0, at[p].1, at[q].0, at[q].1)
  {}

  lemma StrongDef(objects: seq<Object>, ds: seq<Def>, at: seq<(nat, nat)>, n: string, i: nat, j: nat) returns (p: nat)
    requires Lists(objects, ds, at) && StrongAt(objects, i, j, n)
    ensures p < |ds| == |at| && at[p] == (i, j) && ds[p].name == n && ds[p].strong
  { p :| p < |at| && at[p] == (i, j); }

  lemma SpotOrder(objects: seq<Object>, ds: seq<Def>, at: seq<(nat, nat)>, p: nat, q: nat)
    requires Lists(objects, ds, at) && p < |at| && q < |at| && Earlier(at[p].0, at[p].1, at[q].0, at[q].1)
    ensures p < q
  {}

  lemma ChosenOfSymbols(objects: seq<Object>, ds: seq<Def>, at: seq<(nat, nat)>, d: Def)
    requires Lists(objects, ds, at) && Chosen(ds, d)
    ensures IsChosen(objects, d.name, d)
  {
    var q :| 0 <= q < |ds| && ds[q] == d
             && (forall r :: 0 <= r < |ds| && r != q && ds[r].name == d.name ==> !ds[r].strong && (!d.strong ==> q < r));
    var i, j := at[q].0, at[q].1;
    forall k: nat, l: nat | DefinedAt(objects, k, l, d.name) && !(k == i && l == j)
      ensures objects[k].syms[l].binding == Weak && (objects[i].syms[j].binding == Weak ==> Earlier(i, j, k, l))
    {
      var r :| 0 <= r < |at| && at[r] == (k, l);
      assert ds[r].name == d.name;
    }
    assert ChosenAt(objects, d.name, i, j);
  }

  // ---------- Archives ----------

  /** What an archive's index gives for a name: the member of the first entry with it, or -1. */
  function Find(index: seq<Entry>, name: string): int {
    if index == [] then -1 else if index[0].name == name then index[0].member else Find(index[1..], name)
  }

  predicate Defines(o: Syms, name: string) { exists i :: 0 <= i < |o| && IsDef(o[i]) && o[i].name == name }

  /** The index names members that do define the symbols listed. */
  ghost predicate Truthful(ars: seq<Archive>) {
    forall k: nat, n: string :: k < |ars| && Find(ars[k].index, n) >= 0 ==>
      Find(ars[k].index, n) < |ars[k].members| && Defines(ars[k].members[Find(ars[k].index, n)].syms, n)
  }

  /** No archive before k has the name, and archive k has it as member m. */
  ghost predicate FirstWith(ars: seq<Archive>, n: string, k: nat) {
    k < |ars| && Find(ars[k].index, n) >= 0 && forall i :: 0 <= i < k ==> Find(ars[i].index, n) < 0
  }

  ghost predicate Nowhere(ars: seq<Archive>, n: string) { forall k: nat :: k < |ars| ==> Find(ars[k].index, n) < 0 }

  /** Nothing more can be done for a symbol: it is no open reference, its name is in the table, or no archive has it. */
  ghost predicate Settled(ars: seq<Archive>, t: Table, s: Sym) { IsRef(s) ==> s.name in t || Nowhere(ars, s.name) }

  ghost predicate AllSettled(ars: seq<Archive>, t: Table, o: Syms, upto: nat) {
    forall j: nat :: j < upto && j < |o| ==> Settled(ars, t, o[j])
  }

  /** All members of all archives. */
  ghost function Places(ars: seq<Archive>): set<(nat, nat)> {
    set k: nat, m: nat | k < |ars| && m < |ars[k].members| :: (k, m)
  }

  /** Objects from n0 on are members, each taken for the entry point or for a reference of an earlier
      object that its archive's index lists it for. */
  ghost predicate Justified(ars: seq<Archive>, objects: seq<Object>, n0: nat, why: seq<string>, entry: string) {
    && |objects| == n0 + |why|
    && forall i: nat :: i < |why| ==> Reason(ars, objects, n0 + i, why[i], entry)
  }

  ghost predicate Reason(ars: seq<Archive>, objects: seq<Object>, i: nat, n: string, entry: string)
    requires i < |objects|
  {
    && (exists k: nat :: FirstWith(ars, n, k) && Find(ars[k].index, n) < |ars[k].members| && objects[i] == ars[k].members[Find(ars[k].index, n)])
    && (n == entry || exists l: nat, j: nat :: l < i && j < |objects[l].syms| && IsRef(objects[l].syms[j]) && objects[l].syms[j].name == n)
  }

  /** Every member marked extracted is among the objects. */
  ghost predicate Present(ars: seq<Archive>, objects: seq<Object>, extracted: set<(nat, nat)>) {
    forall p :: p in extracted ==> p.0 < |ars| && p.1 < |ars[p.0].members| && ars[p.0].members[p.1] in objects
  }

  lemma {:induction false} DefsInHas(o: Syms, file: nat, i: nat)
    requires i < |o| && IsDef(o[i])
    ensures DefOf(o[i], file) in DefsIn(o, file)
  { if i < |o| - 1 { DefsInHas(o[..|o| - 1], file, i); } }

  lemma {:induction false} DefsHas(objects: seq<Object>, l: nat, i: nat)
    requires l < |objects| && i < |objects[l].syms| && IsDef(objects[l].syms[i])
    ensures DefOf(objects[l].syms[i], l) in Defs(objects)
  {
    if l < |objects| - 1 { DefsHas(objects[..|objects| - 1], l, i); } else { DefsInHas(objects[l].syms, l, i); }
  }

  /** The table of the objects has every name one of them defines. */
  lemma DefinedInTable(objects: seq<Object>, t: Table, o: Object, n: string)
    requires Fold(map[], Defs(objects)) == Some(t) && o in objects && Defines(o.syms, n)
    ensures n in t
  {
    var l :| 0 <= l < |objects| && objects[l] == o;
    var i :| 0 <= i < |o.syms| && IsDef(o.syms[i]) && o.syms[i].name == n;
    DefsHas(objects, l, i);
    TableIs(Defs(objects));
    var d := DefOf(o.syms[i], l);
    var q :| 0 <= q < |Defs(objects)| && Defs(objects)[q] == d;
    assert Defs(objects)[q].name == n;
  }

  /** An unresolved name's member was not extracted yet. */
  lemma NotYet(ars: seq<Archive>, objects: seq<Object>, extracted: set<(nat, nat)>, t: Table, n: string, k: nat)
    requires Truthful(ars) && Present(ars, objects, extracted) && Fold(map[], Defs(objects)) == Some(t)
    requires n !in t && k < |ars| && Find(ars[k].index, n) >= 0
    ensures Find(ars[k].index, n) < |ars[k].members| && (k, Find(ars[k].index, n)) !in extracted
    ensures Defines(ars[k].members[Find(ars[k].index, n)].syms, n)
  {
    var m := Find(ars[k].index, n);
    if (k, m) in extracted { DefinedInTable(objects, t, ars[k].members[m], n); }
  }

  lemma {:induction false} FoldKeys(t: Table, ds: seq<Def>)
    ensures Fold(t, ds).Some? ==> t.Keys <= Fold(t, ds).value.Keys
    decreases |ds|
  { if ds != [] { FoldKeys(t, ds[..|ds| - 1]); } }

  lemma SettledGrows(ars: seq<Archive>, t: Table, u: Table, o: Syms, upto: nat)
    requires AllSettled(ars, t, o, upto) && t.Keys <= u.Keys
    ensures AllSettled(ars, u, o, upto)
  {}

  lemma JustifiedMore(ars: seq<Archive>, objects: seq<Object>, n0: nat, why: seq<string>, entry: string, o: Object, n: string)
    requires Justified(ars, objects, n0, why, entry) && Reason(ars, objects + [o], |objects|, n, entry)
    ensures Justified(ars, objects + [o], n0, why + [n], entry)
  {
    forall i: nat | i < |why + [n]| ensures Reason(ars, objects + [o], n0 + i, (why + [n])[i], entry) {
      if i < |why| { ReasonStays(ars, objects, o, n0 + i, why[i], entry); }
    }
  }

  lemma ReasonStays(ars: seq<Archive>, objects: seq<Object>, o: Object, i: nat, n: string, entry: string)
    requires i < |objects| && Reason(ars, objects, i, n, entry)
    ensures Reason(ars, objects + [o], i, n, entry)
  {
    if n != entry {
      var l: nat, j: nat :| l < i && j < |objects[l].syms| && IsRef(objects[l].syms[j]) && objects[l].syms[j].name == n;
      assert (objects + [o])[l] == objects[l];
    }
  }

  lemma PlacesBound(ars: seq<Archive>, e: set<(nat, nat)>)
    requires e <= Places(ars)
    ensures |e| <= |Places(ars)|
  { SubsetSize(e, Places(ars)); }

  class Linker {
    const ars: seq<Archive>
    var objects: seq<Object>
    var extracted: set<(nat, nat)>
    var table: Table
    ghost var n0: nat
    ghost var why: seq<string>

    /** The table is that of the objects so far, and every extraction had a reason. */
    ghost predicate Valid(entry: string)
      reads this
    {
      && Truthful(ars) && Present(ars, objects, extracted) && extracted <= Places(ars)
      && Fold(map[], Defs(objects)) == Some(table)
      && Justified(ars, objects, n0, why, entry) && |why| == |extracted|
    }

    constructor (ars: seq<Archive>, objects: seq<Object>)
      ensures this.ars == ars && this.objects == objects && extracted == {} && table == map[] && n0 == |objects| && why == []
    { this.ars, this.objects, extracted, table, n0, why := ars, objects, {}, map[], |objects|, []; }

    /** collect_definitions for one object, at its place in the list; false where the linker exits. */
    method CollectOne(o: Syms, file: nat) returns (ok: bool)
      modifies this`table
      ensures Fold(old(table), DefsIn(o, file)) == if ok then Some(table) else None
    {
      hide Fold, DefsIn;
      NoDefs(old(table), file);
      assert o[..0] == [];
      ok := true;
      var j := 0;
      while j < |o|
        invariant j <= |o| && Fold(old(table), DefsIn(o[..j], file)) == Some(table)
      {
        DefsStep(o, file, j);
        var sym := o[j];
        if sym.binding != Local && sym.shndx != UNDEF && sym.name != "" {
          var d := Def(sym.name, sym.binding == Global, sym.value, sym.shndx, file);
          FoldOne(old(table), DefsIn(o[..j], file), d);
          if d.name in table {
            if !table[d.name].strong && d.strong {
              table := table[d.name := d];
            } else if table[d.name].strong && d.strong {
              NoneStays(old(table), o, file, j + 1);
              return false;
            }
          } else {
            table := table[d.name := d];
          }
        }
        j := j + 1;
      }
      assert o[..|o|] == o;
    }

    /** The first call of collect_definitions: all objects given on the command line. */
    method CollectAll() returns (ok: bool)
      requires table == map[]
      modifies this`table
      ensures Fold(map[], Defs(objects)) == if ok then Some(table) else None
    {
      ok := true;
      var i := 0;
      while i < |objects|
        invariant i <= |objects| && Fold(map[], Defs(objects[..i])) == Some(table)
      {
        assert objects[..i + 1][..i] == objects[..i];
        FoldAppend(map[], Defs(objects[..i]), DefsIn(objects[i].syms, i));
        ok := CollectOne(objects[i].syms, i);
        if !ok {
          NoneStaysAll(objects, i + 1);
          return;
        }
        i := i + 1;
      }
      assert objects[..|objects|] == objects;
    }

    /** archive_find_symbol */
    method FindSymbol(k: nat, name: string) returns (m: int)
      requires k < |ars|
      ensures m == Find(ars[k].index, name)
      ensures (m == -1 && forall i :: 0 <= i < |ars[k].index| ==> ars[k].index[i].name != name)
              || exists i :: 0 <= i < |ars[k].index| && ars[k].index[i] == Entry(name, m) && forall j :: 0 <= j < i ==> ars[k].index[j].name != name
    {
      var i := 0;
      while i < |ars[k].index|
        invariant i <= |ars[k].index| && Find(ars[k].index, name) == Find(ars[k].index[i..], name)
        invariant forall j :: 0 <= j < i ==> ars[k].index[j].name != name
      {
        if ars[k].index[i].name == name {
          assert ars[k].index[i] == Entry(name, ars[k].index[i].member);
          return ars[k].index[i].member;
        }
        i := i + 1;
      }
      m := -1;
    }

    /** archive_extract_member, add_object and collect_definitions for a member found for a name. */
    method TakeMember(name: string, entry: string, k: nat, m: nat) returns (ok: bool)
      requires Valid(entry) && name !in table && FirstWith(ars, name, k) && Find(ars[k].index, name) == m
      requires name == entry || exists l: nat, j: nat :: l < |objects| && j < |objects[l].syms| && IsRef(objects[l].syms[j]) && objects[l].syms[j].name == name
      modifies this
      ensures m < |ars[k].members| && (k, m) !in old(extracted)
      ensures objects == old(objects) + [ars[k].members[m]] && extracted == old(extracted) + {(k, m)} && n0 == old(n0)
      ensures ok ==> Valid(entry) && old(table).Keys <= table.Keys && name in table && |extracted| == |old(extracted)| + 1
      ensures !ok ==> Clash(Defs(objects))
    {
      hide Truthful, Present, Justified, Reason, Clash, Places, Defines, Fold, DefsIn, Find;
      NotYet(ars, objects, extracted, table, name, k);
      ghost var obs, ex, t := objects, extracted, table;
      extracted := extracted + {(k, m)};
      var member := ars[k].members[m];
      objects := objects + [member];
      Taken(ars, obs, ex, n0, why, entry, name, k, m);
      DefsAppend(obs, member);
      FoldAppend(map[], Defs(obs), DefsIn(member.syms, |obs|));
      ok := CollectOne(member.syms, |objects| - 1);
      why := why + [name];
      ClashIff(Defs(objects));
      if ok {
        FoldKeys(t, DefsIn(member.syms, |obs|));
        DefinedInTable(objects, table, member, name);
      }
    }

    /** The search for one unresolved name: the first archive that lists it gives its member, which
        becomes the last object and adds its definitions. */
    method Extract(name: string, entry: string) returns (ok: bool, found: bool)
      requires Valid(entry) && name !in table
      requires name == entry || exists l: nat, j: nat :: l < |objects| && j < |objects[l].syms| && IsRef(objects[l].syms[j]) && objects[l].syms[j].name == name
      modifies this
      ensures ok ==> Valid(entry) && n0 == old(n0) && old(table).Keys <= table.Keys && old(objects) <= objects
      ensures Nowhere(ars, name) ==> ok && !found
      ensures ok && !found ==> Nowhere(ars, name) && objects == old(objects) && table == old(table) && extracted == old(extracted)
      ensures ok && found ==> name in table && |objects| == |old(objects)| + 1 && |extracted| == |old(extracted)| + 1
      ensures !ok ==> Clash(Defs(objects))
    {
      hide Truthful, Present, Justified, Reason, Clash, Places, Defines;
      ok, found := true, false;
      var k := 0;
      while k < |ars|
        invariant k <= |ars| && ok && !found && forall i :: 0 <= i < k ==> Find(ars[i].index, name) < 0
        invariant Valid(entry) && n0 == old(n0) && table == old(table) && objects == old(objects) && extracted == old(extracted)
      {
        var m := FindSymbol(k, name);
        if m >= 0 {
          ok := TakeMember(name, entry, k, m);
          return ok, true;
        }
        k := k + 1;
      }
    }

    /** resolve_archives: on success every open reference of every object is in the table or in no
        archive, and every extraction had a reason. It ends because each extraction uses up a member. */
    method ResolveArchives(entry: string) returns (ok: bool)
      requires Valid(entry)
      modifies this
      ensures ok ==> Valid(entry) && n0 == old(n0) && old(objects) <= objects && old(table).Keys <= table.Keys
      ensures ok ==> forall i: nat :: i < |objects| ==> AllSettled(ars, table, objects[i].syms, |objects[i].syms|)
      ensures ok ==> entry in table || Nowhere(ars, entry)
      ensures !ok ==> Clash(Defs(objects))
    {
      hide Truthful, Present, Justified, Places, Nowhere, Clash, AllSettled, Fold;
      ok := true;
      var found;
      if entry !in table {
        ok, found := Extract(entry, entry);
        if !ok { return; }
      }
      var again := true;
      while again
        invariant Valid(entry) && n0 == old(n0) && old(objects) <= objects && old(table).Keys <= table.Keys
        invariant entry in table || Nowhere(ars, entry)
        invariant !again ==> forall i: nat :: i < |objects| ==> AllSettled(ars, table, objects[i].syms, |objects[i].syms|)
        decreases |Places(ars)| - |extracted|, again
      {
        ghost var before := |extracted|;
        ok, again := Pass(entry);
        if !ok { return; }
        PlacesBound(ars, extracted);
      }
    }

    /** One pass over the objects, those appended during it included. A pass over settled references finds
        nothing, so the second pass never does. */
    method Pass(entry: string) returns (ok: bool, again: bool)
      requires Valid(entry)
      modifies this
      ensures ok ==> Valid(entry) && n0 == old(n0) && old(objects) <= objects && old(table).Keys <= table.Keys
      ensures ok ==> (again <==> |extracted| > |old(extracted)|) && |extracted| >= |old(extracted)|
      ensures ok ==> forall i: nat :: i < |objects| ==> AllSettled(ars, table, objects[i].syms, |objects[i].syms|)
      ensures (forall i: nat :: i < |old(objects)| ==> AllSettled(ars, old(table), old(objects)[i].syms, |old(objects)[i].syms|)) ==>
                ok && !again && objects == old(objects) && table == old(table)
      ensures !ok ==> Clash(Defs(objects))
    {
      hide Truthful, Present, Justified, Places, Nowhere, Clash, AllSettled, Fold;
      ghost var settled := forall i: nat :: i < |objects| ==> AllSettled(ars, table, objects[i].syms, |objects[i].syms|);
      ok, again := true, false;
      var i: nat := 0;
      while i < |objects|
        invariant i <= |objects| && ok && Valid(entry) && n0 == old(n0) && old(objects) <= objects && old(table).Keys <= table.Keys
        invariant (again <==> |extracted| > |old(extracted)|) && |extracted| >= |old(extracted)|
        invariant settled ==> !again && objects == old(objects) && table == old(table)
        invariant forall l: nat :: l < i ==> AllSettled(ars, table, objects[l].syms, |objects[l].syms|)
        decreases n0 + |Places(ars)| - i
      {
        var obj := objects[i].syms;
        var j := 0;
        NoneYet(ars, table, obj);
        while j < |obj|
          invariant j <= |obj| && i < |objects| && objects[i].syms == obj && ok && Valid(entry) && n0 == old(n0) && old(objects) <= objects
          invariant old(table).Keys <= table.Keys
          invariant (again <==> |extracted| > |old(extracted)|) && |extracted| >= |old(extracted)|
          invariant settled ==> !again && objects == old(objects) && table == old(table)
          invariant forall l: nat :: l < i ==> AllSettled(ars, table, objects[l].syms, |objects[l].syms|)
          invariant AllSettled(ars, table, obj, j)
          decreases |obj| - j
        {
          var sym := obj[j];
          if sym.binding != Local && sym.shndx == UNDEF && sym.name != "" && sym.name !in table {
            ghost var t, obs := table, objects;
            var found;
            assert IsRef(objects[i].syms[j]) && objects[i].syms[j].name == sym.name;
            if settled { WasSettled(ars, table, obj, j); }
            ok, found := Extract(sym.name, entry);
            if !ok { return; }
            if found { again := true; }
            SettledGrows(ars, t, table, obj, j);
            forall l: nat | l < i ensures AllSettled(ars, table, objects[l].syms, |objects[l].syms|) { SettledGrows(ars, t, table, obs[l].syms, |obs[l].syms|); }
          }
          SettledOne(ars, table, obj, j);
          j := j + 1;
        }
        CountBound(entry);
        i := i + 1;
      }
    }

    lemma CountBound(entry: string)
      requires Valid(entry)
      ensures |objects| <= n0 + |Places(ars)|
    { PlacesBound(ars, extracted); }

    /** check_undefined: only strong references must be in the table; the entry point always. */
    method CheckUndefined(entry: string) returns (ok: bool)
      ensures ok <==> entry in table && forall i: nat, j: nat :: i < |objects| && j < |objects[i].syms| ==> StrongFound(table, objects[i].syms[j])
    {
      ok := true;
      var i := 0;
      while i < |objects|
        invariant i <= |objects|
        invariant ok <==> forall l: nat, j: nat :: l < i && j < |objects[l].syms| ==> StrongFound(table, objects[l].syms[j])
      {
        var j := 0;
        ghost var before := ok;
        while j < |objects[i].syms|
          invariant j <= |objects[i].syms|
          invariant ok <==> before && forall l: nat :: l < j ==> StrongFound(table, objects[i].syms[l])
        {
          var sym := objects[i].syms[j];
          if sym.binding != Local && sym.shndx == UNDEF && sym.name != "" && sym.name !in table && sym.binding == Global { ok := false; }
          j := j + 1;
        }
        i := i + 1;
      }
      if entry !in table { ok := false; }
    }
  }

  /** Symbol j of object i is a strong reference that nothing defines and no archive lists. */
  ghost predicate Missing(ars: seq<Archive>, objects: seq<Object>, t: Table, i: nat, j: nat) {
    && i < |objects| && j < |objects[i].syms| && !StrongFound(t, objects[i].syms[j])
    && Nowhere(ars, objects[i].syms[j].name)
  }

  /** The linker up to layout: definitions, archives, check. On success every strong reference and the
      entry point are in the table, which holds for every name the objects define the chosen symbol's
      value, and every other reference is in no archive. It fails only when two strong symbols share a name, or when the entry point or a strong
      reference is defined by no object and listed by no archive. */
  method Link(l: Linker, entry: string) returns (ok: bool)
    requires Truthful(l.ars) && l.table == map[] && l.extracted == {} && l.why == [] && l.n0 == |l.objects|
    modifies l
    ensures ok ==> l.Valid(entry) && entry in l.table && old(l.objects) <= l.objects && l.n0 == old(l.n0)
    ensures ok ==> forall i: nat, j: nat :: i < |l.objects| && j < |l.objects[i].syms| ==> StrongFound(l.table, l.objects[i].syms[j])
    ensures ok ==> forall n :: n in l.table ==> IsChosen(l.objects, n, l.table[n])
    ensures ok ==> forall i: nat, j: nat, n: string :: DefinedAt(l.objects, i, j, n) ==> n in l.table
    ensures ok ==> forall i: nat :: i < |l.objects| ==> AllSettled(l.ars, l.table, l.objects[i].syms, |l.objects[i].syms|)
    ensures !ok ==> TwoStrong(l.objects) || (entry !in l.table && Nowhere(l.ars, entry))
                    || exists i: nat, j: nat :: Missing(l.ars, l.objects, l.table, i, j)
  {
    hide Truthful, AllSettled, Nowhere, Fold, IsChosen, Defs, Places, Reason, TwoStrong, DefinedAt, StrongFound;
    ok := l.CollectAll();
    if !ok {
      TableOfSymbols(l.objects);
      return;
    }
    ok := l.ResolveArchives(entry);
    TableOfSymbols(l.objects);
    TableIs(Defs(l.objects));
    if !ok { return; }
    ok := l.CheckUndefined(entry);
    if !ok && entry in l.table {
      var i: nat, j: nat :| i < |l.objects| && j < |l.objects[i].syms| && !StrongFound(l.table, l.objects[i].syms[j]);
      MissingAt(l.ars, l.objects, l.table, i, j);
    }
  }

  lemma MissingAt(ars: seq<Archive>, objects: seq<Object>, t: Table, i: nat, j: nat)
    requires i < |objects| && AllSettled(ars, t, objects[i].syms, |objects[i].syms|) && j < |objects[i].syms|
    requires !StrongFound(t, objects[i].syms[j])
    ensures Missing(ars, objects, t, i, j)
  { hide Nowhere; }

  /** A strong undefined reference has its name in the table. */
  predicate StrongFound(t: Table, s: Sym) { s.binding == Global && s.shndx == UNDEF && s.name != "" ==> s.name in t }

  lemma DefsAppend(objects: seq<Object>, o: Object)
    ensures Defs(objects + [o]) == Defs(objects) + DefsIn(o.syms, |objects|)
  {}

  lemma ClashIff(ds: seq<Def>)
    ensures Fold(map[], ds) == None <==> Clash(ds)
  { TableIs(ds); }

  lemma NoDefs(t: Table, file: nat)
    ensures DefsIn([], file) == [] && Fold(t, []) == Some(t)
  {}

  lemma DefsStep(o: Syms, file: nat, j: nat)
    requires j < |o|
    ensures DefsIn(o[..j + 1], file) == if IsDef(o[j]) then DefsIn(o[..j], file) + [DefOf(o[j], file)] else DefsIn(o[..j], file)
  { assert o[..j + 1][..j] == o[..j]; }

  lemma FoldOne(t: Table, a: seq<Def>, d: Def)
    ensures Fold(t, a + [d]) == match Fold(t, a) case None => None case Some(u) => Add(u, d)
  {}

  lemma WasSettled(ars: seq<Archive>, t: Table, o: Syms, j: nat)
    requires AllSettled(ars, t, o, |o|) && j < |o| && IsRef(o[j]) && o[j].name !in t
    ensures Nowhere(ars, o[j].name)
  {}

  lemma NoneYet(ars: seq<Archive>, t: Table, o: Syms)
    ensures AllSettled(ars, t, o, 0)
  {}

  lemma SettledOne(ars: seq<Archive>, t: Table, o: Syms, j: nat)
    requires AllSettled(ars, t, o, j) && j < |o| && (IsRef(o[j]) ==> o[j].name in t || Nowhere(ars, o[j].name))
    ensures AllSettled(ars, t, o, j + 1)
  {}

  lemma {:induction false} NoneStays(t: Table, o: Syms, file: nat, j: nat)
    requires j <= |o| && Fold(t, DefsIn(o[..j], file)) == None
    ensures Fold(t, DefsIn(o, file)) == None
    decreases |o| - j
  {
    if j == |o| {
      assert o[..j] == o;
    } else {
      DefsStep(o, file, j);
      if IsDef(o[j]) { FoldOne(t, DefsIn(o[..j], file), DefOf(o[j], file)); }
      NoneStays(t, o, file, j + 1);
    }
  }

  lemma {:induction false} NoneStaysAll(objects: seq<Object>, i: nat)
    requires i <= |objects| && Fold(map[], Defs(objects[..i])) == None
    ensures Fold(map[], Defs(objects)) == None
    decreases |objects| - i
  {
    if i == |objects| {
      assert objects[..i] == objects;
    } else {
      assert objects[..i + 1][..i] == objects[..i];
      FoldAppend(map[], Defs(objects[..i]), DefsIn(objects[i].syms, i));
      NoneStaysAll(objects, i + 1);
    }
  }

  /** The books after a member was taken. */
  lemma Taken(ars: seq<Archive>, obs: seq<Object>, ex: set<(nat, nat)>, n0: nat, why: seq<string>, entry: string, name: string, k: nat, m: nat)
    requires Present(ars, obs, ex) && ex <= Places(ars) && Justified(ars, obs, n0, why, entry)
    requires FirstWith(ars, name, k) && Find(ars[k].index, name) == m < |ars[k].members| && (k, m) !in ex
    requires name == entry || exists l: nat, j: nat :: l < |obs| && j < |obs[l].syms| && IsRef(obs[l].syms[j]) && obs[l].syms[j].name == name
    ensures Present(ars, obs + [ars[k].members[m]], ex + {(k, m)}) && ex + {(k, m)} <= Places(ars) && |ex + {(k, m)}| == |ex| + 1
    ensures Justified(ars, obs + [ars[k].members[m]], n0, why + [name], entry)
  {
    hide Justified;
    var o := ars[k].members[m];
    assert (obs + [o])[|obs|] == o;
    if name != entry {
      var l: nat, j: nat :| l < |obs| && j < |obs[l].syms| && IsRef(obs[l].syms[j]) && obs[l].syms[j].name == name;
      assert (obs + [o])[l] == obs[l];
    }
    JustifiedMore(ars, obs, n0, why, entry, o, name);
  }
}
