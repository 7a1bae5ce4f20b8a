/** The linker from objects to the patched image: symbol values, the search for a relocation's symbol, and
    the loops that apply the relocations. */
module Linking {
  import opened Arith
  import opened Objects
  import opened Sections
  import opened Reloc
  import opened Archives

  // ---------- What the linker takes ----------

  function SecsOf(objects: seq<Object>): seq<seq<Input>> { seq(|objects|, i requires 0 <= i < |objects| => objects[i].secs) }

  /** The place lies in the section, which has bits. */
  predicate RelaOk(s: Input, r: Rela) { 0 < s.size && !s.nobits && r.off + Width(r.kind) <= s.size }

  predicate At(r: Rela, x: int) { r.off <= x < r.off + Width(r.kind) }

  /** Sections as ELF asks, relocations inside their section and not overlapping. */
  ghost predicate ObjectOk(o: Object) {
    && |o.relas| == |o.secs|
    && (forall j :: 0 <= j < |o.secs| ==> InputOk(o.secs[j]))
    && (forall j, k :: 0 <= j < |o.secs| && 0 <= k < |o.relas[j]| ==> RelaOk(o.secs[j], o.relas[j][k]))
    && (forall j, k, l, x :: 0 <= j < |o.secs| && 0 <= k < |o.relas[j]| && 0 <= l < |o.relas[j]| && At(o.relas[j][k], x) && At(o.relas[j][l], x) ==> k == l)
  }

  ghost predicate AllOk(objects: seq<Object>) { forall f :: 0 <= f < |objects| ==> ObjectOk(objects[f]) }

  // ---------- Values of symbols ----------

  /** The final value of a symbol: absolute ones and those of sections that are not in the image keep
      theirs, the others are addresses. */
  ghost predicate ValueIs(outs: seq<Out>, file: nat, shndx: nat, value: nat, a: nat)
    requires |outs| == NOUT
  {
    if shndx != ABS && exists d :: 1 <= d < NOUT && HasPiece(outs[d], file, shndx) then AddressIn(outs, file, shndx, value, a) else a == value
  }

  /** The symbol is looked up in the table. */
  predicate ByName(table: Table, sym: Sym) { sym.binding != Local && !sym.ofSection && sym.name != "" && sym.name in table }

  /** S of a relocation: that of the table's definition for a name in it, otherwise the object's own. */
  ghost predicate Means(objects: seq<Object>, table: Table, outs: seq<Out>, f: nat, idx: nat, s: nat)
    requires f < |objects| && |outs| == NOUT
  {
    if idx == 0 || idx > |objects[f].syms| then s == 0
    else
      var sym := objects[f].syms[idx - 1];
      if ByName(table, sym) then ValueIs(outs, table[sym.name].file, table[sym.name].shndx, table[sym.name].value, s)
      else if sym.shndx == UNDEF then s == 0
      else ValueIs(outs, f, sym.shndx, sym.value, s)
  }

  /** One symbol, as update_symbol_values and resolve_local_symbol treat it. */
  method FinalValue(lay: Layout, file: nat, shndx: nat, value: nat) returns (a: nat)
    requires |lay.outs| == NOUT
    ensures ValueIs(lay.outs, file, shndx, value, a)
  {
    hide AddressIn, HasPiece;
    if shndx == ABS { return value; }
    a := lay.FinalAddress(file, shndx, value);
  }

  /** update_symbol_values: the final value of every symbol of the table. */
  method UpdateSymbolValues(table: Table, lay: Layout) returns (final: map<string, nat>)
    requires |lay.outs| == NOUT
    ensures final.Keys == table.Keys
    ensures forall n :: n in table ==> ValueIs(lay.outs, table[n].file, table[n].shndx, table[n].value, final[n])
  {
    hide ValueIs;
    final := map[];
    var todo := table.Keys;
    while todo != {}
      invariant todo <= table.Keys && final.Keys == table.Keys - todo
      invariant forall n :: n in final ==> ValueIs(lay.outs, table[n].file, table[n].shndx, table[n].value, final[n])
      decreases todo
    {
      var n :| n in todo;
      var a := FinalValue(lay, table[n].file, table[n].shndx, table[n].value);
      final := final[n := a];
      todo := todo - {n};
    }
  }

  /** resolve_local_symbol */
  method ResolveLocal(sym: Sym, f: nat, lay: Layout) returns (s: nat)
    requires |lay.outs| == NOUT
    ensures if sym.shndx == UNDEF then s == 0 else ValueIs(lay.outs, f, sym.shndx, sym.value, s)
  {
    hide ValueIs;
    if sym.shndx == UNDEF { return 0; }
    s := FinalValue(lay, f, sym.shndx, sym.value);
  }

  /** resolve_reloc_symbol */
  method ResolveRelocSymbol(objects: seq<Object>, table: Table, final: map<string, nat>, lay: Layout, f: nat, idx: nat) returns (s: nat)
    requires f < |objects| && |lay.outs| == NOUT && final.Keys == table.Keys
    requires forall n :: n in table ==> ValueIs(lay.outs, table[n].file, table[n].shndx, table[n].value, final[n])
    ensures Means(objects, table, lay.outs, f, idx, s)
  {
    hide ValueIs;
    if idx == 0 || idx > |objects[f].syms| { return 0; }
    var sym := objects[f].syms[idx - 1];
    if sym.binding == Local || sym.ofSection || sym.name == "" {
      s := ResolveLocal(sym, f, lay);
    } else if sym.name in table {
      assert sym.name in final.Keys;
      s := final[sym.name];
    } else {
      s := ResolveLocal(sym, f, lay);
    }
  }

  // ---------- Patched sections ----------

  function FixupAt(p: Piece, r: Rela, s: nat): Fixup { Fixup(p.offset + r.off, r.kind, s % TWO64, r.addend) }

  predicate PieceOf(objects: seq<Object>, outs: seq<Out>, c: nat, i: nat) {
    && c < |outs| && i < |outs[c].pieces| && outs[c].pieces[i].file < |objects|
    && outs[c].pieces[i].shndx < |objects[outs[c].pieces[i].file].relas|
  }

  function RelasAt(objects: seq<Object>, outs: seq<Out>, c: nat, i: nat): seq<Rela>
    requires PieceOf(objects, outs, c, i)
  { objects[outs[c].pieces[i].file].relas[outs[c].pieces[i].shndx] }

  /** Byte x of output section c belongs to the place of relocation k of piece i. */
  predicate InPlace(objects: seq<Object>, outs: seq<Out>, c: nat, i: nat, k: nat, x: int) {
    && PieceOf(objects, outs, c, i) && k < |RelasAt(objects, outs, c, i)|
    && var p, r := outs[c].pieces[i], RelasAt(objects, outs, c, i)[k]; p.offset + r.off <= x < p.offset + r.off + Width(r.kind)
  }

  /** Relocation k of piece i was applied to d: its place stands for S + A. */
  ghost predicate RelocDone(objects: seq<Object>, table: Table, outs: seq<Out>, d: seq<Byte>, c: nat, i: nat, k: nat)
    requires |outs| == NOUT && PieceOf(objects, outs, c, i) && k < |RelasAt(objects, outs, c, i)|
  {
    var p, r := outs[c].pieces[i], RelasAt(objects, outs, c, i)[k];
    exists s: nat :: Applied(objects, table, outs, d, c, p, r, s)
  }

  ghost predicate Applied(objects: seq<Object>, table: Table, outs: seq<Out>, d: seq<Byte>, c: nat, p: Piece, r: Rela, s: nat)
    requires |outs| == NOUT && c < NOUT && p.file < |objects|
  {
    && Means(objects, table, outs, p.file, r.sym, s)
    && |d| == |outs[c].data| && p.offset + r.off + Width(r.kind) <= |d|
    && Resolved(d, outs[c].data, outs[c].addr % TWO64, Fixup(p.offset + r.off, r.kind, s % TWO64, r.addend))
  }

  /** All relocations of the pieces before (f, j) are applied, and nothing else was changed. */
  ghost predicate Progress(objects: seq<Object>, table: Table, outs: seq<Out>, ds: seq<seq<Byte>>, f: nat, j: nat)
    requires |outs| == NOUT
  {
    && |ds| == NOUT && (forall c :: 0 <= c < NOUT ==> |ds[c]| == |outs[c].data|)
    && (forall c: nat, i: nat, k: nat :: 1 <= c < NOUT && PieceOf(objects, outs, c, i) && Before(outs[c].pieces[i], Piece(f, j, 0, 0)) && k < |RelasAt(objects, outs, c, i)| ==>
          RelocDone(objects, table, outs, ds[c], c, i, k))
    && (forall c: nat, x: nat :: c < NOUT && x < |ds[c]| && ds[c][x] != outs[c].data[x] ==>
          exists i: nat, k: nat :: InPlace(objects, outs, c, i, k, x) && Before(outs[c].pieces[i], Piece(f, j, 0, 0)))
  }

  /** The sections the loops work on. */
  ghost predicate Merged(objects: seq<Object>, outs: seq<Out>) {
    |outs| == NOUT && AllOk(objects) && forall c :: 0 <= c < NOUT ==> OutOk(SecsOf(objects), outs[c], c)
  }

  lemma PieceFits(objects: seq<Object>, outs: seq<Out>, c: nat, i: nat)
    requires Merged(objects, outs) && c < NOUT && i < |outs[c].pieces|
    ensures PieceOf(objects, outs, c, i) && ObjectOk(objects[outs[c].pieces[i].file])
    ensures outs[c].pieces[i].shndx < |objects[outs[c].pieces[i].file].secs|
    ensures forall k :: 0 <= k < |RelasAt(objects, outs, c, i)| ==>
              RelasAt(objects, outs, c, i)[k].off + Width(RelasAt(objects, outs, c, i)[k].kind) <= outs[c].pieces[i].size
              && outs[c].pieces[i].offset + outs[c].pieces[i].size <= |outs[c].data|
  {
    hide Category, IsPow2;
    var p := outs[c].pieces[i];
    assert PieceOk(SecsOf(objects), outs[c], c, p);
    assert ObjectOk(objects[p.file]);
    forall k | 0 <= k < |RelasAt(objects, outs, c, i)|
      ensures RelasAt(objects, outs, c, i)[k].off + Width(RelasAt(objects, outs, c, i)[k].kind) <= p.size && p.offset + p.size <= |outs[c].data|
    {
      assert RelaOk(objects[p.file].secs[p.shndx], objects[p.file].relas[p.shndx][k]);
    }
  }

  /** Places of different relocations do not meet. */
  lemma PlacesApart(objects: seq<Object>, outs: seq<Out>, c: nat, i: nat, k: nat, m: nat, l: nat, x: int)
    requires Merged(objects, outs) && c < NOUT && InPlace(objects, outs, c, i, k, x) && InPlace(objects, outs, c, m, l, x)
    ensures i == m && k == l
  {
    hide PieceOk, ObjectOk, Resolved, IsPow2;
    PieceFits(objects, outs, c, i);
    PieceFits(objects, outs, c, m);
    if i == m { SamePlace(objects[outs[c].pieces[i].file], outs[c].pieces[i].shndx, k, l, x - outs[c].pieces[i].offset); }
  }

  lemma SamePlace(o: Object, j: nat, k: nat, l: nat, x: int)
    requires ObjectOk(o) && j < |o.secs| && k < |o.relas[j]| && l < |o.relas[j]| && At(o.relas[j][k], x) && At(o.relas[j][l], x)
    ensures k == l
  {}

  function Datas(bufs: seq<array<Byte>>): (ds: seq<seq<Byte>>)
    reads bufs
    ensures |ds| == |bufs| && forall c :: 0 <= c < |bufs| ==> ds[c] == bufs[c][..]
  { seq(|bufs|, c requires 0 <= c < |bufs| reads bufs => bufs[c][..]) }

  predicate Separate(bufs: seq<array<Byte>>) { |bufs| == NOUT && forall c, d :: 0 <= c < d < NOUT ==> bufs[c] != bufs[d] }

  /** The fixup stands for the relocation. */
  ghost predicate FixupFor(objects: seq<Object>, table: Table, outs: seq<Out>, p: Piece, r: Rela, x: Fixup)
    requires |outs| == NOUT && p.file < |objects|
  { exists s: nat :: Means(objects, table, outs, p.file, r.sym, s) && x == FixupAt(p, r, s) }

  /** The fixups of one piece stand for its relocations. */
  ghost predicate FixupsFor(objects: seq<Object>, table: Table, outs: seq<Out>, c: nat, i: nat, fs: seq<Fixup>)
    requires |outs| == NOUT && PieceOf(objects, outs, c, i)
  {
    var p, rs := outs[c].pieces[i], RelasAt(objects, outs, c, i);
    |fs| <= |rs| && forall k :: 0 <= k < |fs| ==> FixupFor(objects, table, outs, p, rs[k], fs[k])
  }

  lemma FixupsFit(objects: seq<Object>, table: Table, outs: seq<Out>, c: nat, i: nat, fs: seq<Fixup>)
    requires |outs| == NOUT && Merged(objects, outs) && c < NOUT && PieceOf(objects, outs, c, i) && FixupsFor(objects, table, outs, c, i, fs)
    ensures Reloc.Apart(fs) && forall k :: 0 <= k < |fs| ==> fs[k].off + Width(fs[k].kind) <= |outs[c].data|
    ensures forall k: nat, x :: k < |fs| ==> (Covers(fs[k], x) <==> InPlace(objects, outs, c, i, k, x))
  {
    hide Merged, Means;
    PieceFits(objects, outs, c, i);
    var p, rs := outs[c].pieces[i], RelasAt(objects, outs, c, i);
    forall k: nat, x | k < |fs| ensures Covers(fs[k], x) <==> InPlace(objects, outs, c, i, k, x) {
      assert FixupFor(objects, table, outs, p, rs[k], fs[k]);
      var s: nat :| Means(objects, table, outs, p.file, rs[k].sym, s) && fs[k] == FixupAt(p, rs[k], s);
    }
    forall k, l, x | 0 <= k < |fs| && 0 <= l < |fs| && Covers(fs[k], x) && Covers(fs[l], x) ensures k == l {
      PlacesApart(objects, outs, c, i, k, i, l, x);
    }
    forall k | 0 <= k < |fs| ensures fs[k].off + Width(fs[k].kind) <= |outs[c].data| {
      assert FixupFor(objects, table, outs, p, rs[k], fs[k]);
      var s: nat :| Means(objects, table, outs, p.file, rs[k].sym, s) && fs[k] == FixupAt(p, rs[k], s);
    }
  }

  /** One more piece done. */
  lemma PieceDone(objects: seq<Object>, table: Table, outs: seq<Out>, ds: seq<seq<Byte>>, d: seq<Byte>, f: nat, j: nat, c: nat, i: nat, fs: seq<Fixup>)
    requires |outs| == NOUT && Merged(objects, outs) && Progress(objects, table, outs, ds, f, j) && 1 <= c < NOUT && PieceOf(objects, outs, c, i)
    requires outs[c].pieces[i].file == f && outs[c].pieces[i].shndx == j
    requires FixupsFor(objects, table, outs, c, i, fs) && |fs| == |RelasAt(objects, outs, c, i)| && |d| == |ds[c]|
    requires forall k :: 0 <= k < |fs| ==> fs[k].off + Width(fs[k].kind) <= |d|
    requires forall k :: 0 <= k < |fs| ==> Resolved(d, ds[c], outs[c].addr % TWO64, fs[k])
    requires forall x :: 0 <= x < |d| && (forall k :: 0 <= k < |fs| ==> !Covers(fs[k], x)) ==> d[x] == ds[c][x]
    ensures Progress(objects, table, outs, ds[c := d], f, j + 1)
  {
    hide Merged, Resolved, Means, ObjectOk;
    var ds' := ds[c := d];
    FixupsFit(objects, table, outs, c, i, fs);
    forall k: nat | k < |RelasAt(objects, outs, c, i)| ensures RelocDone(objects, table, outs, d, c, i, k) {
      NewDone(objects, table, outs, ds, d, f, j, c, i, fs, k);
    }
    forall b: nat, m: nat, k: nat | 1 <= b < NOUT && PieceOf(objects, outs, b, m) && Before(outs[b].pieces[m], Piece(f, j + 1, 0, 0)) && k < |RelasAt(objects, outs, b, m)|
      ensures RelocDone(objects, table, outs, ds'[b], b, m, k)
    {
      OnePiece(objects, outs, c, i, b, m);
      if !(b == c && m == i) {
        assert RelocDone(objects, table, outs, ds[b], b, m, k);
        if b == c { OldDone(objects, table, outs, ds[c], d, c, i, fs, m, k); }
      }
    }
    forall b: nat, x: nat | b < NOUT && x < |ds'[b]| && ds'[b][x] != outs[b].data[x]
      ensures exists m: nat, k: nat :: InPlace(objects, outs, b, m, k, x) && Before(outs[b].pieces[m], Piece(f, j + 1, 0, 0))
    {
      if b == c && d[x] != ds[c][x] {
        var k: nat :| k < |fs| && Covers(fs[k], x);
        assert InPlace(objects, outs, c, i, k, x) && Before(outs[c].pieces[i], Piece(f, j + 1, 0, 0));
      } else {
        var m: nat, k: nat :| InPlace(objects, outs, b, m, k, x) && Before(outs[b].pieces[m], Piece(f, j, 0, 0));
        assert Before(outs[b].pieces[m], Piece(f, j + 1, 0, 0));
      }
    }
  }

  /** An input section has one piece. */
  lemma OnePiece(objects: seq<Object>, outs: seq<Out>, c: nat, i: nat, b: nat, m: nat)
    requires Merged(objects, outs) && c < NOUT && b < NOUT && i < |outs[c].pieces| && m < |outs[b].pieces|
    ensures outs[c].pieces[i].file == outs[b].pieces[m].file && outs[c].pieces[i].shndx == outs[b].pieces[m].shndx ==> b == c && i == m
  {
    hide Category, IsPow2, ObjectOk;
    assert PieceOk(SecsOf(objects), outs[c], c, outs[c].pieces[i]) && PieceOk(SecsOf(objects), outs[b], b, outs[b].pieces[m]);
  }

  lemma NewDone(objects: seq<Object>, table: Table, outs: seq<Out>, ds: seq<seq<Byte>>, d: seq<Byte>, f: nat, j: nat, c: nat, i: nat, fs: seq<Fixup>, k: nat)
    requires |outs| == NOUT && Merged(objects, outs) && Progress(objects, table, outs, ds, f, j) && c < NOUT && PieceOf(objects, outs, c, i)
    requires outs[c].pieces[i].file == f && outs[c].pieces[i].shndx == j
    requires FixupsFor(objects, table, outs, c, i, fs) && k < |fs| && |fs| == |RelasAt(objects, outs, c, i)| && |d| == |ds[c]|
    requires fs[k].off + Width(fs[k].kind) <= |d| && Resolved(d, ds[c], outs[c].addr % TWO64, fs[k])
    ensures RelocDone(objects, table, outs, d, c, i, k)
  {
    hide Merged, Resolved, Means;
    var p, r := outs[c].pieces[i], RelasAt(objects, outs, c, i)[k];
    assert FixupFor(objects, table, outs, p, r, fs[k]);
    var s: nat :| Means(objects, table, outs, p.file, r.sym, s) && fs[k] == FixupAt(p, r, s);
    forall x | Covers(fs[k], x) ensures ds[c][x] == outs[c].data[x] {
      assert InPlace(objects, outs, c, i, k, x);
      if ds[c][x] != outs[c].data[x] {
        var m: nat, l: nat :| InPlace(objects, outs, c, m, l, x) && Before(outs[c].pieces[m], Piece(f, j, 0, 0));
        PlacesApart(objects, outs, c, i, k, m, l, x);
      }
    }
    ResolvedStays(ds[c], outs[c].data, d, outs[c].addr % TWO64, fs[k]);
    assert Applied(objects, table, outs, d, c, p, r, s);
  }

  lemma OldDone(objects: seq<Object>, table: Table, outs: seq<Out>, d0: seq<Byte>, d: seq<Byte>, c: nat, i: nat, fs: seq<Fixup>, m: nat, k: nat)
    requires |outs| == NOUT && Merged(objects, outs) && c < NOUT && PieceOf(objects, outs, c, i) && PieceOf(objects, outs, c, m) && m != i
    requires k < |RelasAt(objects, outs, c, m)| && RelocDone(objects, table, outs, d0, c, m, k)
    requires |d| == |d0| && forall l: nat, x :: l < |fs| && Covers(fs[l], x) ==> InPlace(objects, outs, c, i, l, x)
    requires forall x :: 0 <= x < |d| && (forall l :: 0 <= l < |fs| ==> !Covers(fs[l], x)) ==> d[x] == d0[x]
    ensures RelocDone(objects, table, outs, d, c, m, k)
  {
    hide Merged, Resolved, Means;
    var p, r := outs[c].pieces[m], RelasAt(objects, outs, c, m)[k];
    var s: nat :| Applied(objects, table, outs, d0, c, p, r, s);
    forall x | Covers(FixupAt(p, r, s), x) ensures d0[x] == d[x] {
      assert InPlace(objects, outs, c, m, k, x);
      if d0[x] != d[x] {
        var l: nat :| l < |fs| && Covers(fs[l], x);
        PlacesApart(objects, outs, c, i, l, m, k, x);
      }
    }
    ResolvedStays(d0, d, outs[c].data, outs[c].addr % TWO64, FixupAt(p, r, s));
    assert Applied(objects, table, outs, d, c, p, r, s);
  }

  lemma NoPieceDone(objects: seq<Object>, table: Table, outs: seq<Out>, ds: seq<seq<Byte>>, f: nat, j: nat)
    requires |outs| == NOUT && Progress(objects, table, outs, ds, f, j) && forall d :: 1 <= d < NOUT ==> !HasPiece(outs[d], f, j)
    ensures Progress(objects, table, outs, ds, f, j + 1)
  {
    hide RelocDone;
    forall c: nat, i: nat, k: nat | 1 <= c < NOUT && PieceOf(objects, outs, c, i) && Before(outs[c].pieces[i], Piece(f, j + 1, 0, 0)) && k < |RelasAt(objects, outs, c, i)|
      ensures RelocDone(objects, table, outs, ds[c], c, i, k)
    {
      assert !HasPiece(outs[c], f, j);
    }
    forall c: nat, x: nat | c < NOUT && x < |ds[c]| && ds[c][x] != outs[c].data[x]
      ensures exists i: nat, k: nat :: InPlace(objects, outs, c, i, k, x) && Before(outs[c].pieces[i], Piece(f, j + 1, 0, 0))
    {
      var i: nat, k: nat :| InPlace(objects, outs, c, i, k, x) && Before(outs[c].pieces[i], Piece(f, j, 0, 0));
      assert InPlace(objects, outs, c, i, k, x) && Before(outs[c].pieces[i], Piece(f, j + 1, 0, 0));
    }
  }

  // ---------- The loops ----------

  ghost predicate FinalOk(table: Table, outs: seq<Out>, final: map<string, nat>) {
    |outs| == NOUT && final.Keys == table.Keys && forall n :: n in table ==> ValueIs(outs, table[n].file, table[n].shndx, table[n].value, final[n])
  }

  /** Relocation k of piece i of section c asks for a value that no word of its kind can hold. */
  ghost predicate Unfit(objects: seq<Object>, table: Table, outs: seq<Out>, c: nat, i: nat, k: nat) {
    && |outs| == NOUT && c < NOUT && PieceOf(objects, outs, c, i) && k < |RelasAt(objects, outs, c, i)|
    && var p, r := outs[c].pieces[i], RelasAt(objects, outs, c, i)[k];
       exists s: nat :: Means(objects, table, outs, p.file, r.sym, s)
                        && !Fits(outs[c].addr % TWO64, Fixup(p.offset + r.off, r.kind, s % TWO64, r.addend))
  }

  lemma UnfitFound(objects: seq<Object>, table: Table, outs: seq<Out>, c: nat, i: nat, fs: seq<Fixup>)
    requires |outs| == NOUT && c < NOUT && PieceOf(objects, outs, c, i) && FixupsFor(objects, table, outs, c, i, fs)
    requires exists k :: 0 <= k < |fs| && !Fits(outs[c].addr % TWO64, fs[k])
    ensures exists k: nat :: Unfit(objects, table, outs, c, i, k)
  {
    hide Means, Fits;
    var k: nat :| k < |fs| && !Fits(outs[c].addr % TWO64, fs[k]);
    assert FixupFor(objects, table, outs, outs[c].pieces[i], RelasAt(objects, outs, c, i)[k], fs[k]);
    assert Unfit(objects, table, outs, c, i, k);
  }

  /** The relocations of one input section. It fails only at a value that cannot be encoded. */
  method ApplySection(objects: seq<Object>, table: Table, final: map<string, nat>, lay: Layout, bufs: seq<array<Byte>>, f: nat, j: nat) returns (ok: bool)
    requires Merged(objects, lay.outs) && FinalOk(table, lay.outs, final) && Separate(bufs)
    requires f < |objects| && j < |objects[f].secs| && Progress(objects, table, lay.outs, Datas(bufs), f, j)
    modifies bufs
    ensures ok ==> Progress(objects, table, lay.outs, Datas(bufs), f, j + 1)
    ensures !ok ==> exists c: nat, i: nat, k: nat :: Unfit(objects, table, lay.outs, c, i, k)
  {
    hide Merged, FinalOk, Progress, Means, Resolved, Fits, Unfit, FixupsFor, Reloc.Apart, PieceOf, HasPiece;
    MergedParts(objects, lay.outs);
    var c, i := lay.FindPiece(f, j);
    ghost var ds := Datas(bufs);
    if c == 0 {
      NoPieceDone(objects, table, lay.outs, ds, f, j);
      return true;
    }
    PieceFits(objects, lay.outs, c, i);
    PieceIndex(objects, lay.outs, c, i);
    ProgressLengths(objects, table, lay.outs, ds, f, j);
    var p, relas := lay.outs[c].pieces[i], objects[f].relas[j];
    var fs: seq<Fixup> := [];
    NoFixups(objects, table, lay.outs, c, i);
    var k := 0;
    while k < |relas|
      modifies {}
      invariant k == |fs| <= |relas| && FixupsFor(objects, table, lay.outs, c, i, fs)
    {
      FinalParts(table, lay.outs, final);
      var s := ResolveRelocSymbol(objects, table, final, lay, f, relas[k].sym);
      MoreFixups(objects, table, lay.outs, c, i, fs, s);
      fs := fs + [FixupAt(p, relas[k], s)];
      k := k + 1;
    }
    FixupsFit(objects, table, lay.outs, c, i, fs);
    assert ds[c] == bufs[c][..];
    ok := ApplyAll(bufs[c], lay.outs[c].addr % TWO64, fs);
    if ok {
      PieceDone(objects, table, lay.outs, ds, bufs[c][..], f, j, c, i, fs);
      forall d | 0 <= d < NOUT && d != c ensures Datas(bufs)[d] == ds[d] { assert bufs[d] != bufs[c]; }
      OneChanged(ds, Datas(bufs), c);
    } else {
      UnfitFound(objects, table, lay.outs, c, i, fs);
    }
  }

  lemma OneChanged(ds: seq<seq<Byte>>, ds': seq<seq<Byte>>, c: nat)
    requires |ds'| == |ds| && c < |ds| && forall d :: 0 <= d < |ds| && d != c ==> ds'[d] == ds[d]
    ensures ds' == ds[c := ds'[c]]
  {}

  lemma MergedParts(objects: seq<Object>, outs: seq<Out>)
    requires Merged(objects, outs)
    ensures |outs| == NOUT
  {}

  lemma PieceIndex(objects: seq<Object>, outs: seq<Out>, c: nat, i: nat)
    requires PieceOf(objects, outs, c, i)
    ensures c < |outs| && i < |outs[c].pieces| && outs[c].pieces[i].file < |objects|
    ensures outs[c].pieces[i].shndx < |objects[outs[c].pieces[i].file].relas|
    ensures RelasAt(objects, outs, c, i) == objects[outs[c].pieces[i].file].relas[outs[c].pieces[i].shndx]
  {}

  lemma FinalParts(table: Table, outs: seq<Out>, final: map<string, nat>)
    requires FinalOk(table, outs, final)
    ensures |outs| == NOUT && final.Keys == table.Keys && forall n :: n in table ==> ValueIs(outs, table[n].file, table[n].shndx, table[n].value, final[n])
  {}

  lemma ProgressLengths(objects: seq<Object>, table: Table, outs: seq<Out>, ds: seq<seq<Byte>>, f: nat, j: nat)
    requires |outs| == NOUT && Progress(objects, table, outs, ds, f, j)
    ensures |ds| == NOUT && forall c :: 0 <= c < NOUT ==> |ds[c]| == |outs[c].data|
  {}

  lemma NoFixups(objects: seq<Object>, table: Table, outs: seq<Out>, c: nat, i: nat)
    requires |outs| == NOUT && PieceOf(objects, outs, c, i)
    ensures FixupsFor(objects, table, outs, c, i, [])
  {}

  lemma MoreFixups(objects: seq<Object>, table: Table, outs: seq<Out>, c: nat, i: nat, fs: seq<Fixup>, s: nat)
    requires |outs| == NOUT && PieceOf(objects, outs, c, i) && FixupsFor(objects, table, outs, c, i, fs) && |fs| < |RelasAt(objects, outs, c, i)|
    requires Means(objects, table, outs, outs[c].pieces[i].file, RelasAt(objects, outs, c, i)[|fs|].sym, s)
    ensures FixupsFor(objects, table, outs, c, i, fs + [FixupAt(outs[c].pieces[i], RelasAt(objects, outs, c, i)[|fs|], s)])
  {
    hide Means;
    var p, rs := outs[c].pieces[i], RelasAt(objects, outs, c, i);
    assert FixupFor(objects, table, outs, p, rs[|fs|], FixupAt(p, rs[|fs|], s));
  }

  /** apply_relocations: patches every place or stops at a value that cannot be encoded. */
  method ApplyRelocations(objects: seq<Object>, table: Table, final: map<string, nat>, lay: Layout, bufs: seq<array<Byte>>) returns (ok: bool)
    requires Merged(objects, lay.outs) && FinalOk(table, lay.outs, final) && Separate(bufs)
    requires forall c :: 0 <= c < NOUT ==> bufs[c][..] == lay.outs[c].data
    modifies bufs
    ensures ok ==> Progress(objects, table, lay.outs, Datas(bufs), |objects|, 0)
    ensures !ok ==> exists c: nat, i: nat, k: nat :: Unfit(objects, table, lay.outs, c, i, k)
  {
    hide Merged, FinalOk, Progress, Datas, PieceOf, Unfit;
    MergedParts(objects, lay.outs);
    NothingDone(objects, table, lay.outs, Datas(bufs));
    var f := 0;
    while f < |objects|
      invariant f <= |objects| && Progress(objects, table, lay.outs, Datas(bufs), f, 0)
    {
      var j := 1;
      ReservedSection(objects, table, lay.outs, Datas(bufs), f);
      while j < |objects[f].secs|
        invariant 1 <= j && Progress(objects, table, lay.outs, Datas(bufs), f, j)
      {
        ok := ApplySection(objects, table, final, lay, bufs, f, j);
        if !ok { return; }
        j := j + 1;
      }
      NextObject(objects, table, lay.outs, Datas(bufs), f, j);
      f := f + 1;
    }
    ok := true;
  }

  lemma NothingDone(objects: seq<Object>, table: Table, outs: seq<Out>, ds: seq<seq<Byte>>)
    requires |outs| == NOUT && |ds| == NOUT && forall c :: 0 <= c < NOUT ==> ds[c] == outs[c].data
    ensures Progress(objects, table, outs, ds, 0, 0)
  { hide RelocDone; }

  lemma ReservedSection(objects: seq<Object>, table: Table, outs: seq<Out>, ds: seq<seq<Byte>>, f: nat)
    requires Merged(objects, outs) && |outs| == NOUT && Progress(objects, table, outs, ds, f, 0)
    ensures Progress(objects, table, outs, ds, f, 1)
  {
    hide RelocDone, PieceOf, Category, IsPow2, ObjectOk;
    forall d | 1 <= d < NOUT ensures !HasPiece(outs[d], f, 0) {
      assert OutOk(SecsOf(objects), outs[d], d);
      forall i | 0 <= i < |outs[d].pieces| ensures outs[d].pieces[i].shndx != 0 { assert PieceOk(SecsOf(objects), outs[d], d, outs[d].pieces[i]); }
    }
    NoPieceDone(objects, table, outs, ds, f, 0);
  }

  lemma NextObject(objects: seq<Object>, table: Table, outs: seq<Out>, ds: seq<seq<Byte>>, f: nat, j: nat)
    requires Merged(objects, outs) && |outs| == NOUT && f < |objects| && j >= |objects[f].secs| && Progress(objects, table, outs, ds, f, j)
    ensures Progress(objects, table, outs, ds, f + 1, 0)
  {
    hide RelocDone, Category, IsPow2, Merged, ObjectOk;
    forall c: nat, i: nat | c < NOUT && i < |outs[c].pieces| ensures Before(outs[c].pieces[i], Piece(f + 1, 0, 0, 0)) ==> Before(outs[c].pieces[i], Piece(f, j, 0, 0)) {
      PieceFits(objects, outs, c, i);
    }
    forall c: nat, x: nat | c < NOUT && x < |ds[c]| && ds[c][x] != outs[c].data[x]
      ensures exists i: nat, k: nat :: InPlace(objects, outs, c, i, k, x) && Before(outs[c].pieces[i], Piece(f + 1, 0, 0, 0))
    {
      var i: nat, k: nat :| InPlace(objects, outs, c, i, k, x) && Before(outs[c].pieces[i], Piece(f, j, 0, 0));
      assert InPlace(objects, outs, c, i, k, x) && Before(outs[c].pieces[i], Piece(f + 1, 0, 0, 0));
    }
  }

  // ---------- The whole link ----------

  /** Every relocation of every piece is applied, and no byte outside their places was changed. */
  ghost predicate Image(objects: seq<Object>, table: Table, outs: seq<Out>, ds: seq<seq<Byte>>)
    requires |outs| == NOUT
  {
    && |ds| == NOUT && (forall c :: 0 <= c < NOUT ==> |ds[c]| == |outs[c].data|)
    && (forall c: nat, i: nat, k: nat :: 1 <= c < NOUT && PieceOf(objects, outs, c, i) && k < |RelasAt(objects, outs, c, i)| ==>
          RelocDone(objects, table, outs, ds[c], c, i, k))
    && (forall c: nat, x: nat :: c < NOUT && x < |ds[c]| && (forall i: nat, k: nat :: !InPlace(objects, outs, c, i, k, x)) ==> ds[c][x] == outs[c].data[x])
  }

  lemma ImageDone(objects: seq<Object>, table: Table, outs: seq<Out>, ds: seq<seq<Byte>>)
    requires |outs| == NOUT && Progress(objects, table, outs, ds, |objects|, 0)
    ensures Image(objects, table, outs, ds)
  { hide RelocDone; }

  lemma AllSections(objects: seq<Object>)
    requires AllOk(objects)
    ensures InputsOk(SecsOf(objects))
  {
    hide InputOk;
    forall f, j | 0 <= f < |SecsOf(objects)| && 0 <= j < |SecsOf(objects)[f]| ensures InputOk(SecsOf(objects)[f][j]) { assert ObjectOk(objects[f]); }
  }

  /** Objects given and objects extracted are all well formed if the inputs are. */
  lemma LinkedOk(l: Linker, entry: string, given: seq<Object>)
    requires l.Valid(entry) && given <= l.objects && |given| == l.n0 && AllOk(given)
    requires forall k: nat :: k < |l.ars| ==> AllOk(l.ars[k].members)
    ensures AllOk(l.objects)
  {
    hide Truthful, Present, Fold, ObjectOk;
    forall f | 0 <= f < |l.objects| ensures ObjectOk(l.objects[f]) {
      if f < l.n0 {
        assert l.objects[f] == given[f];
      } else {
        assert Reason(l.ars, l.objects, l.n0 + (f - l.n0), l.why[f - l.n0], entry);
        var k: nat :| FirstWith(l.ars, l.why[f - l.n0], k) && Find(l.ars[k].index, l.why[f - l.n0]) < |l.ars[k].members|
                      && l.objects[f] == l.ars[k].members[Find(l.ars[k].index, l.why[f - l.n0])];
        assert AllOk(l.ars[k].members);
      }
    }
  }

  /** The linker in its plain mode, from objects and archives to the image. On success the table holds the
      chosen definition of every name and every strong reference, the sections are laid out without
      overlap, and each place in them stands for S + A. It fails only at two strong definitions of one
      name, at a name nothing defines, or at a value that no word of its place's kind can hold. */
  method LinkImage(l: Linker, entry: string) returns (ok: bool, lay: Layout, bufs: seq<array<Byte>>)
    requires Truthful(l.ars) && l.table == map[] && l.extracted == {} && l.why == [] && l.n0 == |l.objects|
    requires AllOk(l.objects) && forall k: nat :: k < |l.ars| ==> AllOk(l.ars[k].members)
    modifies l
    ensures ok ==> l.Valid(entry) && entry in l.table && old(l.objects) <= l.objects && AllOk(l.objects)
    ensures ok ==> forall i: nat, j: nat :: i < |l.objects| && j < |l.objects[i].syms| ==> StrongFound(l.table, l.objects[i].syms[j])
    ensures ok ==> forall n :: n in l.table ==> IsChosen(l.objects, n, l.table[n])
    ensures ok ==> forall i: nat, j: nat, n: string :: DefinedAt(l.objects, i, j, n) ==> n in l.table
    ensures ok ==> Merged(l.objects, lay.outs) && MergedUpTo(SecsOf(l.objects), lay.outs, |l.objects|, 0) && LaidOut(lay.outs)
    ensures ok ==> Image(l.objects, l.table, lay.outs, Datas(bufs))
    ensures !ok ==> TwoStrong(l.objects) || (entry !in l.table && Nowhere(l.ars, entry))
                    || (exists i: nat, j: nat :: Missing(l.ars, l.objects, l.table, i, j))
                    || exists c: nat, i: nat, k: nat :: Unfit(l.objects, l.table, lay.outs, c, i, k)
  {
    hide Truthful, AllOk, IsChosen, DefinedAt, TwoStrong, Missing, Nowhere, AllSettled, Unfit, Defs, Fold, Merged, MergedUpTo, LaidOut, Image, Progress, InputsOk, OutOk, FinalOk, ValueIs, Justified, Present, Places, StrongFound;
    ghost var given := l.objects;
    lay := new Layout();
    bufs := [];
    ok := Link(l, entry);
    if !ok { return; }
    LinkedOk(l, entry, given);
    AllSections(l.objects);
    lay.Merge(SecsOf(l.objects));
    OutsAligned(SecsOf(l.objects), lay.outs);
    ghost var merged := lay.outs;
    lay.AssignAddresses();
    SameMerged(l.objects, merged, lay.outs);
    var final := UpdateSymbolValues(l.table, lay);
    bufs := CopyData(lay.outs);
    MakeFinal(l.table, lay.outs, final);
    ok := ApplyRelocations(l.objects, l.table, final, lay, bufs);
    if ok { ImageDone(l.objects, l.table, lay.outs, Datas(bufs)); }
  }

  lemma MakeFinal(table: Table, outs: seq<Out>, final: map<string, nat>)
    requires |outs| == NOUT && final.Keys == table.Keys && forall n :: n in table ==> ValueIs(outs, table[n].file, table[n].shndx, table[n].value, final[n])
    ensures FinalOk(table, outs, final)
  { hide ValueIs; }

  lemma OutsAligned(secs: seq<seq<Input>>, outs: seq<Out>)
    requires |outs| == NOUT && forall c :: 0 <= c < NOUT ==> OutOk(secs, outs[c], c)
    ensures forall c :: 0 <= c < NOUT ==> outs[c].alignment > 0
  {
    hide PieceOk, IsPow2;
    forall c | 0 <= c < NOUT ensures outs[c].alignment > 0 { assert OutOk(secs, outs[c], c); Pow2Positive(outs[c].alignment); }
  }

  /** Addresses play no part in what a merged section holds. */
  lemma SameMerged(objects: seq<Object>, a: seq<Out>, b: seq<Out>)
    requires AllOk(objects) && |a| == NOUT == |b| && (forall c :: 0 <= c < NOUT ==> OutOk(SecsOf(objects), a[c], c))
    requires MergedUpTo(SecsOf(objects), a, |objects|, 0) && forall c :: 0 <= c < NOUT ==> SameContents(b[c], a[c])
    ensures Merged(objects, b) && MergedUpTo(SecsOf(objects), b, |objects|, 0)
  {
    hide IsPow2, Category, ObjectOk;
    forall c | 0 <= c < NOUT ensures OutOk(SecsOf(objects), b[c], c) {
      assert OutOk(SecsOf(objects), a[c], c) && SameContents(b[c], a[c]);
      forall i | 0 <= i < |b[c].pieces| ensures PieceOk(SecsOf(objects), b[c], c, b[c].pieces[i]) { assert PieceOk(SecsOf(objects), a[c], c, a[c].pieces[i]); }
    }
    forall f: nat, j: nat | f < |objects| && 0 < j < |SecsOf(objects)[f]| && Category(SecsOf(objects)[f][j]) > 0
      ensures HasPiece(b[Category(SecsOf(objects)[f][j])], f, j)
    {
      assert HasPiece(a[Category(SecsOf(objects)[f][j])], f, j);
    }
  }

  /** The sections' data as arrays to be patched. */
  method CopyData(outs: seq<Out>) returns (bufs: seq<array<Byte>>)
    requires |outs| == NOUT
    ensures Separate(bufs) && fresh(bufs) && forall c :: 0 <= c < NOUT ==> bufs[c][..] == outs[c].data
  {
    bufs := [];
    var c := 0;
    while c < NOUT
      invariant c == |bufs| <= NOUT && fresh(bufs)
      invariant forall d :: 0 <= d < c ==> bufs[d][..] == outs[d].data
      invariant forall d, e :: 0 <= d < e < c ==> bufs[d] != bufs[e]
    {
      var data := outs[c].data;
      var b := new Byte[|data|](i requires 0 <= i < |data| => data[i]);
      bufs := bufs + [b];
      c := c + 1;
    }
  }

  /** Relocation k of piece i refers to a name of the table whose definition d lies in a section of the image. */
  ghost predicate RefersTo(objects: seq<Object>, table: Table, outs: seq<Out>, p: Piece, r: Rela, d: Def) {
    && |outs| == NOUT && p.file < |objects| && 0 < r.sym <= |objects[p.file].syms|
    && ByName(table, objects[p.file].syms[r.sym - 1]) && table[objects[p.file].syms[r.sym - 1].name] == d
    && d.shndx != ABS && d.file < |objects| && 0 < d.shndx < |objects[d.file].secs| && d.value < objects[d.file].secs[d.shndx].size
    && exists e :: 1 <= e < NOUT && HasPiece(outs[e], d.file, d.shndx)
  }

  /** Address s is where the byte that a symbol of object f names ended up. */
  ghost predicate HoldsByte(objects: seq<Object>, outs: seq<Out>, f: nat, y: Sym, s: nat)
    requires |outs| == NOUT && f < |objects| && y.shndx < |objects[f].secs|
  {
    var sec := objects[f].secs[y.shndx];
    var e := Category(sec);
    && 1 <= e && outs[e].addr <= s < outs[e].addr + outs[e].size
    && (!sec.nobits ==> s - outs[e].addr < |outs[e].data| && y.value < |sec.bytes| && outs[e].data[s - outs[e].addr] == sec.bytes[y.value])
  }

  /** What a place stands for when its symbol is referred to by name and defined in a section of the
      image: the address where the byte named by the chosen symbol j of its object ended up, plus the addend. */
  lemma ReachesDefinition(objects: seq<Object>, table: Table, outs: seq<Out>, ds: seq<seq<Byte>>, c: nat, i: nat, k: nat, d: Def) returns (s: nat, j: nat)
    requires Merged(objects, outs) && LaidOut(outs) && |outs| == NOUT && Image(objects, table, outs, ds) && 1 <= c < NOUT
    requires PieceOf(objects, outs, c, i) && k < |RelasAt(objects, outs, c, i)| && forall n :: n in table ==> IsChosen(objects, n, table[n])
    requires RefersTo(objects, table, outs, outs[c].pieces[i], RelasAt(objects, outs, c, i)[k], d)
    ensures var p, r := outs[c].pieces[i], RelasAt(objects, outs, c, i)[k];
            ChosenAt(objects, objects[p.file].syms[r.sym - 1].name, d.file, j)
    ensures objects[d.file].syms[j].shndx < |objects[d.file].secs| && HoldsByte(objects, outs, d.file, objects[d.file].syms[j], s)
    ensures var p, r := outs[c].pieces[i], RelasAt(objects, outs, c, i)[k];
            && |ds| == NOUT && |ds[c]| == |outs[c].data| && p.offset + r.off + Width(r.kind) <= |ds[c]|
            && Resolved(ds[c], outs[c].data, outs[c].addr % TWO64, Fixup(p.offset + r.off, r.kind, s % TWO64, r.addend))
  {
    hide Merged, LaidOut, Resolved, Category, AddressIn, HasPiece, OutOk, InputOk, Image, HoldsByte;
    var p, r := outs[c].pieces[i], RelasAt(objects, outs, c, i)[k];
    var n := objects[p.file].syms[r.sym - 1].name;
    ImageAt(objects, table, outs, ds, c, i, k);
    s :| Applied(objects, table, outs, ds[c], c, p, r, s);
    var f: nat;
    f, j :| ChosenAt(objects, n, f, j) && d == Def(n, objects[f].syms[j].binding == Global, objects[f].syms[j].value, objects[f].syms[j].shndx, f);
    Lands(objects, outs, d.file, objects[d.file].syms[j], s);
  }

  lemma ImageAt(objects: seq<Object>, table: Table, outs: seq<Out>, ds: seq<seq<Byte>>, c: nat, i: nat, k: nat)
    requires |outs| == NOUT && Image(objects, table, outs, ds) && 1 <= c < NOUT && PieceOf(objects, outs, c, i) && k < |RelasAt(objects, outs, c, i)|
    ensures |ds| == NOUT && |ds[c]| == |outs[c].data| && RelocDone(objects, table, outs, ds[c], c, i, k)
  { hide RelocDone; }

  lemma Lands(objects: seq<Object>, outs: seq<Out>, f: nat, y: Sym, s: nat)
    requires Merged(objects, outs) && LaidOut(outs) && |outs| == NOUT && f < |objects| && 0 < y.shndx < |objects[f].secs|
    requires y.value < objects[f].secs[y.shndx].size && AddressIn(outs, f, y.shndx, y.value, s)
    ensures HoldsByte(objects, outs, f, y, s)
  {
    hide Merged, LaidOut, Category, AddressIn, OutOk, InputOk;
    MergedOuts(objects, outs, f, y.shndx);
    SymbolLands(SecsOf(objects), outs, f, y.shndx, y.value, s);
  }

  lemma MergedOuts(objects: seq<Object>, outs: seq<Out>, f: nat, j: nat)
    requires Merged(objects, outs) && f < |objects| && j < |objects[f].secs|
    ensures |outs| == NOUT && (forall c :: 0 <= c < NOUT ==> OutOk(SecsOf(objects), outs[c], c)) && InputOk(SecsOf(objects)[f][j])
    ensures !objects[f].secs[j].nobits ==> |objects[f].secs[j].bytes| == objects[f].secs[j].size
  {
    hide OutOk, IsPow2;
    assert ObjectOk(objects[f]);
  }
}
