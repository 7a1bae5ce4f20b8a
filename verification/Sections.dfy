/** Merging input sections into output sections and laying these out in memory. */
module Sections {
  import opened Arith

  const TEXTBASE: nat := 0x10000
  const PAGESIZE: nat := 0x1000
  const MINALIGN: nat := 8
  const NOUT: nat := 5  // no section, text, rodata, data, bss

  /** A section of an object file; a section without bits has a size only. Section 0 is reserved. */
  datatype Input = Input(name: string, alloc: bool, align: nat, size: nat, nobits: bool, bytes: seq<Byte>)

  datatype Piece = Piece(file: nat, shndx: nat, offset: nat, size: nat)

  datatype Out = Out(addr: nat, size: nat, alignment: nat, data: seq<Byte>, pieces: seq<Piece>)

  predicate Prefixed(name: string, p: string) { |p| <= |name| && name[..|p|] == p }

  /** categorize_section */
  function Category(s: Input): (c: nat)
    ensures c < NOUT
  {
    if !s.alloc then 0
    else if Prefixed(s.name, ".text") then 1
    else if Prefixed(s.name, ".rodata") then 2
    else if Prefixed(s.name, ".data") then 3
    else if Prefixed(s.name, ".bss") then 4
    else 0
  }

  /** Which output section an input section goes to, by its name. */
  lemma CategoryMeans(s: Input)
    ensures Category(s) == 1 <==> s.alloc && ".text" <= s.name
    ensures Category(s) == 2 <==> s.alloc && ".rodata" <= s.name
    ensures Category(s) == 3 <==> s.alloc && ".data" <= s.name
    ensures Category(s) == 4 <==> s.alloc && ".bss" <= s.name
  {
    forall p: string, q: string | p <= s.name && q <= s.name && 2 <= |p| && 2 <= |q| ensures p[1] == q[1] { assert p[1] == s.name[1] == q[1]; }
  }

  predicate IsPow2(a: nat) { a == 1 || (a > 0 && a % 2 == 0 && IsPow2(a / 2)) }

  lemma {:induction false} Divides(a: nat, b: nat)
    requires IsPow2(a) && IsPow2(b) && a <= b
    ensures b % a == 0
    decreases b
  {
    if a > 1 {
      Divides(a / 2, b / 2);
      var q := b / 2 / (a / 2);
      assert b / 2 == a / 2 * q;
      assert b == a * q by { assert a == 2 * (a / 2) && b == 2 * (b / 2); }
      ModUnique(b, a, q, 0);
    }
  }

  /** align_up by a power of two. */
  function AlignUp(v: nat, a: nat): nat { if a == 0 then v else (v + a - 1) / a * a }

  lemma AlignUpIs(v: nat, a: nat)
    requires a > 0
    ensures v <= AlignUp(v, a) < v + a && AlignUp(v, a) % a == 0
  {
    var q := (v + a - 1) / a;
    assert v + a - 1 == a * q + (v + a - 1) % a;
    assert q * a == a * q;
    ModUnique(a * q, a, q, 0);
  }

  function AlignOf(s: Input): nat { if s.align == 0 then 1 else s.align }

  predicate InputOk(s: Input) { IsPow2(AlignOf(s)) && (!s.nobits ==> |s.bytes| == s.size) }

  predicate InputsOk(objects: seq<seq<Input>>) {
    forall f, j :: 0 <= f < |objects| && 0 <= j < |objects[f]| ==> InputOk(objects[f][j])
  }

  // ---------- What a merged section satisfies ----------

  predicate Before(p: Piece, q: Piece) { p.file < q.file || (p.file == q.file && p.shndx < q.shndx) }

  /** The piece is the named input section, aligned, inside the output section, with its bytes in place. */
  predicate PieceOk(objects: seq<seq<Input>>, o: Out, c: nat, p: Piece) {
    && p.file < |objects| && 0 < p.shndx < |objects[p.file]|
    && var s := objects[p.file][p.shndx];
       && Category(s) == c && p.size == s.size && IsPow2(AlignOf(s)) && AlignOf(s) <= o.alignment && p.offset % AlignOf(s) == 0
       && p.offset + p.size <= o.size
       && (!s.nobits && s.size > 0 ==> p.offset + p.size <= |o.data| && o.data[p.offset..p.offset + p.size] == s.bytes)
  }

  ghost predicate OutOk(objects: seq<seq<Input>>, o: Out, c: nat) {
    && IsPow2(o.alignment) && |o.data| <= o.size
    && (forall i :: 0 <= i < |o.pieces| ==> PieceOk(objects, o, c, o.pieces[i]))
    && (forall i, k :: 0 <= i < k < |o.pieces| ==> o.pieces[i].offset + o.pieces[i].size <= o.pieces[k].offset && Before(o.pieces[i], o.pieces[k]))
  }

  /** Sections before (file, shndx) in the order of the objects were merged. */
  ghost predicate MergedUpTo(objects: seq<seq<Input>>, outs: seq<Out>, file: nat, shndx: nat) {
    && |outs| == NOUT
    && (forall f: nat, j: nat :: f < |objects| && 0 < j < |objects[f]| && (f < file || (f == file && j < shndx)) && Category(objects[f][j]) > 0 ==>
         HasPiece(outs[Category(objects[f][j])], f, j))
    && (forall c, i :: 0 <= c < NOUT && 0 <= i < |outs[c].pieces| ==>
         outs[c].pieces[i].file < file || (outs[c].pieces[i].file == file && outs[c].pieces[i].shndx < shndx))
  }

  ghost predicate HasPiece(o: Out, f: nat, j: nat) { exists i :: 0 <= i < |o.pieces| && o.pieces[i].file == f && o.pieces[i].shndx == j }

  /** The section after one more piece; junk fills bytes that were left over from sections without bits. */
  function Extended(o: Out, f: nat, j: nat, s: Input, junk: seq<Byte>): Out
    requires |o.data| <= o.size && (!s.nobits ==> |s.bytes| == s.size) && |junk| == o.size - |o.data|
  {
    var align := AlignOf(s);
    var alignment := if align > o.alignment then align else o.alignment;
    AlignUpIs(o.size, align);
    var offset := AlignUp(o.size, align);
    var data := if s.nobits || s.size == 0 then o.data else o.data + junk + seq(offset - o.size, _ => 0) + s.bytes;
    Out(o.addr, offset + s.size, alignment, data, o.pieces + [Piece(f, j, offset, s.size)])
  }

  lemma ExtendedOk(objects: seq<seq<Input>>, o: Out, c: nat, f: nat, j: nat, junk: seq<Byte>)
    requires OutOk(objects, o, c) && f < |objects| && 0 < j < |objects[f]| && InputOk(objects[f][j]) && Category(objects[f][j]) == c
    requires forall i :: 0 <= i < |o.pieces| ==> Before(o.pieces[i], Piece(f, j, 0, 0))
    requires |junk| == o.size - |o.data|
    ensures OutOk(objects, Extended(o, f, j, objects[f][j], junk), c)
  {
    var s := objects[f][j];
    AlignUpIs(o.size, AlignOf(s));
    var e := Extended(o, f, j, s, junk);
    assert PieceOk(objects, e, c, e.pieces[|o.pieces|]) by { NewPiece(objects, o, c, f, j, junk); }
    forall i | 0 <= i < |e.pieces| ensures PieceOk(objects, e, c, e.pieces[i]) {
      if i < |o.pieces| { OldPiece(objects, o, c, f, j, junk, i); }
    }
    forall i, k | 0 <= i < k < |e.pieces|
      ensures e.pieces[i].offset + e.pieces[i].size <= e.pieces[k].offset && Before(e.pieces[i], e.pieces[k])
    {
      assert PieceOk(objects, o, c, o.pieces[i]);
    }
  }

  lemma NewPiece(objects: seq<seq<Input>>, o: Out, c: nat, f: nat, j: nat, junk: seq<Byte>)
    requires |o.data| <= o.size && |junk| == o.size - |o.data| && IsPow2(o.alignment)
    requires f < |objects| && 0 < j < |objects[f]| && InputOk(objects[f][j]) && Category(objects[f][j]) == c
    ensures var e := Extended(o, f, j, objects[f][j], junk); PieceOk(objects, e, c, e.pieces[|o.pieces|]) && IsPow2(e.alignment) && |e.data| <= e.size
  {
    hide Category, IsPow2;
    AlignUpIs(o.size, AlignOf(objects[f][j]));
  }

  lemma OldPiece(objects: seq<seq<Input>>, o: Out, c: nat, f: nat, j: nat, junk: seq<Byte>, i: nat)
    requires |o.data| <= o.size && |junk| == o.size - |o.data| && f < |objects| && 0 < j < |objects[f]| && InputOk(objects[f][j])
    requires i < |o.pieces| && PieceOk(objects, o, c, o.pieces[i])
    ensures PieceOk(objects, Extended(o, f, j, objects[f][j], junk), c, o.pieces[i])
  {
    hide Category, IsPow2;
    AlignUpIs(o.size, AlignOf(objects[f][j]));
    var e, p := Extended(o, f, j, objects[f][j], junk), o.pieces[i];
    var s := objects[p.file][p.shndx];
    if !s.nobits && s.size > 0 { assert e.data[..|o.data|] == o.data; assert e.data[p.offset..p.offset + p.size] == o.data[p.offset..p.offset + p.size]; }
  }

  // ---------- Addresses ----------

  /** Sections with contents are aligned and follow one another; data starts on a fresh page. */
  ghost predicate LaidOut(outs: seq<Out>) {
    && |outs| == NOUT
    && (forall c :: 1 <= c < NOUT && outs[c].size > 0 ==> outs[c].alignment > 0 && outs[c].addr % outs[c].alignment == 0 && TEXTBASE <= outs[c].addr)
    && (forall c, d :: 1 <= c < d < NOUT && outs[c].size > 0 && outs[d].size > 0 ==> outs[c].addr + outs[c].size <= outs[d].addr)
    && (forall c, d :: 1 <= c <= 2 && 3 <= d <= 4 && outs[c].size > 0 && outs[d].size > 0 ==> AlignUp(outs[c].addr + outs[c].size, PAGESIZE) <= outs[d].addr)
  }

  predicate SameContents(a: Out, b: Out) { a.size == b.size && a.alignment == b.alignment && a.data == b.data && a.pieces == b.pieces }

  class Layout {
    var outs: seq<Out>

    ghost predicate Valid(objects: seq<seq<Input>>)
      reads this
    { |outs| == NOUT && forall c :: 0 <= c < NOUT ==> OutOk(objects, outs[c], c) }

    /** output_section_init */
    constructor ()
      ensures |outs| == NOUT && forall c :: 0 <= c < NOUT ==> outs[c] == Out(0, 0, MINALIGN, [], [])
    { outs := seq(NOUT, _ => Out(0, 0, MINALIGN, [], [])); }

    /** merge_sections: every allocated section of a known name becomes one piece of its output section. */
    method Merge(objects: seq<seq<Input>>)
      requires InputsOk(objects) && |outs| == NOUT && forall c :: 0 <= c < NOUT ==> outs[c] == Out(0, 0, MINALIGN, [], [])
      modifies this
      ensures Valid(objects) && MergedUpTo(objects, outs, |objects|, 0)
    {
      hide Category, PieceOk;
      StartOk(objects, outs);
      var i := 0;
      while i < |objects|
        invariant i <= |objects| && Valid(objects) && MergedUpTo(objects, outs, i, 0)
      {
        var j := 1;
        assert MergedUpTo(objects, outs, i, 1);
        while j < |objects[i]|
          invariant 1 <= j && Valid(objects) && MergedUpTo(objects, outs, i, j)
        {
          assert InputOk(objects[i][j]);
          var cat := Category(objects[i][j]);
          if cat > 0 {
            var junk: seq<Byte> := *;
            if |junk| != outs[cat].size - |outs[cat].data| { junk := seq(outs[cat].size - |outs[cat].data|, _ => 0); }
            ExtendedOk(objects, outs[cat], cat, i, j, junk);
            ghost var before := outs;
            AddPiece(cat, i, j, objects[i][j], junk);
            OneMore(objects, before, outs, i, j, junk);
          } else {
            NoneMore(objects, outs, i, j);
          }
          j := j + 1;
        }
        NextFile(objects, outs, i, j);
        i := i + 1;
      }
    }

    /** One piece appended to its output section. */
    method AddPiece(cat: nat, file: nat, shndx: nat, s: Input, junk: seq<Byte>)
      requires |outs| == NOUT && cat < NOUT && |outs[cat].data| <= outs[cat].size && (!s.nobits ==> |s.bytes| == s.size)
      requires |junk| == outs[cat].size - |outs[cat].data|
      modifies this
      ensures outs == old(outs)[cat := Extended(old(outs)[cat], file, shndx, s, junk)]
    {
      var out := outs[cat];
      var align := s.align;
      if align == 0 { align := 1; }
      if align > out.alignment { out := out.(alignment := align); }
      var offset := AlignUp(out.size, align);
      AlignUpIs(out.size, align);
      out := out.(pieces := out.pieces + [Piece(file, shndx, offset, s.size)]);
      if !s.nobits && s.size > 0 {
        out := out.(data := out.data + junk + seq(offset - out.size, _ => 0) + s.bytes);
      }
      out := out.(size := offset + s.size);
      outs := outs[cat := out];
    }

    /** assign_addresses */
    method AssignAddresses()
      requires |outs| == NOUT && forall c :: 0 <= c < NOUT ==> outs[c].alignment > 0
      modifies this
      ensures |outs| == NOUT && LaidOut(outs) && forall c :: 0 <= c < NOUT ==> SameContents(outs[c], old(outs)[c])
    {
      hide AlignUp;
      var addr := TEXTBASE;
      addr := Place(1, addr);
      addr := Place(2, addr);
      AlignUpIs(addr, PAGESIZE);
      ghost var codeEnd := addr;
      addr := AlignUp(addr, PAGESIZE);
      ghost var page := addr;
      addr := Place(3, addr);
      addr := Place(4, addr);
      forall c | 1 <= c <= 2 && outs[c].size > 0 ensures AlignUp(outs[c].addr + outs[c].size, PAGESIZE) <= page {
        AlignMono(outs[c].addr + outs[c].size, codeEnd, PAGESIZE);
      }
    }

    /** One turn of its loops. */
    method Place(c: nat, addr: nat) returns (next: nat)
      requires |outs| == NOUT && c < NOUT && outs[c].alignment > 0
      modifies this
      ensures |outs| == NOUT && (forall d :: 0 <= d < NOUT && d != c ==> outs[d] == old(outs)[d]) && SameContents(outs[c], old(outs)[c])
      ensures addr <= next && (outs[c].size > 0 ==> outs[c].addr % outs[c].alignment == 0 && addr <= outs[c].addr && next == outs[c].addr + outs[c].size)
    {
      next := addr;
      if outs[c].size == 0 { return; }
      AlignUpIs(addr, outs[c].alignment);
      next := AlignUp(addr, outs[c].alignment);
      outs := outs[c := outs[c].(addr := next)];
      next := next + outs[c].size;
    }

    /** find_piece: the output section and place of an input section. */
    method FindPiece(file: nat, shndx: nat) returns (c: nat, i: nat)
      requires |outs| == NOUT
      ensures c == 0 ==> forall d :: 1 <= d < NOUT ==> !HasPiece(outs[d], file, shndx)
      ensures c > 0 ==> c < NOUT && i < |outs[c].pieces| && outs[c].pieces[i].file == file && outs[c].pieces[i].shndx == shndx
    {
      c := 1;
      while c < NOUT
        invariant 1 <= c <= NOUT && forall d :: 1 <= d < c ==> !HasPiece(outs[d], file, shndx)
      {
        i := 0;
        while i < |outs[c].pieces|
          invariant i <= |outs[c].pieces| && forall k :: 0 <= k < i ==> !(outs[c].pieces[k].file == file && outs[c].pieces[k].shndx == shndx)
        {
          if outs[c].pieces[i].file == file && outs[c].pieces[i].shndx == shndx { return; }
          i := i + 1;
        }
        c := c + 1;
      }
      return 0, 0;
    }

    /** The final value of a symbol of an input section: as update_symbol_values and
        resolve_local_symbol compute it. */
    method FinalAddress(file: nat, shndx: nat, value: nat) returns (a: nat)
      requires |outs| == NOUT
      ensures (forall d :: 1 <= d < NOUT ==> !HasPiece(outs[d], file, shndx)) ==> a == value
      ensures (exists d :: 1 <= d < NOUT && HasPiece(outs[d], file, shndx)) ==> AddressIn(outs, file, shndx, value, a)
    {
      var c, i := FindPiece(file, shndx);
      if c == 0 { return value; }
      a := outs[c].addr + outs[c].pieces[i].offset + value;
      assert HasPiece(outs[c], file, shndx);
    }
  }

  ghost predicate AddressIn(outs: seq<Out>, file: nat, shndx: nat, value: nat, a: nat) {
    exists c, i :: 1 <= c < |outs| && 0 <= i < |outs[c].pieces| && outs[c].pieces[i].file == file && outs[c].pieces[i].shndx == shndx
                   && a == outs[c].addr + outs[c].pieces[i].offset + value
  }

  // ---------- The image ----------

  /** A symbol's final address is where the byte it named ended up, and its section's start is aligned
      as the object file asked. */
  lemma SymbolLands(objects: seq<seq<Input>>, outs: seq<Out>, f: nat, j: nat, value: nat, a: nat)
    requires |outs| == NOUT && (forall c :: 0 <= c < NOUT ==> OutOk(objects, outs[c], c)) && LaidOut(outs)
    requires f < |objects| && 0 < j < |objects[f]| && AddressIn(outs, f, j, value, a)
    requires value < objects[f][j].size
    ensures var c := Category(objects[f][j]);
            && 1 <= c < NOUT && outs[c].addr <= a < outs[c].addr + outs[c].size
            && (a - value) % AlignOf(objects[f][j]) == 0
            && (!objects[f][j].nobits && InputOk(objects[f][j]) ==> a - outs[c].addr < |outs[c].data| && outs[c].data[a - outs[c].addr] == objects[f][j].bytes[value])
  {
    hide Category, IsPow2, LaidOut, OutOk, AddressIn, InputOk;
    var c, i := Landing(objects, outs, f, j, value, a);
    var p := outs[c].pieces[i];
    PieceFacts(objects, outs[c], c, i, value);
    SectionAligned(outs, c);
    AlignedSum(outs[c].addr, p.offset, outs[c].alignment, AlignOf(objects[f][j]));
  }

  lemma SectionAligned(outs: seq<Out>, c: nat)
    requires LaidOut(outs) && 1 <= c < NOUT && outs[c].size > 0
    ensures outs[c].alignment > 0 && outs[c].addr % outs[c].alignment == 0
  {}

  /** What a piece says about one of its bytes. */
  lemma PieceFacts(objects: seq<seq<Input>>, o: Out, c: nat, i: nat, value: nat)
    requires OutOk(objects, o, c) && i < |o.pieces| && value < o.pieces[i].size
    ensures var p := o.pieces[i];
            && p.file < |objects| && 0 < p.shndx < |objects[p.file]| && IsPow2(o.alignment)
            && var s := objects[p.file][p.shndx];
               && Category(s) == c && IsPow2(AlignOf(s)) && AlignOf(s) <= o.alignment && AlignOf(s) > 0 && p.offset % AlignOf(s) == 0
               && (!s.nobits && InputOk(s) ==> p.offset + value < |o.data| && o.data[p.offset + value] == s.bytes[value])
  {}

  lemma AlignedSum(addr: nat, offset: nat, big: nat, small: nat)
    requires IsPow2(big) && IsPow2(small) && small <= big && addr % big == 0 && offset % small == 0
    ensures (addr + offset) % small == 0
  {
    hide IsPow2;
    Divides(small, big);
    Pow2Positive(small);
    Pow2Positive(big);
    Exact(addr, big);
    Exact(big, small);
    Exact(offset, small);
    AlignedParts(addr, offset, big, small, addr / big, big / small, offset / small);
  }

  lemma Pow2Positive(a: nat)
    ensures IsPow2(a) ==> a > 0
  {}

  lemma Exact(x: int, m: int)
    requires m > 0 && x % m == 0
    ensures x == m * (x / m)
  {}

  lemma AlignedParts(addr: int, offset: int, big: int, small: int, q: int, r: int, s: int)
    requires small > 0 && addr == big * q && big == small * r && offset == small * s
    ensures (addr + offset) % small == 0
  {
    SumOfMultiples(small, r, q, s);
    assert big * q == small * r * q;
  }

  lemma SumOfMultiples(a: int, r: int, q: int, s: int)
    requires a > 0
    ensures (a * r * q + a * s) % a == 0
  {
    assert a * r * q + a * s == a * (r * q + s) by {
      assert a * (r * q + s) == a * (r * q) + a * s;
      assert a * (r * q) == a * r * q;
    }
    ModUnique(a * r * q + a * s, a, r * q + s, 0);
  }

  /** Different bytes of the input go to different addresses. */
  lemma NoOverlap(objects: seq<seq<Input>>, outs: seq<Out>, f: nat, j: nat, v: nat, a: nat, g: nat, k: nat, w: nat, b: nat)
    requires |outs| == NOUT && (forall c :: 0 <= c < NOUT ==> OutOk(objects, outs[c], c)) && LaidOut(outs)
    requires f < |objects| && 0 < j < |objects[f]| && v < objects[f][j].size && AddressIn(outs, f, j, v, a)
    requires g < |objects| && 0 < k < |objects[g]| && w < objects[g][k].size && AddressIn(outs, g, k, w, b)
    requires a == b
    ensures f == g && j == k && v == w
  {
    hide OutOk, LaidOut, AddressIn;
    var c, x := Landing(objects, outs, f, j, v, a);
    var d, y := Landing(objects, outs, g, k, w, b);
    SectionsApart(outs, c, d, a);
    SamePiece(objects, outs[c], c, x, y, v, w);
  }

  /** Where an address falls. */
  lemma Landing(objects: seq<seq<Input>>, outs: seq<Out>, f: nat, j: nat, v: nat, a: nat) returns (c: nat, x: nat)
    requires |outs| == NOUT && (forall c :: 0 <= c < NOUT ==> OutOk(objects, outs[c], c))
    requires f < |objects| && 0 < j < |objects[f]| && v < objects[f][j].size && AddressIn(outs, f, j, v, a)
    ensures 1 <= c < NOUT && x < |outs[c].pieces| && outs[c].pieces[x].file == f && outs[c].pieces[x].shndx == j && v < outs[c].pieces[x].size
    ensures a == outs[c].addr + outs[c].pieces[x].offset + v < outs[c].addr + outs[c].size
  {
    hide Category, IsPow2;
    c, x :| 1 <= c < |outs| && 0 <= x < |outs[c].pieces| && outs[c].pieces[x].file == f && outs[c].pieces[x].shndx == j
            && a == outs[c].addr + outs[c].pieces[x].offset + v;
    assert PieceOk(objects, outs[c], c, outs[c].pieces[x]);
  }

  lemma SectionsApart(outs: seq<Out>, c: nat, d: nat, a: nat)
    requires LaidOut(outs) && 1 <= c < NOUT && 1 <= d < NOUT
    requires outs[c].addr <= a < outs[c].addr + outs[c].size && outs[d].addr <= a < outs[d].addr + outs[d].size
    ensures c == d
  {}

  lemma SamePiece(objects: seq<seq<Input>>, o: Out, c: nat, x: nat, y: nat, v: nat, w: nat)
    requires OutOk(objects, o, c) && x < |o.pieces| && y < |o.pieces| && v < o.pieces[x].size && w < o.pieces[y].size
    requires o.pieces[x].offset + v == o.pieces[y].offset + w
    ensures x == y && v == w
  {}

  // ---------- Steps of the proof ----------

  lemma StartOk(objects: seq<seq<Input>>, outs: seq<Out>)
    requires |outs| == NOUT && forall c :: 0 <= c < NOUT ==> outs[c] == Out(0, 0, MINALIGN, [], [])
    ensures (forall c :: 0 <= c < NOUT ==> OutOk(objects, outs[c], c)) && MergedUpTo(objects, outs, 0, 0)
  {}

  lemma OneMore(objects: seq<seq<Input>>, before: seq<Out>, outs: seq<Out>, i: nat, j: nat, junk: seq<Byte>)
    requires MergedUpTo(objects, before, i, j) && i < |objects| && 0 < j < |objects[i]| && 0 < Category(objects[i][j]) < NOUT
    requires var c := Category(objects[i][j]);
             && |before[c].data| <= before[c].size && |junk| == before[c].size - |before[c].data| && InputOk(objects[i][j])
             && outs == before[c := Extended(before[c], i, j, objects[i][j], junk)]
    ensures MergedUpTo(objects, outs, i, j + 1)
  {
    hide Category;
    var c := Category(objects[i][j]);
    var e := outs[c];
    assert e.pieces[|before[c].pieces|].file == i && e.pieces[|before[c].pieces|].shndx == j;
    forall f: nat, k: nat | f < |objects| && 0 < k < |objects[f]| && (f < i || (f == i && k < j + 1)) && Category(objects[f][k]) > 0
      ensures HasPiece(outs[Category(objects[f][k])], f, k)
    {
      if f == i && k == j {
        assert HasPiece(e, i, j);
      } else {
        var d := Category(objects[f][k]);
        assert HasPiece(before[d], f, k);
        var x :| 0 <= x < |before[d].pieces| && before[d].pieces[x].file == f && before[d].pieces[x].shndx == k;
        assert outs[d].pieces[x] == before[d].pieces[x];
      }
    }
  }

  lemma NoneMore(objects: seq<seq<Input>>, outs: seq<Out>, i: nat, j: nat)
    requires MergedUpTo(objects, outs, i, j) && i < |objects| && 0 < j < |objects[i]| && Category(objects[i][j]) == 0
    ensures MergedUpTo(objects, outs, i, j + 1)
  {}

  lemma NextFile(objects: seq<seq<Input>>, outs: seq<Out>, i: nat, j: nat)
    requires MergedUpTo(objects, outs, i, j) && i < |objects| && j >= |objects[i]|
    ensures MergedUpTo(objects, outs, i + 1, 0)
  {}

  lemma AlignMono(v: nat, w: nat, a: nat)
    requires v <= w && a > 0
    ensures AlignUp(v, a) <= AlignUp(w, a)
  {
    AlignUpIs(v, a);
    AlignUpIs(w, a);
    var x, y := (v + a - 1) / a, (w + a - 1) / a;
    assert a * x <= v + a - 1 && w + a - 1 < a * y + a;
    Distribute(a, x, y + 1);
    NonNegative(a, x - (y + 1));
    assert x <= y;
    NonNegative(a, y - x);
    Distribute(a, y, x);
  }

  lemma NonNegative(a: int, d: int)
    requires a > 0
    ensures d >= 0 ==> a * d >= 0
  {}
}
