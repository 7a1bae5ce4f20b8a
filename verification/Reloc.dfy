/** Static relocations of AArch64 (ELF for the Arm 64-bit Architecture, section 5.7): patching instruction
    and data words, and what the patched words decode to. Masks and shifts of contiguous bit fields are
    written as division and remainder by powers of two; a shift right of a negative offset rounds down. */
module Reloc {
  import opened Arith

  datatype Kind = Nothing | Abs64 | AdrLo21 | AdrHi21 | AddLo12 | Ldst8Lo12 | Ldst16Lo12 | Ldst32Lo12 | Ldst64Lo12 | Jump26 | Call26 | Unknown

  const TWO64: int := 0x1_0000_0000_0000_0000
  const TWO63: int := 0x8000_0000_0000_0000
  const TWO32: int := 0x1_0000_0000

  type Word = w: int | 0 <= w < TWO32
  type Addr = a: int | 0 <= a < TWO64

  /** A 64-bit difference read as a signed number. */
  function Signed(x: int): int { if x % TWO64 < TWO63 then x % TWO64 else x % TWO64 - TWO64 }

  // ---------- What instruction words mean (Arm Architecture Reference Manual, section C6.2) ----------

  /** Destination of B or BL at p: the low 26 bits, signed, times four. */
  function BranchTarget(insn: Word, p: Addr): Addr { (p + 4 * Signed26(insn % 0x400_0000)) % TWO64 }

  function Signed26(imm: int): int { if imm >= 0x200_0000 then imm - 0x400_0000 else imm }

  /** The signed 21-bit immediate of ADR and ADRP: two low bits at 29, nineteen high bits at 5. */
  function AdrImm(insn: Word): int { Join21(insn / 32 % 0x8_0000, insn / 0x2000_0000 % 4) }

  function Join21(hi: int, lo: int): int {
    var imm := hi * 4 + lo;
    if imm >= 0x10_0000 then imm - 0x20_0000 else imm
  }

  function AdrTarget(insn: Word, p: Addr): Addr { (p + AdrImm(insn)) % TWO64 }

  function Page(a: int): int { a - a % 4096 }

  function AdrpTarget(insn: Word, p: Addr): Addr { (Page(p) + 4096 * AdrImm(insn)) % TWO64 }

  /** The unsigned 12-bit immediate at bit 10. */
  function Imm12(insn: Word): int { insn / 1024 % 4096 }

  /** Opcode and register bits, outside the immediate fields. */
  predicate SameBranchOp(a: Word, b: Word) { a / 0x400_0000 == b / 0x400_0000 }

  predicate SameAdrOp(a: Word, b: Word) { a / 0x8000_0000 == b / 0x8000_0000 && a / 0x100_0000 % 32 == b / 0x100_0000 % 32 && a % 32 == b % 32 }

  predicate SameImm12Op(a: Word, b: Word) { a / 0x40_0000 == b / 0x40_0000 && a % 1024 == b % 1024 }

  // ---------- The patched word; x is S + A ----------

  /** insn & 0xfc000000 | imm26 */
  function Branch26(insn: Word, x: Addr, p: Addr): Option<Word> {
    var offset := Signed(x - p);
    if offset < -0x800_0000 || offset >= 0x800_0000 then None
    else if offset % 4 != 0 then None
    else Some(insn / 0x400_0000 * 0x400_0000 + offset / 4 % 0x400_0000)
  }

  /** insn & 0x9f00001f | immlo | immhi */
  function AdrWord(insn: Word, imm: int): Word {
    insn / 0x8000_0000 * 0x8000_0000 + imm % 4 * 0x2000_0000 + insn / 0x100_0000 % 32 * 0x100_0000 + imm / 4 % 0x8_0000 * 32 + insn % 32
  }

  function Adr21(insn: Word, x: Addr, p: Addr): Option<Word> {
    var offset := Signed(x - p);
    if offset < -0x10_0000 || offset >= 0x10_0000 then None else Some(AdrWord(insn, offset))
  }

  function Adrp21(insn: Word, x: Addr, p: Addr): Option<Word> {
    var offset := Signed(Page(x) - Page(p));
    if offset < -0x1_0000_0000 || offset >= 0x1_0000_0000 then None else Some(AdrWord(insn, offset / 4096))
  }

  /** insn & 0xffc003ff | imm12, the immediate counted in units of the access size. */
  function Lo12(insn: Word, x: Addr, unit: int): Option<Word>
    requires unit == 1 || unit == 2 || unit == 4 || unit == 8
  {
    var val := x % 4096;
    if val % unit != 0 then None
    else Some(insn / 0x40_0000 * 0x40_0000 + val / unit * 1024 + insn % 1024)
  }

  // ---------- They agree ----------

  /** A patched branch goes to S + A and keeps its opcode; patching fails exactly when no branch at P
      reaches S + A. */
  lemma Branch26Exact(insn: Word, x: Addr, p: Addr)
    ensures Branch26(insn, x, p).Some? ==>
              BranchTarget(Branch26(insn, x, p).value, p) == x && SameBranchOp(Branch26(insn, x, p).value, insn)
    ensures Branch26(insn, x, p).None? ==> forall i: Word :: BranchTarget(i, p) != x
  {
    hide Signed26, Signed;
    SignedIs(x, p);
    var offset := Signed(x - p);
    if Branch26(insn, x, p).Some? {
      Signed26Is(offset / 4);
      ModUnique(Branch26(insn, x, p).value, 0x400_0000, insn / 0x400_0000, offset / 4 % 0x400_0000);
    } else {
      forall i: Word ensures BranchTarget(i, p) != x { BranchNear(i, x, p); }
    }
  }

  lemma Signed26Is(k: int)
    requires -0x200_0000 <= k < 0x200_0000
    ensures Signed26(k % 0x400_0000) == k
  {}

  /** A branch reaches only aligned places within 128 megabytes. */
  lemma BranchNear(i: Word, x: Addr, p: Addr)
    ensures BranchTarget(i, p) == x ==> -0x800_0000 <= Signed(x - p) < 0x800_0000 && Signed(x - p) % 4 == 0
  {}

  lemma SignedIs(x: Addr, p: Addr)
    ensures -TWO63 <= Signed(x - p) < TWO63 && (p + Signed(x - p)) % TWO64 == x
  {}

  lemma AdrWordIs(insn: Word, imm: int)
    requires -0x10_0000 <= imm < 0x10_0000
    ensures AdrImm(AdrWord(insn, imm)) == imm && SameAdrOp(AdrWord(insn, imm), insn)
  {
    hide Join21;
    Join21Is(imm);
    AdrFields(insn / 0x8000_0000, imm % 4, insn / 0x100_0000 % 32, imm / 4 % 0x8_0000, insn % 32);
  }

  lemma Join21Is(imm: int)
    requires -0x10_0000 <= imm < 0x10_0000
    ensures Join21(imm / 4 % 0x8_0000, imm % 4) == imm
  {}

  /** The fields of an ADR word can be read off again. */
  lemma AdrFields(a: int, l: int, o: int, h: int, r: int)
    requires 0 <= a < 2 && 0 <= l < 4 && 0 <= o < 32 && 0 <= h < 0x8_0000 && 0 <= r < 32
    ensures var w := a * 0x8000_0000 + l * 0x2000_0000 + o * 0x100_0000 + h * 32 + r;
            && 0 <= w < TWO32 && w / 0x8000_0000 == a && w / 0x2000_0000 % 4 == l && w / 0x100_0000 % 32 == o
            && w / 32 % 0x8_0000 == h && w % 32 == r
  {
    var w := a * 0x8000_0000 + l * 0x2000_0000 + o * 0x100_0000 + h * 32 + r;
    ModUnique(w, 0x8000_0000, a, l * 0x2000_0000 + o * 0x100_0000 + h * 32 + r);
    ModUnique(w, 0x2000_0000, 4 * a + l, o * 0x100_0000 + h * 32 + r);
    ModUnique(4 * a + l, 4, a, l);
    ModUnique(w, 0x100_0000, 128 * a + 32 * l + o, h * 32 + r);
    ModUnique(128 * a + 32 * l + o, 32, 4 * a + l, o);
    ModUnique(w, 32, a * 0x400_0000 + l * 0x100_0000 + o * 0x8_0000 + h, r);
    ModUnique(a * 0x400_0000 + l * 0x100_0000 + o * 0x8_0000 + h, 0x8_0000, 128 * a + 32 * l + o, h);
  }

  lemma Adr21Exact(insn: Word, x: Addr, p: Addr)
    ensures Adr21(insn, x, p).Some? ==>
              AdrTarget(Adr21(insn, x, p).value, p) == x && SameAdrOp(Adr21(insn, x, p).value, insn)
    ensures Adr21(insn, x, p).None? ==> forall i: Word :: AdrTarget(i, p) != x
  {
    hide AdrWord, AdrImm, SameAdrOp;
    SignedIs(x, p);
    if Adr21(insn, x, p).Some? { AdrWordIs(insn, Signed(x - p)); }
    forall i: Word ensures -0x10_0000 <= AdrImm(i) < 0x10_0000 { AdrImmRange(i); }
  }

  lemma AdrImmRange(i: Word)
    ensures -0x10_0000 <= AdrImm(i) < 0x10_0000
  {}

  lemma Adrp21Exact(insn: Word, x: Addr, p: Addr)
    ensures Adrp21(insn, x, p).Some? ==>
              AdrpTarget(Adrp21(insn, x, p).value, p) == Page(x) && SameAdrOp(Adrp21(insn, x, p).value, insn)
    ensures Adrp21(insn, x, p).None? ==> forall i: Word :: AdrpTarget(i, p) != Page(x)
  {
    hide AdrWord, AdrImm, SameAdrOp, Signed, Page;
    var offset := Signed(Page(x) - Page(p));
    PageOffset(x, p);
    if Adrp21(insn, x, p).Some? {
      AdrWordIs(insn, offset / 4096);
    } else {
      forall i: Word ensures AdrpTarget(i, p) != Page(x) {
        AdrImmRange(i);
        PageNear(AdrImm(i), x, p);
      }
    }
  }

  /** The distance of two pages is a whole number of pages, and adding it leads from one to the other. */
  lemma PageOffset(x: Addr, p: Addr)
    ensures var offset := Signed(Page(x) - Page(p));
            4096 * (offset / 4096) == offset && (Page(p) + 4096 * (offset / 4096)) % TWO64 == Page(x)
  {
    var j, k := x / 4096, p / 4096;
    assert Page(x) == 4096 * j && Page(p) == 4096 * k;
    PagesApart(j, k);
  }

  lemma PagesApart(j: int, k: int)
    requires 0 <= j < 0x10_0000_0000_0000 && 0 <= k < 0x10_0000_0000_0000
    ensures Signed(4096 * j - 4096 * k) % 4096 == 0
    ensures (4096 * k + Signed(4096 * j - 4096 * k)) % TWO64 == 4096 * j
  {}

  lemma PageNear(imm: int, x: Addr, p: Addr)
    requires -0x10_0000 <= imm < 0x10_0000
    ensures (Page(p) + 4096 * imm) % TWO64 == Page(x) ==> -0x1_0000_0000 <= Signed(Page(x) - Page(p)) < 0x1_0000_0000
  {
    if (Page(p) + 4096 * imm) % TWO64 == Page(x) { SignedFrom(Page(x), Page(p), 4096 * imm); }
  }

  lemma SignedFrom(x: int, p: int, d: int)
    requires 0 <= x < TWO64 && 0 <= p < TWO64 && -TWO63 <= d < TWO63 && (p + d) % TWO64 == x
    ensures Signed(x - p) == d
  {}

  lemma Lo12Exact(insn: Word, x: Addr, unit: int)
    requires unit == 1 || unit == 2 || unit == 4 || unit == 8
    ensures Lo12(insn, x, unit).Some? ==> Imm12(Lo12(insn, x, unit).value) * unit == x % 4096 && SameImm12Op(Lo12(insn, x, unit).value, insn)
    ensures Lo12(insn, x, unit).None? <==> x % unit != 0
  {
    var val := x % 4096;
    UnitOf(x, unit);
    if val % unit == 0 { Imm12Fields(insn / 0x40_0000, val / unit, insn % 1024); }
  }

  lemma UnitOf(x: Addr, unit: int)
    requires unit == 1 || unit == 2 || unit == 4 || unit == 8
    ensures x % 4096 % unit == x % unit && 0 <= x % 4096 / unit < 4096 && (x % unit == 0 ==> x % 4096 / unit * unit == x % 4096)
  {
    var q, v := x / 4096, x % 4096;
    assert x == 4096 * q + v;
    match unit {
      case 1 =>
      case 2 => ModUnique(x, 2, 2048 * q + v / 2, v % 2);
      case 4 => ModUnique(x, 4, 1024 * q + v / 4, v % 4);
      case _ => ModUnique(x, 8, 512 * q + v / 8, v % 8);
    }
  }

  lemma Imm12Fields(a: int, v: int, r: int)
    requires 0 <= a < 1024 && 0 <= v < 4096 && 0 <= r < 1024
    ensures var w := a * 0x40_0000 + v * 1024 + r;
            0 <= w < TWO32 && w / 0x40_0000 == a && w / 1024 % 4096 == v && w % 1024 == r
  {
    var w := a * 0x40_0000 + v * 1024 + r;
    ModUnique(w, 0x40_0000, a, v * 1024 + r);
    ModUnique(w, 1024, a * 4096 + v, r);
    ModUnique(a * 4096 + v, 4096, a, v);
  }

  /** ADRP followed by an access with a low-12 immediate forms the whole address. */
  lemma PairAddress(i1: Word, i2: Word, x: Addr, p: Addr, unit: int)
    requires unit == 1 || unit == 2 || unit == 4 || unit == 8
    requires Adrp21(i1, x, p).Some? && Lo12(i2, x, unit).Some?
    ensures AdrpTarget(Adrp21(i1, x, p).value, p) + Imm12(Lo12(i2, x, unit).value) * unit == x
  {
    Adrp21Exact(i1, x, p);
    Lo12Exact(i2, x, unit);
  }

  // ---------- Patching a section ----------

  function Get32(d: seq<Byte>, o: nat): Word
    requires o + 4 <= |d|
  {
    var b0: int, b1: int, b2: int, b3: int := d[o], d[o + 1], d[o + 2], d[o + 3];
    b0 + 0x100 * b1 + 0x1_0000 * b2 + 0x100_0000 * b3
  }

  function Get64(d: seq<Byte>, o: nat): Addr
    requires o + 8 <= |d|
  { Get32(d, o) + TWO32 * Get32(d, o + 4) }

  function Width(k: Kind): nat { match k case Nothing => 0 case Unknown => 0 case Abs64 => 8 case _ => 4 }

  /** A relocation whose symbol was resolved: place in the section, S and A. */
  datatype Fixup = Fixup(off: nat, kind: Kind, s: Addr, a: int)

  /** The new instruction word, if the value fits. */
  function Patched(k: Kind, insn: Word, x: Addr, p: Addr): Option<Word>
    requires Width(k) == 4
  {
    match k
    case AdrLo21 => Adr21(insn, x, p)
    case AdrHi21 => Adrp21(insn, x, p)
    case AddLo12 => Lo12(insn, x, 1)
    case Ldst8Lo12 => Lo12(insn, x, 1)
    case Ldst16Lo12 => Lo12(insn, x, 2)
    case Ldst32Lo12 => Lo12(insn, x, 4)
    case Ldst64Lo12 => Lo12(insn, x, 8)
    case _ => Branch26(insn, x, p)
  }

  /** What the standard asks of a patched word: it stands for x at place p and its other bits are those of the old word. */
  predicate Stands(k: Kind, word: Word, old_: Word, x: Addr, p: Addr)
    requires Width(k) == 4
  {
    match k
    case AdrLo21 => AdrTarget(word, p) == x && SameAdrOp(word, old_)
    case AdrHi21 => AdrpTarget(word, p) == Page(x) && SameAdrOp(word, old_)
    case AddLo12 => Imm12(word) == x % 4096 && SameImm12Op(word, old_)
    case Ldst8Lo12 => Imm12(word) == x % 4096 && SameImm12Op(word, old_)
    case Ldst16Lo12 => Imm12(word) * 2 == x % 4096 && SameImm12Op(word, old_)
    case Ldst32Lo12 => Imm12(word) * 4 == x % 4096 && SameImm12Op(word, old_)
    case Ldst64Lo12 => Imm12(word) * 8 == x % 4096 && SameImm12Op(word, old_)
    case _ => BranchTarget(word, p) == x && SameBranchOp(word, old_)
  }

  /** Some word of the kind can stand for x at p. */
  ghost predicate Encodable(k: Kind, x: Addr, p: Addr) {
    match k
    case Nothing => true
    case Abs64 => true
    case Unknown => false
    case AdrLo21 => exists i: Word :: AdrTarget(i, p) == x
    case AdrHi21 => exists i: Word :: AdrpTarget(i, p) == Page(x)
    case AddLo12 => true
    case Ldst8Lo12 => true
    case Ldst16Lo12 => x % 2 == 0
    case Ldst32Lo12 => x % 4 == 0
    case Ldst64Lo12 => x % 8 == 0
    case Jump26 => exists i: Word :: BranchTarget(i, p) == x
    case Call26 => exists i: Word :: BranchTarget(i, p) == x
  }

  /** Patching succeeds exactly when the value can be encoded, and then the word stands for it. */
  lemma PatchedExact(k: Kind, insn: Word, x: Addr, p: Addr)
    requires Width(k) == 4
    ensures Patched(k, insn, x, p).Some? <==> Encodable(k, x, p)
    ensures Patched(k, insn, x, p).Some? ==> Stands(k, Patched(k, insn, x, p).value, insn, x, p)
  {
    hide BranchTarget, AdrTarget, AdrpTarget, Imm12, SameAdrOp, SameBranchOp, SameImm12Op, Branch26, Adr21, Adrp21, Lo12;
    match k {
      case AdrLo21 => Adr21Exact(insn, x, p);
      case AdrHi21 => Adrp21Exact(insn, x, p);
      case AddLo12 => Lo12Exact(insn, x, 1);
      case Ldst8Lo12 => Lo12Exact(insn, x, 1);
      case Ldst16Lo12 => Lo12Exact(insn, x, 2);
      case Ldst32Lo12 => Lo12Exact(insn, x, 4);
      case Ldst64Lo12 => Lo12Exact(insn, x, 8);
      case _ => Branch26Exact(insn, x, p);
    }
  }

  /** A section at addr can hold what f asks for: S + A, at the address of the place. */
  ghost predicate Fits(addr: Addr, f: Fixup) { Encodable(f.kind, (f.s + f.a) % TWO64, (addr + f.off) % TWO64) }

  /** The place of f holds what the standard asks, given the section's data before. */
  predicate Resolved(d: seq<Byte>, d0: seq<Byte>, addr: Addr, f: Fixup)
    requires |d| == |d0| && f.off + Width(f.kind) <= |d|
  {
    if f.kind == Unknown then false
    else if f.kind == Nothing then true
    else if f.kind == Abs64 then Get64(d, f.off) == (f.s + f.a) % TWO64
    else Stands(f.kind, Get32(d, f.off), Get32(d0, f.off), (f.s + f.a) % TWO64, (addr + f.off) % TWO64)
  }

  predicate Covers(f: Fixup, i: int) { f.off <= i < f.off + Width(f.kind) }

  method Put32(data: array<Byte>, o: nat, w: Word)
    requires o + 4 <= data.Length
    modifies data
    ensures Get32(data[..], o) == w
    ensures forall i :: 0 <= i < data.Length && !(o <= i < o + 4) ==> data[i] == old(data[i])
  {
    data[o] := w % 0x100;
    data[o + 1] := w / 0x100 % 0x100;
    data[o + 2] := w / 0x1_0000 % 0x100;
    data[o + 3] := w / 0x100_0000;
    WordDigits(w);
  }

  lemma WordDigits(w: Word)
    ensures w % 0x100 + 0x100 * (w / 0x100 % 0x100) + 0x1_0000 * (w / 0x1_0000 % 0x100) + 0x100_0000 * (w / 0x100_0000) == w
  {
    assert w / 0x1_0000 == w / 0x100 / 0x100;
    assert w / 0x100_0000 == w / 0x1_0000 / 0x100;
  }

  /** apply_one_reloc */
  method ApplyOne(data: array<Byte>, addr: Addr, f: Fixup) returns (ok: bool)
    requires f.off + Width(f.kind) <= data.Length
    modifies data
    ensures ok <==> Fits(addr, f)
    ensures ok ==> Resolved(data[..], old(data[..]), addr, f)
    ensures forall i :: 0 <= i < data.Length && !Covers(f, i) ==> data[i] == old(data[i])
    ensures !ok ==> data[..] == old(data[..])
  {
    hide Stands, Patched, Get32;
    var x, p := (f.s + f.a) % TWO64, (addr + f.off) % TWO64;
    match f.kind {
      case Nothing => return true;
      case Unknown => return false;
      case Abs64 =>
        Put32(data, f.off, x % TWO32);
        ghost var mid := data[..];
        Put32(data, f.off + 4, x / TWO32);
        Get32Same(mid, data[..], f.off);
        return true;
      case _ =>
        var insn := Get32(data[..], f.off);
        PatchedExact(f.kind, insn, x, p);
        var w := Patched(f.kind, insn, x, p);
        if w.None? { return false; }
        Put32(data, f.off, w.value);
        return true;
    }
  }

  lemma Get32Same(d: seq<Byte>, e: seq<Byte>, o: nat)
    requires |d| == |e| && o + 4 <= |d| && forall i :: o <= i < o + 4 ==> d[i] == e[i]
    ensures Get32(d, o) == Get32(e, o)
  {}

  /** Another place's patch does not disturb a resolved place. */
  lemma ResolvedStays(d: seq<Byte>, e: seq<Byte>, d0: seq<Byte>, addr: Addr, f: Fixup)
    requires |d| == |e| == |d0| && f.off + Width(f.kind) <= |d| && forall i :: Covers(f, i) ==> d[i] == e[i]
    ensures Resolved(d, d0, addr, f) <==> Resolved(e, d0, addr, f)
    ensures Resolved(d0, d, addr, f) <==> Resolved(d0, e, addr, f)
  {
    hide Stands, Get32;
    forall i | f.off <= i < f.off + Width(f.kind) ensures d[i] == e[i] { assert Covers(f, i); }
    if Width(f.kind) >= 4 { Get32Same(d, e, f.off); }
    if Width(f.kind) == 8 { Get32Same(d, e, f.off + 4); }
  }

  ghost predicate Apart(fs: seq<Fixup>) {
    forall k, l, i :: 0 <= k < |fs| && 0 <= l < |fs| && Covers(fs[k], i) && Covers(fs[l], i) ==> k == l
  }

  /** apply_relocations on one output section: it succeeds exactly when every value can be encoded, and
      then every place holds what the standard asks and every other byte is untouched. */
  method ApplyAll(data: array<Byte>, addr: Addr, fs: seq<Fixup>) returns (ok: bool)
    requires Apart(fs) && forall k :: 0 <= k < |fs| ==> fs[k].off + Width(fs[k].kind) <= data.Length
    modifies data
    ensures ok <==> forall k :: 0 <= k < |fs| ==> Fits(addr, fs[k])
    ensures ok ==> forall k :: 0 <= k < |fs| ==> Resolved(data[..], old(data[..]), addr, fs[k])
    ensures forall i :: 0 <= i < data.Length && (forall k :: 0 <= k < |fs| ==> !Covers(fs[k], i)) ==> data[i] == old(data[i])
  {
    hide Resolved, Fits;
    ghost var d0 := data[..];
    var k := 0;
    while k < |fs|
      invariant k <= |fs| && forall l :: 0 <= l < k ==> Fits(addr, fs[l])
      invariant forall l :: 0 <= l < k ==> Resolved(data[..], d0, addr, fs[l])
      invariant forall i :: 0 <= i < data.Length && (forall l :: 0 <= l < k ==> !Covers(fs[l], i)) ==> data[i] == d0[i]
    {
      ghost var d := data[..];
      ok := ApplyOne(data, addr, fs[k]);
      if !ok { return; }
      forall l | 0 <= l < k ensures Resolved(data[..], d0, addr, fs[l]) { ResolvedStays(d, data[..], d0, addr, fs[l]); }
      ResolvedStays(d, d0, data[..], addr, fs[k]);
      k := k + 1;
    }
    ok := true;
  }
}
