/** Register contents against C values: what each emitted operation computes. */
module CodegenValues {
  import opened CTypes
  import opened Arith
  import opened CAst
  import opened Machine
  import opened Codegen

  /** Register x holds value v of type t: all 64 bits for 8-byte types and _Bool,
      the low 32 bits (sign or zero extended from the type) otherwise. */
  predicate Rel(t: Ty, v: int, x: int) {
    && 0 <= x < TWO64
    && (if t == TBool then x == v
        else if Size(t) == 8 then x == v % TWO64
        else x % TWO32 == v % TWO32)
  }

  /** What is known of the upper half of a register holding a narrower value:
      sign extended, zero extended, or at least zero whenever the low half is. */
  datatype Shape = Shape(sx: bool, zx: bool, zf: bool)

  predicate ShapeOk(sh: Shape, x: int) {
    && (sh.sx ==> x == Signed(x % TWO32, TWO32) % TWO64)
    && (sh.zx ==> x < TWO32)
    && (sh.zf ==> x % TWO32 == 0 ==> x == 0)
  }

  const ANY := Shape(false, false, false)
  const FLAG := Shape(true, true, true)

  function CastShape(from: Ty, to: Ty, sh: Shape): Shape {
    var code := CastCode(from, to);
    if to == TBool then FLAG
    else if code == [] then (if Size(from) < 8 then sh else ANY)
    else if code[0] == Uxt(4) then Shape(false, true, true)
    else if code[0].Uxt? then FLAG
    else Shape(true, false, true)
  }

  function ShapeOf(e: Node): Shape {
    match e
    case Num(_, t) => if Unsigned(t) then Shape(false, true, true) else Shape(true, false, true)
    case Var(_, t) => if Unsigned(t) then Shape(false, true, true) else Shape(true, false, true)
    case Assign(_, rhs, _) => ShapeOf(rhs)
    case Cast(a, t) => CastShape(TyOf(a), t, ShapeOf(a))
    case Neg(a, _) => Shape(false, false, ShapeOf(a).zf)
    case BitNot(a, _) => Shape(ShapeOf(a).sx, false, ShapeOf(a).sx)
    case Not(_) => FLAG
    case Bin(op, _, _, _) => if IsCompare(op) then FLAG else Shape(false, true, true)
    case LogAnd(_, _) => FLAG
    case LogOr(_, _) => FLAG
    case Cond(_, a, b, _) =>
      var x, y := ShapeOf(a), ShapeOf(b);
      Shape(x.sx && y.sx, x.zx && y.zx, x.zf && y.zf)
    case Comma(_, r) => ShapeOf(r)
  }

  /** A zero test compares all 64 bits, so a narrower operand must be faithful at zero. */
  predicate TestOk(e: Node) { Size(TyOf(e)) == 8 || ShapeOf(e).zf }

  predicate CastOk(from: Ty, to: Ty) { !(from == I8 && to == U16) }

  /** The trees the generator compiles correctly: no signed char to unsigned short conversion,
      and zero tests only on operands that are faithful at zero. */
  predicate Compilable(e: Node) {
    match e
    case Num(_, _) => true
    case Var(_, _) => true
    case Assign(_, rhs, _) => Compilable(rhs)
    case Cast(a, t) => Compilable(a) && CastOk(TyOf(a), t) && (t == TBool ==> TestOk(a))
    case Neg(a, _) => Compilable(a)
    case BitNot(a, _) => Compilable(a)
    case Not(a) => Compilable(a) && TestOk(a)
    case Bin(_, l, r, _) => Compilable(l) && Compilable(r)
    case LogAnd(l, r) => Compilable(l) && Compilable(r) && TestOk(l) && TestOk(r)
    case LogOr(l, r) => Compilable(l) && Compilable(r) && TestOk(l) && TestOk(r)
    case Cond(c, a, b, _) => Compilable(c) && Compilable(a) && Compilable(b) && TestOk(c)
    case Comma(l, r) => Compilable(l) && Compilable(r)
  }

  // ---------- Modular arithmetic ----------

  lemma ModAdd(x: int, a: int, y: int, b: int, m: int)
    requires m > 0 && x % m == a % m && y % m == b % m
    ensures (x % m + y % m) % m == (a + b) % m
    ensures (x % m - y % m) % m == (a - b) % m
    ensures (x - y) % m == (a - b) % m
  {
    var r, s := a % m, b % m;
    ModShift(r + s, a / m + b / m, m);
    assert (r + s) + m * (a / m + b / m) == a + b by { Expand(m, a / m, b / m); }
    ModShift(r - s, a / m - b / m, m);
    assert (r - s) + m * (a / m - b / m) == a - b by { Distribute(m, a / m, b / m); }
    ModShift(r - s, x / m - y / m, m);
    assert (r - s) + m * (x / m - y / m) == x - y by { Distribute(m, x / m, y / m); }
  }

  lemma Expand(m: int, a: int, b: int)
    ensures m * (a + b) == m * a + m * b
  {}

  /** Adding a multiple of the modulus does not change the remainder. */
  lemma ModShift(r: int, q: int, m: int)
    requires m > 0
    ensures (r + m * q) % m == r % m
  {
    assert r == m * (r / m) + r % m;
    Expand(m, r / m, q);
    ModUnique(r + m * q, m, r / m + q, r % m);
  }

  lemma ModMul(x: int, a: int, y: int, b: int, m: int)
    requires m > 0 && x % m == a % m && y % m == b % m
    ensures (x % m) * (y % m) % m == a * b % m
    ensures (x * y) % m == a * b % m
  {
    ModMulOne(a, b, m);
    ModMulOne(x, y, m);
  }

  lemma ModMulOne(a: int, b: int, m: int)
    requires m > 0
    ensures (a % m) * (b % m) % m == a * b % m
  {
    var r, s, p, q := a % m, b % m, a / m, b / m;
    var k := p * s + q * r + m * (p * q);
    assert a * b == r * s + m * k by {
      calc {
        a * b;
        { assert a == m * p + r && b == m * q + s; }
        (m * p + r) * (m * q + s);
        { Foil(m * p, r, m * q, s); }
        (m * p) * (m * q) + (m * p) * s + r * (m * q) + r * s;
        { Regroup(m, p, q, r, s); }
        r * s + m * k;
      }
    }
    ModShift(r * s, k, m);
  }

  lemma Foil(a: int, b: int, c: int, d: int)
    ensures (a + b) * (c + d) == a * c + a * d + b * c + b * d
  {}

  lemma Regroup(m: int, p: int, q: int, r: int, s: int)
    ensures (m * p) * (m * q) + (m * p) * s + r * (m * q) == m * (p * s + q * r + m * (p * q))
  {}

  /** Wrapping keeps the bit pattern. */
  lemma WrapMod(t: Ty, v: int)
    requires t != TBool
    ensures Wrap(t, v) % Modulus(t) == v % Modulus(t)
  {}

  /** A value in range is recovered from its bit pattern. */
  lemma Recover(t: Ty, v: int)
    requires t != TBool && InRange(t, v)
    ensures v == if Unsigned(t) then v % Modulus(t) else Signed(v % Modulus(t), Modulus(t))
  { ConvId(t, v); }

  // ---------- Binary operators ----------

  function DivOp(t: Ty): AluOp { if Unsigned(t) then AUdiv else ASdiv }

  /** Contents of x0 after the code of a binary operator, from x0 and x1 before it. */
  function BinResult(op: Op, t: Ty, x: int, y: int): int {
    var w := Size(t) > 4;
    match op
    case Add => AluValue(AAdd, w, x, y)
    case Sub => AluValue(ASub, w, x, y)
    case Mul => AluValue(AMul, w, x, y)
    case Div => AluValue(DivOp(t), w, x, y)
    case Mod => (x - AluValue(DivOp(t), w, x, y) * y) % RegMod(w)
    case BitAnd => AluValue(AAnd, w, x, y)
    case BitOr => AluValue(AOrr, w, x, y)
    case BitXor => AluValue(AEor, w, x, y)
    case Shl => AluValue(ALsl, w, x, y)
    case Shr => AluValue(if Unsigned(t) then ALsr else AAsr, w, x, y)
    case Eq => Flag(Holds(EQ, Compare(w, x, y)))
    case Ne => Flag(Holds(NE, Compare(w, x, y)))
    case Lt => Flag(Holds(if Unsigned(t) then LO else LT, Compare(w, x, y)))
    case Le => Flag(Holds(if Unsigned(t) then LS else LE, Compare(w, x, y)))
  }

  /** A result below the modulus with the right bit pattern holds the wrapped value. */
  lemma Fits(t: Ty, v: int, r: int)
    requires Size(t) >= 4 && 0 <= r < Modulus(t) && r == v % Modulus(t)
    ensures Rel(t, Wrap(t, v), r)
    ensures Size(t) < 8 ==> ShapeOk(Shape(false, true, true), r)
  {}

  lemma RelMod(t: Ty, v: int, x: int)
    requires Size(t) >= 4 && Rel(t, v, x)
    ensures x % Modulus(t) == v % Modulus(t) && RegMod(Size(t) > 4) == Modulus(t)
  {}

  lemma DivCorrect(t: Ty, a: int, b: int, x: int, y: int)
    requires Size(t) >= 4 && InRange(t, a) && InRange(t, b) && b != 0
    requires x % Modulus(t) == a % Modulus(t) && y % Modulus(t) == b % Modulus(t)
    ensures AluValue(DivOp(t), Size(t) > 4, x, y) == TruncDiv(a, b) % Modulus(t)
  {
    Recover(t, a);
    Recover(t, b);
    if Unsigned(t) {
      QuotientBound(a, b);
      ModSmall(a / b, Modulus(t));
    }
  }

  lemma QuotientBound(a: int, b: int)
    requires 0 <= a && b > 0
    ensures 0 <= a / b <= a
  {
    var q := a / b;
    assert a == b * q + a % b;
    if q >= 0 { MulAtLeast(b - 1, q); Expand(q, b - 1, 1); } else { MulAtLeast(b, -q - 1); Negate(b, q); }
  }

  lemma MulAtLeast(b: int, q: int)
    requires b >= 0 && q >= 0
    ensures b * q >= 0
  {}

  lemma Negate(b: int, q: int)
    ensures b * (-q - 1) == -(b * q) - b
  {}

  lemma ModSmall(a: int, m: int)
    requires 0 <= a < m
    ensures a % m == a
  {}

  lemma ModCorrect(t: Ty, a: int, b: int, x: int, y: int)
    requires Size(t) >= 4 && InRange(t, a) && InRange(t, b) && b != 0
    requires x % Modulus(t) == a % Modulus(t) && y % Modulus(t) == b % Modulus(t)
    ensures BinResult(Mod, t, x, y) == (a - b * TruncDiv(a, b)) % Modulus(t)
  {
    hide AluValue, TruncDiv, InRange;
    var m := Modulus(t);
    var q := AluValue(DivOp(t), Size(t) > 4, x, y);
    DivCorrect(t, a, b, x, y);
    ModShift(q, 0, m);
    assert q % m == TruncDiv(a, b) % m by { ModSmall(q, m); }
    ModMul(q, TruncDiv(a, b), y, b, m);
    assert TruncDiv(a, b) * b == b * TruncDiv(a, b);
    ModAdd(x, a, q * y, b * TruncDiv(a, b), m);
  }

  /** Division and remainder, in the operand type and in the register: q is the quotient truncated
      toward zero; only the least value divided by -1 wraps, and remainders never do. */
  lemma DivisionMeans(t: Ty, a: int, b: int, q: int, x: int, y: int)
    requires Size(t) >= 4 && InRange(t, a) && InRange(t, b) && b != 0 && RemainderOk(a, b, a - b * q)
    requires x % Modulus(t) == a % Modulus(t) && y % Modulus(t) == b % Modulus(t)
    ensures OpValue(Div, t, a, b) == Some(if b == -1 && 2 * a == -Modulus(t) then a else q)
    ensures OpValue(Mod, t, a, b) == Some(a - b * q)
    ensures BinResult(Div, t, x, y) == q % Modulus(t) && BinResult(Mod, t, x, y) == (a - b * q) % Modulus(t)
  {
    hide TruncDiv, BinResult, Wrap;
    TruncDivExact(a, b, q);
    DivResult(t, a, b, x, y);
    ModCorrect(t, a, b, x, y);
    QuotientRange(t, a, b, q);
    WrapId(t, a - b * q);
    if InRange(t, q) { WrapId(t, q); } else { LeastWraps(t, a); }
  }

  lemma WrapId(t: Ty, v: int)
    requires t != TBool && InRange(t, v)
    ensures Wrap(t, v) == v
  { ConvId(t, v); }

  lemma LeastWraps(t: Ty, a: int)
    requires Size(t) >= 4 && !Unsigned(t) && 2 * a == -Modulus(t)
    ensures Wrap(t, -a) == a
  {}

  lemma QuotientRange(t: Ty, a: int, b: int, q: int)
    requires Size(t) >= 4 && InRange(t, a) && InRange(t, b) && b != 0 && RemainderOk(a, b, a - b * q)
    ensures InRange(t, a - b * q)
    ensures !InRange(t, q) <==> b == -1 && 2 * a == -Modulus(t)
    ensures !InRange(t, q) ==> q == -a && !Unsigned(t)
  {
    if b == -1 || b == 1 || q == 0 {
    } else {
      QuotientSmaller(a, b, q);
    }
  }

  lemma QuotientSmaller(a: int, b: int, q: int)
    requires b < -1 || b > 1
    requires RemainderOk(a, b, a - b * q)
    ensures 2 * q <= a || 2 * q <= -a
    ensures 2 * q >= a || 2 * q >= -a
    ensures a >= 0 && b > 0 ==> q >= 0
  {
    if q > 0 {
      MulAtLeast(q, (if b > 0 then b else -b) - 2);
    }
    if q < 0 {
      MulAtLeast(-q, (if b > 0 then b else -b) - 2);
    }
  }

  /** The bits of a bitwise result, in the operand type and in the register. */
  lemma BitwiseMeans(op: Op, t: Ty, a: int, b: int, x: int, y: int, k: nat)
    requires (op == BitAnd || op == BitOr || op == BitXor) && Size(t) >= 4 && k < 8 * Size(t)
    requires Rel(t, a, x) && Rel(t, b, y)
    ensures OpValue(op, t, a, b).Some? && OpValue(op, t, a, b).value % Modulus(t) == BinResult(op, t, x, y)
    ensures op == BitAnd ==> (Bit(BinResult(op, t, x, y), k) == 1 <==> Bit(a, k) == 1 && Bit(b, k) == 1)
    ensures op == BitOr ==> (Bit(BinResult(op, t, x, y), k) == 1 <==> Bit(a, k) == 1 || Bit(b, k) == 1)
    ensures op == BitXor ==> (Bit(BinResult(op, t, x, y), k) == 1 <==> Bit(a, k) != Bit(b, k))
  {
    hide Bit, Logic, Wrap, BinResult, Rel, Pow2;
    var m := Modulus(t);
    LogicCorrect(op, t, a, b, x, y);
    Pow2Values();
    BitLow(a, 8 * Size(t), k);
    BitLow(b, 8 * Size(t), k);
    LogicBits(op, 8 * Size(t), a % m, b % m, k);
    ModSmall(Logic(op, 8 * Size(t), a % m, b % m), m);
    WrapMod(t, Logic(op, 8 * Size(t), a % m, b % m));
  }

  lemma Pow2Values()
    ensures Pow2(32) == TWO32 && Pow2(64) == TWO64
  {
    Pow2Add(8, 8);
    Pow2Add(16, 16);
    Pow2Add(32, 32);
    assert Pow2(8) == 0x100;
  }

  lemma {:induction false} Pow2Add(a: nat, b: nat)
    ensures Pow2(a + b) == Pow2(a) * Pow2(b)
  {
    if b > 0 { Pow2Add(a, b - 1); }
  }

  /** The shift amount the hardware uses is the C one whenever C defines the shift. */
  lemma ShiftCount(t: Ty, rt: Ty, b: int, y: int)
    requires Size(t) >= 4 && Rel(rt, b, y) && 0 <= b < 8 * Size(t)
    ensures y % RegMod(Size(t) > 4) % RegBits(Size(t) > 4) == b
  {}

  lemma ShlCorrect(t: Ty, rt: Ty, a: int, b: int, x: int, y: int)
    requires Size(t) >= 4 && Rel(t, a, x) && Rel(rt, b, y) && 0 <= b < 8 * Size(t)
    ensures BinResult(Shl, t, x, y) == a * Pow2(b) % Modulus(t)
  {
    hide Rel, Pow2;
    RelMod(t, a, x);
    ShiftCount(t, rt, b, y);
    var m := Modulus(t);
    ModSmall(x % m, m);
    ModMul(x % m, a, Pow2(b), Pow2(b), m);
  }

  lemma ShrCorrect(t: Ty, rt: Ty, a: int, b: int, x: int, y: int)
    requires Size(t) >= 4 && InRange(t, a) && Rel(t, a, x) && Rel(rt, b, y) && 0 <= b < 8 * Size(t)
    ensures BinResult(Shr, t, x, y) == a / Pow2(b) % Modulus(t)
  {
    hide Rel, Pow2;
    RelMod(t, a, x);
    ShiftCount(t, rt, b, y);
    Recover(t, a);
    if Unsigned(t) {
      QuotientBound(a, Pow2(b));
      ModSmall(a / Pow2(b), Modulus(t));
    }
  }

  lemma LogicCorrect(op: Op, t: Ty, a: int, b: int, x: int, y: int)
    requires op == BitAnd || op == BitOr || op == BitXor
    requires Size(t) >= 4 && Rel(t, a, x) && Rel(t, b, y)
    ensures BinResult(op, t, x, y) == Logic(op, 8 * Size(t), a % Modulus(t), b % Modulus(t)) % Modulus(t)
  {
    hide Rel, Logic, Pow2;
    RelMod(t, a, x);
    RelMod(t, b, y);
    Pow2Values();
    ModSmall(Logic(op, 8 * Size(t), a % Modulus(t), b % Modulus(t)), Modulus(t));
  }

  /** The condition codes read from NZCV are the C comparisons of the operand type. */
  lemma CompareCorrect(op: Op, t: Ty, a: int, b: int, x: int, y: int)
    requires IsCompare(op) && Size(t) >= 4 && InRange(t, a) && InRange(t, b)
    requires x % Modulus(t) == a % Modulus(t) && y % Modulus(t) == b % Modulus(t)
    ensures Some(BinResult(op, t, x, y)) == OpValue(op, t, a, b)
  {
    Recover(t, a);
    Recover(t, b);
    FlagsMeaning(Size(t) > 4, x, y);
  }

  lemma FlagsMeaning(w: bool, x: int, y: int)
    ensures var m := RegMod(w);
            var f := Compare(w, x, y);
            && (Holds(EQ, f) <==> x % m == y % m)
            && (Holds(LO, f) <==> x % m < y % m)
            && (Holds(LS, f) <==> x % m <= y % m)
            && (Holds(LT, f) <==> Signed(x % m, m) < Signed(y % m, m))
            && (Holds(LE, f) <==> Signed(x % m, m) <= Signed(y % m, m))
  {}

  /** Every binary operator leaves the C value of its operands' values in x0. */
  lemma OpCorrect(op: Op, t: Ty, rt: Ty, a: int, b: int, x: int, y: int, v: int)
    requires Size(t) >= 4 && InRange(t, a) && InRange(rt, b) && (!IsShift(op) ==> rt == t)
    requires Rel(t, a, x) && Rel(rt, b, y) && OpValue(op, t, a, b) == Some(v)
    ensures var u := if IsCompare(op) then I32 else t;
            && Rel(u, v, BinResult(op, t, x, y))
            && (Size(u) < 8 ==> ShapeOk(if IsCompare(op) then FLAG else Shape(false, true, true), BinResult(op, t, x, y)))
  {
    hide BinResult, Rel, ShapeOk, OpValue, InRange, Wrap;
    if IsCompare(op) {
      RelMod(t, a, x);
      RelMod(t, b, y);
      CompareCorrect(op, t, a, b, x, y);
      FlagRel(op, t, a, b);
    } else {
      var w := OpExact(op, t, rt, a, b, x, y, v);
      Fits(t, w, BinResult(op, t, x, y));
    }
  }

  lemma FlagRel(op: Op, t: Ty, a: int, b: int)
    requires IsCompare(op)
    ensures OpValue(op, t, a, b).Some?
    ensures Rel(I32, OpValue(op, t, a, b).value, OpValue(op, t, a, b).value)
    ensures Size(I32) < 8 && ShapeOk(FLAG, OpValue(op, t, a, b).value)
  {}

  /** Each arithmetic operator computes the bit pattern of its exact result w, whose wrap is v. */
  lemma OpExact(op: Op, t: Ty, rt: Ty, a: int, b: int, x: int, y: int, v: int) returns (w: int)
    requires Size(t) >= 4 && InRange(t, a) && InRange(rt, b) && (!IsShift(op) ==> rt == t)
    requires Rel(t, a, x) && Rel(rt, b, y) && OpValue(op, t, a, b) == Some(v) && !IsCompare(op)
    ensures v == Wrap(t, w) && BinResult(op, t, x, y) == w % Modulus(t)
    ensures 0 <= BinResult(op, t, x, y) < Modulus(t)
  {
    hide Wrap, TruncDiv, Logic, Pow2, InRange, BinResult, Rel;
    RelMod(t, a, x);
    if !IsShift(op) { RelMod(t, b, y); }
    match op {
      case Add => SumCorrect(t, a, b, x, y); w := a + b;
      case Sub => SumCorrect(t, a, b, x, y); w := a - b;
      case Mul => SumCorrect(t, a, b, x, y); w := a * b;
      case Div => DivResult(t, a, b, x, y); w := TruncDiv(a, b);
      case Mod => ModCorrect(t, a, b, x, y); w := a - b * TruncDiv(a, b);
      case BitAnd => LogicCorrect(op, t, a, b, x, y); w := Logic(op, 8 * Size(t), a % Modulus(t), b % Modulus(t));
      case BitOr => LogicCorrect(op, t, a, b, x, y); w := Logic(op, 8 * Size(t), a % Modulus(t), b % Modulus(t));
      case BitXor => LogicCorrect(op, t, a, b, x, y); w := Logic(op, 8 * Size(t), a % Modulus(t), b % Modulus(t));
      case Shl => ShlCorrect(t, rt, a, b, x, y); w := a * Pow2(b);
      case Shr => ShrCorrect(t, rt, a, b, x, y); w := a / Pow2(b);
    }
  }

  lemma SumCorrect(t: Ty, a: int, b: int, x: int, y: int)
    requires Size(t) >= 4 && x % Modulus(t) == a % Modulus(t) && y % Modulus(t) == b % Modulus(t)
    ensures BinResult(Add, t, x, y) == (a + b) % Modulus(t)
    ensures BinResult(Sub, t, x, y) == (a - b) % Modulus(t)
    ensures BinResult(Mul, t, x, y) == a * b % Modulus(t)
  {
    ModAdd(x, a, y, b, Modulus(t));
    ModMul(x, a, y, b, Modulus(t));
  }

  lemma DivResult(t: Ty, a: int, b: int, x: int, y: int)
    requires Size(t) >= 4 && InRange(t, a) && InRange(t, b) && b != 0
    requires x % Modulus(t) == a % Modulus(t) && y % Modulus(t) == b % Modulus(t)
    ensures BinResult(Div, t, x, y) == TruncDiv(a, b) % Modulus(t)
  { DivCorrect(t, a, b, x, y); }

  // ---------- Conversions and zero tests ----------

  /** Contents of x0 after the conversion code. */
  function CastResult(from: Ty, to: Ty, x: int): int {
    var code := CastCode(from, to);
    if to == TBool then Flag(Holds(NE, Compare(true, x, 0)))
    else if code == [] then x
    else if code[0].Sxt? then Extend(code[0].n, x)
    else if code[0].Uxt? then Low(code[0].n, x)
    else x
  }

  /** The emitted zero test answers the C question exactly when the register is faithful at zero. */
  lemma ZeroTestExact(t: Ty, v: int, x: int)
    requires InRange(t, v) && Rel(t, v, x)
    ensures Holds(EQ, Compare(true, x, 0)) <==> x == 0
    ensures (x == 0 <==> v == 0) <==> (Size(t) < 8 ==> x % TWO32 == 0 ==> x == 0)
  {}

  /** The conversion table is right for every pair of types and every value, save one pair:
      a negative signed char converted to unsigned short keeps its sign bits. */
  lemma CastExact(from: Ty, to: Ty, v: int, x: int)
    requires InRange(from, v) && Rel(from, v, x) && to != TBool
    ensures Rel(to, Conv(to, v), CastResult(from, to, x)) <==> !(from == I8 && to == U16 && v < 0)
  {
    match to {
      case I8 => NarrowCast(from, to, v, x);
      case U8 => NarrowCast(from, to, v, x);
      case I16 => NarrowCast(from, to, v, x);
      case U16 => if from != I8 { NarrowCast(from, to, v, x); }
      case I32 => WordCast(from, to, v, x);
      case U32 => WordCast(from, to, v, x);
      case I64 => WideCast(from, to, v, x);
      case U64 => WideCast(from, to, v, x);
    }
  }

  /** So the register holds the one value of the target type with the operand's bit pattern. */
  lemma CastMeans(from: Ty, to: Ty, v: int, w: int, x: int)
    requires InRange(from, v) && Rel(from, v, x) && to != TBool
    requires InRange(to, w) && w % Modulus(to) == v % Modulus(to)
    ensures Rel(to, w, CastResult(from, to, x)) <==> !(from == I8 && to == U16 && v < 0)
  {
    hide Rel, CastResult;
    ConvExact(to, v, w);
    CastExact(from, to, v, x);
  }

  /** Every related register has the value's low bits at each narrower width. */
  lemma LowBits(t: Ty, v: int, x: int)
    requires Rel(t, v, x)
    ensures x % TWO32 == v % TWO32 && x % 0x1_0000 == v % 0x1_0000 && x % 0x100 == v % 0x100
  {
    assert x % TWO32 == v % TWO32;
    Coarsen(x, v, TWO32);
  }

  lemma Coarsen(x: int, v: int, m: int)
    requires m == TWO32 && x % m == v % m
    ensures x % 0x1_0000 == v % 0x1_0000 && x % 0x100 == v % 0x100
  {
    ModNested(x, 0x1_0000, 0x1_0000);
    ModNested(v, 0x1_0000, 0x1_0000);
    ModNested(x, 0x100, 0x100_0000);
    ModNested(v, 0x100, 0x100_0000);
  }

  lemma ModNested(x: int, m: int, k: int)
    requires m > 0 && k > 0 && m * k > 0
    ensures x % (m * k) % m == x % m
  {
    var q, r := x / (m * k), x % (m * k);
    assert x == r + m * (k * q) by { assert m * (k * q) == (m * k) * q; }
    ModShift(r, k * q, m);
  }

  lemma NarrowCast(from: Ty, to: Ty, v: int, x: int)
    requires InRange(from, v) && Rel(from, v, x) && to != TBool && Size(to) < 4 && CastOk(from, to)
    ensures Rel(to, Conv(to, v), CastResult(from, to, x))
  {
    LowBits(from, v, x);
    if CastCode(from, to) == [] {
      NoCodeNeeded(from, to, v);
      ConvId(to, v);
    } else {
      NarrowInstr(from, to, v, x);
    }
  }

  lemma NoCodeNeeded(from: Ty, to: Ty, v: int)
    requires InRange(from, v) && to != TBool && CastOk(from, to) && CastCode(from, to) == [] && Size(to) < 4
    ensures InRange(to, v)
  {}

  lemma NarrowInstr(from: Ty, to: Ty, v: int, x: int)
    requires x % 0x1_0000 == v % 0x1_0000 && x % 0x100 == v % 0x100
    requires to != TBool && Size(to) < 4 && CastCode(from, to) != []
    ensures Rel(to, Conv(to, v), CastResult(from, to, x))
  {
    assert CastCode(from, to) == [if Unsigned(to) then Uxt(Size(to)) else Sxt(Size(to))];
    if !Unsigned(to) { SignedPattern(Conv(to, v)); }
  }

  /** Sign extension to 64 bits agrees with the value modulo 2^32. */
  lemma SignedPattern(w: int)
    requires -0x8000_0000 <= w < 0x8000_0000
    ensures w % TWO64 % TWO32 == w % TWO32 && 0 <= w % TWO64 < TWO64
  {}

  lemma WordCast(from: Ty, to: Ty, v: int, x: int)
    requires InRange(from, v) && Rel(from, v, x) && Size(to) == 4
    ensures Rel(to, Conv(to, v), CastResult(from, to, x))
  {
    LowBits(from, v, x);
    WrapMod(to, v);
    SignedPattern(Signed(x % TWO32, TWO32));
    ModShift(x % TWO32, -1, TWO32);
    WordCode(from, to);
  }

  lemma WordCode(from: Ty, to: Ty)
    requires Size(to) == 4
    ensures CastCode(from, to) in [[], [Sxt(4)], [Uxt(4)]]
  {}

  lemma WideCast(from: Ty, to: Ty, v: int, x: int)
    requires InRange(from, v) && Rel(from, v, x) && Size(to) == 8
    ensures Rel(to, Conv(to, v), CastResult(from, to, x))
  {
    WrapMod(to, v);
    if from != TBool && Size(from) < 8 {
      assert CastCode(from, to) == [if Unsigned(from) then Uxt(4) else Sxt(4)];
      if Unsigned(from) { ModSmall(v, TWO32); } else { ConvId(I32, v); }
    }
  }

  lemma CastCorrect(from: Ty, to: Ty, v: int, x: int, sh: Shape)
    requires InRange(from, v) && Rel(from, v, x) && CastOk(from, to)
    requires Size(from) < 8 ==> ShapeOk(sh, x)
    requires to == TBool ==> Size(from) == 8 || sh.zf
    ensures Rel(to, Conv(to, v), CastResult(from, to, x))
    ensures Size(to) < 8 ==> ShapeOk(CastShape(from, to, sh), CastResult(from, to, x))
  {
    hide CastResult, CastShape, CastCode, Conv, InRange;
    if to == TBool {
      ZeroTestExact(from, v, x);
      BoolCast(from, v, x, sh);
    } else {
      CastExact(from, to, v, x);
      if Size(to) < 8 { CastShapeOk(from, to, x, sh); }
    }
  }

  lemma BoolCast(from: Ty, v: int, x: int, sh: Shape)
    requires 0 <= x < TWO64 && (x == 0 <==> v == 0)
    ensures Rel(TBool, Conv(TBool, v), CastResult(from, TBool, x))
    ensures ShapeOk(CastShape(from, TBool, sh), CastResult(from, TBool, x))
  {}

  lemma CastShapeOk(from: Ty, to: Ty, x: int, sh: Shape)
    requires 0 <= x < TWO64 && to != TBool && Size(to) < 8 && (Size(from) < 8 ==> ShapeOk(sh, x))
    ensures ShapeOk(CastShape(from, to, sh), CastResult(from, to, x))
  {
    var code := CastCode(from, to);
    if code == [] {
    } else if code[0].Sxt? {
      ExtendShape(code[0].n, x);
    } else {
      LowShape(code[0].n, x);
    }
  }

  /** Sign extending any 32-bit value gives a sign extended register. */
  lemma ExtendedShape(w: int)
    requires -0x8000_0000 <= w < 0x8000_0000
    ensures ShapeOk(Shape(true, false, true), w % TWO64)
  {
    SignedPattern(w);
    Recover(I32, w);
  }

  lemma ExtendShape(n: nat, x: int)
    requires n == 1 || n == 2 || n == 4
    ensures ShapeOk(Shape(true, false, true), Extend(n, x))
  {
    match n {
      case 1 => ExtendedShape(Signed(x % 0x100, 0x100));
      case 2 => ExtendedShape(Signed(x % 0x1_0000, 0x1_0000));
      case _ => ExtendedShape(Signed(x % TWO32, TWO32));
    }
  }

  lemma LowShape(n: nat, x: int)
    requires n == 1 || n == 2 || n == 4
    ensures ShapeOk(if n == 4 then Shape(false, true, true) else FLAG, Low(n, x))
  {}

  /** Negation and complement act on all 64 bits; the low half is the 32-bit result. */
  lemma NegCorrect(t: Ty, v: int, x: int, sh: Shape)
    requires Size(t) >= 4 && Rel(t, v, x) && (Size(t) < 8 ==> ShapeOk(sh, x))
    ensures Rel(t, Wrap(t, -v), -x % TWO64)
    ensures Size(t) < 8 ==> ShapeOk(Shape(false, false, sh.zf), -x % TWO64)
  {
    hide Wrap;
    WrapMod(t, -v);
    ModAdd(0, 0, x, v, Modulus(t));
    Low32(-x);
    Low32(x);
    ModAdd(0, 0, -x, -x % TWO64, TWO32);
  }

  lemma Low32(x: int)
    ensures x % TWO64 % TWO32 == x % TWO32
  {}

  lemma NotCorrect(t: Ty, v: int, x: int, sh: Shape)
    requires Size(t) >= 4 && Rel(t, v, x) && (Size(t) < 8 ==> ShapeOk(sh, x))
    ensures Rel(t, Wrap(t, -v - 1), TWO64 - 1 - x)
    ensures Size(t) < 8 ==> ShapeOk(Shape(sh.sx, false, sh.sx), TWO64 - 1 - x)
  {
    hide Wrap, ShapeOk;
    WrapMod(t, -v - 1);
    ModAdd(-1, -1, x, v, Modulus(t));
    ModShift(-1 - x, if Size(t) == 8 then 1 else TWO32, Modulus(t));
    if Size(t) < 8 { NotShape(x, sh); }
  }

  lemma NotShape(x: int, sh: Shape)
    requires 0 <= x < TWO64 && ShapeOk(sh, x)
    ensures ShapeOk(Shape(sh.sx, false, sh.sx), TWO64 - 1 - x)
  {
    if sh.sx {
      var w := Signed(x % TWO32, TWO32);
      assert TWO64 - 1 - x == (-w - 1) % TWO64;
      ExtendedShape(-w - 1);
    }
  }
}
