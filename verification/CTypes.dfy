/** C integer types as the compiler lays them out on AArch64, value conversion, and the value of
    each operator. */
module CTypes {
  import opened Arith

  const TWO32: int := 0x1_0000_0000
  const TWO64: int := 0x1_0000_0000_0000_0000

  /** The integer types of the language, `_Bool` included. */
  datatype Ty = TBool | I8 | I16 | I32 | I64 | U8 | U16 | U32 | U64

  function Size(t: Ty): nat {
    match t
    case TBool => 1 case I8 => 1 case U8 => 1
    case I16 => 2 case U16 => 2
    case I32 => 4 case U32 => 4
    case I64 => 8 case U64 => 8
  }

  // `_Bool` carries no unsigned flag in the type table.
  predicate Unsigned(t: Ty) { t == U8 || t == U16 || t == U32 || t == U64 }

  /** Two to the number of bits of the type. */
  function Modulus(t: Ty): (m: int)
    ensures m > 0
  {
    match Size(t)
    case 1 => 0x100
    case 2 => 0x1_0000
    case 4 => TWO32
    case _ => TWO64
  }

  /** Two's complement reading of a bit pattern below m. */
  function Signed(u: int, m: int): int { if 2 * u >= m then u - m else u }

  function Wrap(t: Ty, v: int): int {
    if Unsigned(t) then v % Modulus(t) else Signed(v % Modulus(t), Modulus(t))
  }

  /** Conversion of a value to a type: section 6.3.1.2 (to _Bool) and 6.3.1.3 of ISO C11,
      with the usual modular choice for out-of-range signed results. */
  function Conv(t: Ty, v: int): int {
    if t == TBool then (if v == 0 then 0 else 1) else Wrap(t, v)
  }

  predicate InRange(t: Ty, v: int) {
    if t == TBool then 0 <= v <= 1
    else if Unsigned(t) then 0 <= v < Modulus(t)
    else -Modulus(t) <= 2 * v < Modulus(t)
  }

  lemma ConvInRange(t: Ty, v: int)
    ensures InRange(t, Conv(t, v))
  {}

  /** The sizes and ranges of the types, in numbers. */
  lemma Ranges(v: int)
    ensures Size(TBool) == Size(I8) == Size(U8) == 1 && Size(I16) == Size(U16) == 2
    ensures Size(I32) == Size(U32) == 4 && Size(I64) == Size(U64) == 8
    ensures InRange(TBool, v) <==> v == 0 || v == 1
    ensures InRange(I8, v) <==> -0x80 <= v <= 0x7F
    ensures InRange(U8, v) <==> 0 <= v <= 0xFF
    ensures InRange(I16, v) <==> -0x8000 <= v <= 0x7FFF
    ensures InRange(U16, v) <==> 0 <= v <= 0xFFFF
    ensures InRange(I32, v) <==> -0x8000_0000 <= v <= 0x7FFF_FFFF
    ensures InRange(U32, v) <==> 0 <= v <= 0xFFFF_FFFF
    ensures InRange(I64, v) <==> -0x8000_0000_0000_0000 <= v <= 0x7FFF_FFFF_FFFF_FFFF
    ensures InRange(U64, v) <==> 0 <= v <= 0xFFFF_FFFF_FFFF_FFFF
  {}

  /** Conversion to an integer type gives the one value of the type with the same bit pattern,
      conversion to _Bool whether the value is not 0. */
  lemma ConvExact(t: Ty, v: int, w: int)
    ensures t != TBool ==> (w == Conv(t, v) <==> InRange(t, w) && w % Modulus(t) == v % Modulus(t))
    ensures t == TBool ==> (w == Conv(t, v) <==> w == if v == 0 then 0 else 1)
  {
    hide Conv, InRange;
    ConvInRange(t, v);
    if t == TBool { BoolConv(v); } else { ConvMod(t, v, w); }
    if InRange(t, w) { ConvId(t, w); }
  }

  lemma BoolConv(v: int)
    ensures Conv(TBool, v) == if v == 0 then 0 else 1
  {}

  lemma ConvMod(t: Ty, v: int, w: int)
    requires t != TBool
    ensures Conv(t, v) % Modulus(t) == v % Modulus(t)
    ensures w % Modulus(t) == v % Modulus(t) ==> Conv(t, w) == Conv(t, v)
  {}

  lemma WrapInRange(t: Ty, v: int)
    requires t != TBool
    ensures InRange(t, Wrap(t, v))
  {}

  lemma ConvId(t: Ty, v: int)
    requires InRange(t, v)
    ensures Conv(t, v) == v
  {
    if t != TBool && !Unsigned(t) && v < 0 {
      assert v % Modulus(t) == v + Modulus(t);
    }
  }

  datatype Op = Add | Sub | Mul | Div | Mod | BitAnd | BitOr | BitXor | Shl | Shr | Eq | Ne | Lt | Le

  predicate IsCompare(op: Op) { op == Eq || op == Ne || op == Lt || op == Le }
  predicate IsShift(op: Op) { op == Shl || op == Shr }

  // ---------- Arithmetic on values ----------

  /** Division truncating toward zero. */
  function TruncDiv(a: int, b: int): int
    requires b != 0
  {
    if (a < 0) == (b < 0) then Abs(a) / Abs(b) else -(Abs(a) / Abs(b))
  }

  function Abs(a: int): nat { if a < 0 then -a else a }

  /** The remainder section 6.5.5 of ISO C11 asks for: smaller than the divisor and of the dividend's sign. */
  predicate RemainderOk(a: int, b: int, r: int) {
    && (if b > 0 then -b < r < b else b < r < -b)
    && (a >= 0 ==> r >= 0) && (a <= 0 ==> r <= 0)
  }

  /** Division is the one quotient that leaves such a remainder. */
  lemma TruncDivExact(a: int, b: int, q: int)
    requires b != 0
    ensures q == TruncDiv(a, b) <==> RemainderOk(a, b, a - b * q)
  {
    hide TruncDiv;
    TruncDivOk(a, b);
    if RemainderOk(a, b, a - b * q) { OneQuotient(a, b, TruncDiv(a, b), q); }
  }

  lemma TruncDivOk(a: int, b: int)
    requires b != 0
    ensures RemainderOk(a, b, a - b * TruncDiv(a, b))
  { SignedRemainder(a, b, Abs(a) / Abs(b), Abs(a) % Abs(b), TruncDiv(a, b)); }

  lemma SignedRemainder(a: int, b: int, x: int, y: int, q: int)
    requires b != 0 && Abs(a) == Abs(b) * x + y && 0 <= y < Abs(b)
    requires q == if (a < 0) == (b < 0) then x else -x
    ensures RemainderOk(a, b, a - b * q)
  { SignedProduct(b, x); }

  lemma OneQuotient(a: int, b: int, s: int, q: int)
    requires b != 0 && RemainderOk(a, b, a - b * s) && RemainderOk(a, b, a - b * q)
    ensures q == s
  {
    var m := if b > 0 then b else -b;
    SignedProduct(b, s);
    SignedProduct(b, q);
    Distribute(m, s, q);
    MultipleOutside(m, s - q);
  }

  lemma SignedProduct(b: int, x: int)
    ensures b * -x == -(b * x) && -b * x == -(b * x)
  {}

  function Pow2(n: nat): nat
    ensures Pow2(n) > 0
  { if n == 0 then 1 else 2 * Pow2(n - 1) }

  function BitOf(op: Op, x: int, y: int): int {
    match op
    case BitAnd => if x == 1 && y == 1 then 1 else 0
    case BitOr => if x == 1 || y == 1 then 1 else 0
    case _ => if x != y then 1 else 0
  }

  /** A bitwise operator on the low n bits of two patterns. */
  function Logic(op: Op, n: nat, a: int, b: int): (r: int)
    ensures 0 <= r < Pow2(n)
    decreases n
  {
    if n == 0 then 0 else BitOf(op, a % 2, b % 2) + 2 * Logic(op, n - 1, a / 2, b / 2)
  }

  /** Bit k of a pattern. */
  function Bit(x: int, k: nat): int { x / Pow2(k) % 2 }

  /** Each bit of AND, OR and exclusive OR comes from the same bits of the operands. */
  lemma {:induction false} LogicBits(op: Op, n: nat, a: int, b: int, k: nat)
    requires k < n
    ensures op == BitAnd ==> (Bit(Logic(op, n, a, b), k) == 1 <==> Bit(a, k) == 1 && Bit(b, k) == 1)
    ensures op == BitOr ==> (Bit(Logic(op, n, a, b), k) == 1 <==> Bit(a, k) == 1 || Bit(b, k) == 1)
    ensures op == BitXor ==> (Bit(Logic(op, n, a, b), k) == 1 <==> Bit(a, k) != Bit(b, k))
    decreases n
  {
    var r := Logic(op, n, a, b);
    if k > 0 {
      LogicBits(op, n - 1, a / 2, b / 2, k - 1);
      HigherBit(r, k);
      HigherBit(a, k);
      HigherBit(b, k);
    }
  }

  lemma HigherBit(x: int, k: nat)
    requires k > 0
    ensures Bit(x, k) == Bit(x / 2, k - 1)
  {
    var p := Pow2(k - 1);
    var q, r := x / 2 / p, x / 2 % p;
    assert x == 2 * (p * q + r) + x % 2 == (2 * p) * q + (2 * r + x % 2) by { assert 2 * (p * q) == (2 * p) * q; }
    ModUnique(x, 2 * p, q, 2 * r + x % 2);
  }

  /** The low n bits of a number, negative ones in two's complement, are those of its remainder. */
  lemma {:induction false} BitLow(a: int, n: nat, k: nat)
    requires k < n
    ensures Bit(a % Pow2(n), k) == Bit(a, k)
    decreases k
  {
    var p := Pow2(n - 1);
    var q, r := a / 2 / p, a / 2 % p;
    assert a == 2 * (p * q + r) + a % 2 == (2 * p) * q + (2 * r + a % 2) by { assert 2 * (p * q) == (2 * p) * q; }
    ModUnique(a, 2 * p, q, 2 * r + a % 2);
    if k > 0 {
      BitLow(a / 2, n - 1, k - 1);
      HigherBit(a, k);
      HigherBit(a % Pow2(n), k);
    }
  }

  function Flag(b: bool): int { if b then 1 else 0 }

  /** The value of a binary operator whose operands already have type t
      (for shifts only the left one does). None where C leaves the result undefined
      for every implementation: division by zero and shift counts outside the width. */
  function OpValue(op: Op, t: Ty, a: int, b: int): Option<int> {
    match op
    case Add => Some(Wrap(t, a + b))
    case Sub => Some(Wrap(t, a - b))
    case Mul => Some(Wrap(t, a * b))
    case Div => if b == 0 then None else Some(Wrap(t, TruncDiv(a, b)))
    case Mod => if b == 0 then None else Some(Wrap(t, a - b * TruncDiv(a, b)))
    case BitAnd => Some(Wrap(t, Logic(op, 8 * Size(t), a % Modulus(t), b % Modulus(t))))
    case BitOr => Some(Wrap(t, Logic(op, 8 * Size(t), a % Modulus(t), b % Modulus(t))))
    case BitXor => Some(Wrap(t, Logic(op, 8 * Size(t), a % Modulus(t), b % Modulus(t))))
    case Shl => if 0 <= b < 8 * Size(t) then Some(Wrap(t, a * Pow2(b))) else None
    case Shr => if 0 <= b < 8 * Size(t) then Some(Wrap(t, a / Pow2(b))) else None
    case Eq => Some(Flag(a == b))
    case Ne => Some(Flag(a != b))
    case Lt => Some(Flag(a < b))
    case Le => Some(Flag(a <= b))
  }
}
