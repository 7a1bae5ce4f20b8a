/** The part of AArch64 the expression code generator targets: a byte-addressed memory,
    three working registers, frame and stack pointers, condition flags, and flat code with labels. */
module Machine {
  import opened CTypes
  import opened Arith

  type Mem = map<int, Byte>

  function Get(m: Mem, a: int): Byte { if a in m then m[a] else 0 }

  /** Little-endian read of n bytes. */
  function LoadN(m: Mem, a: int, n: nat): nat
    decreases n
  {
    if n == 0 then 0 else Get(m, a) + 256 * LoadN(m, a + 1, n - 1)
  }

  /** Little-endian write of the low n bytes of v. */
  function StoreN(m: Mem, a: int, n: nat, v: int): Mem
    decreases n
  {
    if n == 0 then m else StoreN(m[a := v % 256], a + 1, n - 1, v / 256)
  }

  function Pow256(n: nat): nat
    ensures Pow256(n) > 0
  { if n == 0 then 1 else 256 * Pow256(n - 1) }

  /** A store changes exactly its own bytes. */
  lemma {:induction false} StoreFrame(m: Mem, a: int, n: nat, v: int, b: int)
    requires b < a || a + n <= b
    ensures Get(StoreN(m, a, n, v), b) == Get(m, b)
    decreases n
  {
    if n > 0 { StoreFrame(m[a := v % 256], a + 1, n - 1, v / 256, b); }
  }

  /** A load sees only its own bytes. */
  lemma {:induction false} LoadSame(m: Mem, m': Mem, a: int, n: nat)
    requires forall b :: a <= b < a + n ==> Get(m', b) == Get(m, b)
    ensures LoadN(m', a, n) == LoadN(m, a, n)
    decreases n
  {
    if n > 0 { LoadSame(m, m', a + 1, n - 1); }
  }

  /** A load from other bytes is not affected by a store. */
  lemma LoadElsewhere(m: Mem, a: int, n: nat, v: int, b: int, k: nat)
    requires b + k <= a || a + n <= b
    ensures LoadN(StoreN(m, a, n, v), b, k) == LoadN(m, b, k)
  {
    hide StoreN, LoadN;
    var m' := StoreN(m, a, n, v);
    forall c | b <= c < b + k ensures Get(m', c) == Get(m, c) { StoreFrame(m, a, n, v, c); }
    LoadSame(m, m', b, k);
  }

  /** Reading back what was stored gives the value modulo the width. */
  lemma {:induction false} LoadStore(m: Mem, a: int, n: nat, v: int)
    ensures LoadN(StoreN(m, a, n, v), a, n) == v % Pow256(n)
    decreases n
  {
    if n > 0 {
      var m' := m[a := v % 256];
      LoadStore(m', a + 1, n - 1, v / 256);
      StoreFrame(m', a + 1, n - 1, v / 256, a);
      ModDigits(v, Pow256(n - 1));
    }
  }

  lemma ModDigits(v: int, p: int)
    requires p > 0
    ensures v % 256 + 256 * (v / 256 % p) == v % (256 * p)
  {
    var q, r := v / 256 / p, v / 256 % p;
    assert v == 256 * (q * p + r) + v % 256;
    assert v == (256 * p) * q + (256 * r + v % 256) by { assert 256 * (q * p) == (256 * p) * q; }
    ModUnique(v, 256 * p, q, 256 * r + v % 256);
  }

  lemma Pow256Values()
    ensures Pow256(1) == 0x100 && Pow256(2) == 0x1_0000 && Pow256(4) == TWO32 && Pow256(8) == TWO64
  {
    assert Pow256(3) == 0x100_0000;
    assert Pow256(4) == TWO32;
    assert Pow256(5) == 256 * TWO32;
    assert Pow256(6) == 0x1_0000 * TWO32;
    assert Pow256(7) == 0x100_0000 * TWO32;
  }

  // ---------- Instructions ----------

  datatype LabelKind = LTrue | LFalse | LElse | LEnd
  datatype Label = Label(kind: LabelKind, id: nat)

  datatype CondCode = EQ | NE | LO | LT | LS | LE
  datatype AluOp = AAdd | ASub | AMul | AUdiv | ASdiv | AAnd | AOrr | AEor | ALsl | ALsr | AAsr

  datatype Instr =
    | MovImm(imm: int)                 // mov x0, #imm  or  ldr x0, =imm
    | Movz(low: int)                   // movz x0, #low
    | Movk(high: int)                  // movk x0, #high, lsl #16
    | AddFp(off: int)                  // add x0, x29, #off
    | SubFp(off: int)                  // sub x0, x29, #off
    | AddFpX0                          // add x0, x29, x0
    | SubFpX0                          // sub x0, x29, x0
    | Ldr(n: nat, sx: bool)            // ldr/ldrs into x0 from [x0]
    | Str(n: nat)                      // str from x0 to [x1]
    | PushX0                           // str x0, [sp, #-16]!
    | PopX1                            // ldr x1, [sp], #16
    | NegX0                            // neg x0, x0
    | MvnX0                            // mvn x0, x0
    | Sxt(n: nat)                      // sxtb / sxth / sxtw x0, w0
    | Uxt(n: nat)                      // uxtb / uxth w0, w0  or  mov w0, w0
    | CmpZero                          // cmp x0, #0
    | CmpX1(wide: bool)                // cmp x0, x1  or  cmp w0, w1
    | Cset(cc: CondCode)               // cset x0, cc
    | Alu(op: AluOp, wide: bool)       // op x0, x0, x1
    | AluX2(op: AluOp, wide: bool)     // op x2, x0, x1
    | Msub(wide: bool)                 // msub x0, x2, x1, x0
    | BCond(cc: CondCode, target: Label)
    | B(target: Label)
    | Lab(name: Label)

  datatype Flags = Flags(n: bool, z: bool, c: bool, v: bool)

  datatype State = State(pc: nat, x0: int, x1: int, x2: int, fp: int, sp: int, flags: Flags, mem: Mem)

  function RegMod(wide: bool): int { if wide then TWO64 else TWO32 }
  function RegBits(wide: bool): nat { if wide then 64 else 32 }

  /** A register operation on the low 32 or all 64 bits; a 32-bit result is zero extended. */
  function AluValue(op: AluOp, wide: bool, a: int, b: int): int {
    var m := RegMod(wide);
    var x, y := a % m, b % m;
    match op
    case AAdd => (x + y) % m
    case ASub => (x - y) % m
    case AMul => (x * y) % m
    case AUdiv => if y == 0 then 0 else x / y
    case ASdiv => if y == 0 then 0 else TruncDiv(Signed(x, m), Signed(y, m)) % m
    case AAnd => Logic(BitAnd, RegBits(wide), x, y)
    case AOrr => Logic(BitOr, RegBits(wide), x, y)
    case AEor => Logic(BitXor, RegBits(wide), x, y)
    case ALsl => x * Pow2(y % RegBits(wide)) % m
    case ALsr => x / Pow2(y % RegBits(wide))
    case AAsr => Signed(x, m) / Pow2(y % RegBits(wide)) % m
  }

  /** NZCV after comparing the low bits of a and b. */
  function Compare(wide: bool, a: int, b: int): Flags {
    var m := RegMod(wide);
    var x, y := a % m, b % m;
    var d := (x - y) % m;
    var exact := Signed(x, m) - Signed(y, m);
    Flags(2 * d >= m, d == 0, x >= y, Signed(d, m) != exact)
  }

  predicate Holds(cc: CondCode, f: Flags) {
    match cc
    case EQ => f.z
    case NE => !f.z
    case LO => !f.c
    case LT => f.n != f.v
    case LS => !f.c || f.z
    case LE => f.z || f.n != f.v
  }

  /** Position of the first occurrence of a label, or the end of the code. */
  function FindLabel(prog: seq<Instr>, l: Label): nat {
    if prog == [] then 0
    else if prog[0] == Lab(l) then 0
    else 1 + FindLabel(prog[1..], l)
  }

  function Extend(n: nat, x: int): int {
    match n
    case 1 => Signed(x % 0x100, 0x100) % TWO64
    case 2 => Signed(x % 0x1_0000, 0x1_0000) % TWO64
    case _ => Signed(x % TWO32, TWO32) % TWO64
  }

  function Low(n: nat, x: int): int {
    match n case 1 => x % 0x100 case 2 => x % 0x1_0000 case _ => x % TWO32
  }

  function Step(prog: seq<Instr>, s: State): State {
    if s.pc >= |prog| then s
    else
      var t := s.(pc := s.pc + 1);
      match prog[s.pc]
      case MovImm(v) => t.(x0 := v % TWO64)
      case Movz(v) => t.(x0 := v)
      case Movk(v) => t.(x0 := s.x0 / TWO32 * TWO32 + v * 0x1_0000 + s.x0 % 0x1_0000)
      case AddFp(k) => t.(x0 := (s.fp + k) % TWO64)
      case SubFp(k) => t.(x0 := (s.fp - k) % TWO64)
      case AddFpX0 => t.(x0 := (s.fp + s.x0) % TWO64)
      case SubFpX0 => t.(x0 := (s.fp - s.x0) % TWO64)
      case Ldr(n, sx) => t.(x0 := if sx then Extend(n, LoadN(s.mem, s.x0, n)) else LoadN(s.mem, s.x0, n))
      case Str(n) => t.(mem := StoreN(s.mem, s.x1, n, s.x0))
      case PushX0 => var sp := (s.sp - 16) % TWO64; t.(sp := sp, mem := StoreN(s.mem, sp, 8, s.x0))
      case PopX1 => t.(sp := (s.sp + 16) % TWO64, x1 := LoadN(s.mem, s.sp, 8))
      case NegX0 => t.(x0 := -s.x0 % TWO64)
      case MvnX0 => t.(x0 := TWO64 - 1 - s.x0)
      case Sxt(n) => t.(x0 := Extend(n, s.x0))
      case Uxt(n) => t.(x0 := Low(n, s.x0))
      case CmpZero => t.(flags := Compare(true, s.x0, 0))
      case CmpX1(w) => t.(flags := Compare(w, s.x0, s.x1))
      case Cset(cc) => t.(x0 := Flag(Holds(cc, s.flags)))
      case Alu(op, w) => t.(x0 := AluValue(op, w, s.x0, s.x1))
      case AluX2(op, w) => t.(x2 := AluValue(op, w, s.x0, s.x1))
      case Msub(w) => t.(x0 := (s.x0 - s.x2 * s.x1) % RegMod(w))
      case BCond(cc, l) => if Holds(cc, s.flags) then s.(pc := FindLabel(prog, l)) else t
      case B(l) => s.(pc := FindLabel(prog, l))
      case Lab(_) => t
  }

  function Run(prog: seq<Instr>, s: State, n: nat): State
    decreases n
  {
    if n == 0 then s else Step(prog, Run(prog, s, n - 1))
  }

  ghost predicate Reach(prog: seq<Instr>, s: State, t: State) {
    exists n: nat :: Run(prog, s, n) == t
  }

  lemma ReachRefl(prog: seq<Instr>, s: State)
    ensures Reach(prog, s, s)
  { assert Run(prog, s, 0) == s; }

  lemma ReachStep(prog: seq<Instr>, s: State, t: State)
    requires Reach(prog, s, t)
    ensures Reach(prog, s, Step(prog, t))
  {
    var n: nat :| Run(prog, s, n) == t;
    assert Run(prog, s, n + 1) == Step(prog, t);
  }

  lemma {:induction false} RunAdd(prog: seq<Instr>, s: State, n: nat, k: nat)
    ensures Run(prog, Run(prog, s, n), k) == Run(prog, s, n + k)
  {
    hide Step;
    if k > 0 { RunAdd(prog, s, n, k - 1); }
  }

  lemma ReachTrans(prog: seq<Instr>, s: State, t: State, u: State)
    requires Reach(prog, s, t) && Reach(prog, t, u)
    ensures Reach(prog, s, u)
  {
    var n: nat :| Run(prog, s, n) == t;
    var k: nat :| Run(prog, t, k) == u;
    RunAdd(prog, s, n, k);
  }

  // ---------- Code placement and labels ----------

  ghost predicate CodeAt(prog: seq<Instr>, k: nat, code: seq<Instr>) {
    k + |code| <= |prog| && prog[k..k + |code|] == code
  }

  lemma CodeAtParts(prog: seq<Instr>, k: nat, a: seq<Instr>, b: seq<Instr>)
    requires CodeAt(prog, k, a + b)
    ensures CodeAt(prog, k, a) && CodeAt(prog, k + |a|, b)
  {
    var w := prog[k..k + |a| + |b|];
    assert prog[k..k + |a|] == w[..|a|] == a;
    assert prog[k + |a|..k + |a| + |b|] == w[|a|..] == b;
  }

  lemma CodeAtIndex(prog: seq<Instr>, k: nat, code: seq<Instr>, i: nat)
    requires CodeAt(prog, k, code) && i < |code|
    ensures k + i < |prog| && prog[k + i] == code[i]
  {
    assert prog[k..k + |code|][i] == prog[k + i];
  }

  /** No label is defined twice. */
  ghost predicate UniqueLabels(prog: seq<Instr>) {
    forall i, j :: 0 <= i < j < |prog| && prog[i].Lab? && prog[j].Lab? ==> prog[i] != prog[j]
  }

  lemma {:induction false} FindUnique(prog: seq<Instr>, l: Label, i: nat)
    requires UniqueLabels(prog) && i < |prog| && prog[i] == Lab(l)
    ensures FindLabel(prog, l) == i
  {
    if i > 0 {
      assert prog[0] != Lab(l);
      var rest := prog[1..];
      assert rest[i - 1] == prog[i];
      assert UniqueLabels(rest) by {
        forall a, b | 0 <= a < b < |rest| && rest[a].Lab? && rest[b].Lab? ensures rest[a] != rest[b] {
          assert rest[a] == prog[a + 1] && rest[b] == prog[b + 1];
        }
      }
      FindUnique(rest, l, i - 1);
    }
  }
}
