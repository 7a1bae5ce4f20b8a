/** The exact register contents the code of a tree leaves, and when its zero tests and conversions are
    right. */
module CodegenReg {
  import opened CTypes
  import opened Arith
  import opened CAst
  import opened Machine
  import opened Codegen
  import opened CodegenValues

  /** A local as the load of its type brings it into the register. */
  function LoadedReg(t: Ty, v: int): int {
    if Size(t) < 8 && !Unsigned(t) then Extend(Size(t), v % Modulus(t)) else v % Modulus(t)
  }

  /** All 64 bits of x0 after the code of a tree. */
  function Reg(e: Node, env: Env): int
    decreases e
  {
    match e
    case Num(v, _) => v % TWO64
    case Var(v, t) => if v < |env| then LoadedReg(t, env[v]) else 0
    case Assign(_, rhs, _) => Reg(rhs, env)
    case Cast(a, t) => CastResult(TyOf(a), t, Reg(a, env))
    case Neg(a, _) => -Reg(a, env) % TWO64
    case BitNot(a, _) => TWO64 - 1 - Reg(a, env)
    case Bin(op, l, r, _) =>
      (match Eval(r, env) case None => 0 case Some(b) => BinResult(op, TyOf(l), Reg(l, b.env), Reg(r, env)))
    case Cond(c, a, b, _) =>
      (match Eval(c, env) case None => 0 case Some(o) => if o.val != 0 then Reg(a, o.env) else Reg(b, o.env))
    case Comma(l, r) =>
      (match Eval(l, env) case None => 0 case Some(o) => Reg(r, o.env))
    case _ =>  // 0 or 1
      (match Eval(e, env) case None => 0 case Some(o) => o.val)
  }

  /** The register is zero if the value is: what the 64-bit zero test relies on. */
  predicate Faithful(a: Node, env: Env) { Eval(a, env).Some? && Eval(a, env).value.val == 0 ==> Reg(a, env) == 0 }

  /** Every zero test met in the evaluation sees a faithful register, and no negative signed char is
      converted to unsigned short. */
  predicate Sound(e: Node, env: Env)
    decreases e
  {
    match e
    case Num(_, _) => true
    case Var(_, _) => true
    case Assign(_, rhs, _) => Sound(rhs, env)
    case Cast(a, t) =>
      Sound(a, env) && (t == TBool ==> Faithful(a, env))
      && (TyOf(a) == I8 && t == U16 && Eval(a, env).Some? ==> Eval(a, env).value.val >= 0)
    case Neg(a, _) => Sound(a, env)
    case BitNot(a, _) => Sound(a, env)
    case Not(a) => Sound(a, env) && Faithful(a, env)
    case Bin(_, l, r, _) => Sound(r, env) && (match Eval(r, env) case None => true case Some(b) => Sound(l, b.env))
    case LogAnd(l, r) =>
      Sound(l, env) && Faithful(l, env)
      && (match Eval(l, env) case None => true case Some(a) => a.val == 0 || (Sound(r, a.env) && Faithful(r, a.env)))
    case LogOr(l, r) =>
      Sound(l, env) && Faithful(l, env)
      && (match Eval(l, env) case None => true case Some(a) => a.val != 0 || (Sound(r, a.env) && Faithful(r, a.env)))
    case Cond(c, a, b, _) =>
      Sound(c, env) && Faithful(c, env)
      && (match Eval(c, env) case None => true case Some(o) => if o.val != 0 then Sound(a, o.env) else Sound(b, o.env))
    case Comma(l, r) => Sound(l, env) && (match Eval(l, env) case None => true case Some(o) => Sound(r, o.env))
  }

  /** The evaluation of a well-typed tree that C defines. */
  predicate Defined(e: Node, vt: Vars, env: Env) { WellTyped(e, vt) && EnvOk(vt, env) && Eval(e, env).Some? }

  /** The register holds the C value. */
  lemma {:induction false} RegHolds(e: Node, vt: Vars, env: Env)
    requires Defined(e, vt, env) && Sound(e, env)
    ensures Rel(TyOf(e), Eval(e, env).value.val, Reg(e, env))
    decreases e
  {
    hide Rel, OpValue, Wrap, BinResult, CastResult, InRange, LoadedReg, Conv;
    match e
    case Num(v, t) => NumRel(t, v);
    case Var(v, t) => LoadedRel(t, env[v]);
    case Assign(_, rhs, _) => RegHolds(rhs, vt, env);
    case Cast(a, t) =>
      RegHolds(a, vt, env);
      EvalInRange(a, vt, env);
      CastHolds(TyOf(a), t, Eval(a, env).value.val, Reg(a, env));
    case Neg(a, t) =>
      RegHolds(a, vt, env);
      NegCorrect(t, Eval(a, env).value.val, Reg(a, env), ANY);
    case BitNot(a, t) =>
      RegHolds(a, vt, env);
      NotCorrect(t, Eval(a, env).value.val, Reg(a, env), ANY);
    case Not(a) => FlagRel(Eval(a, env).value.val == 0);
    case Bin(op, l, r, t) =>
      RegHolds(r, vt, env);
      EvalInRange(r, vt, env);
      var b := Eval(r, env).value;
      RegHolds(l, vt, b.env);
      EvalInRange(l, vt, b.env);
      OpCorrect(op, TyOf(l), TyOf(r), Eval(l, b.env).value.val, b.val, Reg(l, b.env), Reg(r, env), Eval(e, env).value.val);
    case LogAnd(_, _) => FlagRel(Eval(e, env).value.val != 0);
    case LogOr(_, _) => FlagRel(Eval(e, env).value.val != 0);
    case Cond(c, a, b, _) =>
      EvalInRange(c, vt, env);
      var o := Eval(c, env).value;
      if o.val != 0 { RegHolds(a, vt, o.env); } else { RegHolds(b, vt, o.env); }
    case Comma(l, r) =>
      EvalInRange(l, vt, env);
      RegHolds(r, vt, Eval(l, env).value.env);
  }

  lemma NumRel(t: Ty, v: int)
    requires Size(t) >= 4 && InRange(t, v)
    ensures Rel(t, v, v % TWO64)
    ensures Size(t) < 8 ==> ShapeOk(if Unsigned(t) then Shape(false, true, true) else Shape(true, false, true), v % TWO64)
  {
    Low32(v);
    if Size(t) == 4 && !Unsigned(t) { ExtendedShape(v); }
  }

  /** A loaded local is held in the register in its type's shape. */
  lemma LoadedRel(t: Ty, v: int)
    requires InRange(t, v)
    ensures Rel(t, v, LoadedReg(t, v))
    ensures Size(t) < 8 ==> ShapeOk(if Unsigned(t) then Shape(false, true, true) else Shape(true, false, true), LoadedReg(t, v))
  {
    var u := v % Modulus(t);
    if t != TBool {
      Recover(t, v);
      if Size(t) < 8 && !Unsigned(t) {
        ModSmall(u, Modulus(t));
        assert Extend(Size(t), u) == v % TWO64;
        SignedPattern(v);
        ExtendedShape(v);
      }
    }
  }

  lemma FlagRel(b: bool)
    ensures Rel(I32, Flag(b), Flag(b)) && ShapeOk(FLAG, Flag(b))
  {}

  lemma CastHolds(from: Ty, to: Ty, v: int, x: int)
    requires InRange(from, v) && Rel(from, v, x) && (to == TBool ==> v == 0 ==> x == 0) && !(from == I8 && to == U16 && v < 0)
    ensures Rel(to, Conv(to, v), CastResult(from, to, x))
  {
    hide CastResult, Conv;
    if to == TBool { BoolExact(from, v, x); } else { CastExact(from, to, v, x); }
  }

  /** Conversion to _Bool is right exactly on a faithful register. */
  lemma BoolExact(from: Ty, v: int, x: int)
    requires InRange(from, v) && Rel(from, v, x)
    ensures Rel(TBool, Conv(TBool, v), CastResult(from, TBool, x)) <==> (v == 0 ==> x == 0)
  { ZeroTestExact(from, v, x); }

  /** Trees whose zero tests all have operands of the right shape are sound whatever the locals hold. */
  lemma {:induction false} CompilableSound(e: Node, vt: Vars, env: Env)
    requires Defined(e, vt, env) && Compilable(e)
    ensures Sound(e, env)
    ensures Size(TyOf(e)) < 8 ==> ShapeOk(ShapeOf(e), Reg(e, env))
    decreases e, 1
  {
    hide Rel, OpValue, Wrap, BinResult, CastResult, InRange, LoadedReg, Conv, ShapeOk, CastShape;
    match e
    case Num(v, t) => NumRel(t, v);
    case Var(v, t) => LoadedRel(t, env[v]);
    case Assign(_, rhs, _) => CompilableSound(rhs, vt, env);
    case Cast(a, t) =>
      var v, x := TestedSound(a, vt, env);
      CastCorrect(TyOf(a), t, v, x, ShapeOf(a));
    case Neg(a, t) =>
      var v, x := TestedSound(a, vt, env);
      NegCorrect(t, v, x, ShapeOf(a));
    case BitNot(a, t) =>
      var v, x := TestedSound(a, vt, env);
      NotCorrect(t, v, x, ShapeOf(a));
    case Not(a) =>
      var v, x := TestedSound(a, vt, env);
      FlagRel(v == 0);
    case Bin(op, l, r, t) =>
      var b, y := TestedSound(r, vt, env);
      var a, x := TestedSound(l, vt, Eval(r, env).value.env);
      OpCorrect(op, TyOf(l), TyOf(r), a, b, x, y, Eval(e, env).value.val);
    case LogAnd(l, r) =>
      var a, x := TestedSound(l, vt, env);
      if a != 0 { var b, y := TestedSound(r, vt, Eval(l, env).value.env); }
      FlagRel(Eval(e, env).value.val != 0);
    case LogOr(l, r) =>
      var a, x := TestedSound(l, vt, env);
      if a == 0 { var b, y := TestedSound(r, vt, Eval(l, env).value.env); }
      FlagRel(Eval(e, env).value.val != 0);
    case Cond(c, a, b, _) =>
      var o, x := TestedSound(c, vt, env);
      var env' := Eval(c, env).value.env;
      if o != 0 { CompilableSound(a, vt, env'); } else { CompilableSound(b, vt, env'); }
      ShapeMeet(ShapeOf(a), ShapeOf(b), Reg(e, env));
    case Comma(l, r) =>
      var a, x := TestedSound(l, vt, env);
      CompilableSound(r, vt, Eval(l, env).value.env);
  }

  lemma ShapeMeet(p: Shape, q: Shape, x: int)
    ensures ShapeOk(p, x) || ShapeOk(q, x) ==> ShapeOk(Shape(p.sx && q.sx, p.zx && q.zx, p.zf && q.zf), x)
  {}

  /** An operand: sound, in range, related to its register, and faithful if its shape says so. */
  lemma TestedSound(a: Node, vt: Vars, env: Env) returns (v: int, x: int)
    requires Defined(a, vt, env) && Compilable(a)
    ensures Sound(a, env) && v == Eval(a, env).value.val && x == Reg(a, env) && EnvOk(vt, Eval(a, env).value.env)
    ensures InRange(TyOf(a), v) && Rel(TyOf(a), v, x) && (Size(TyOf(a)) < 8 ==> ShapeOk(ShapeOf(a), x))
    ensures TestOk(a) ==> Faithful(a, env)
    decreases a, 2
  {
    hide Eval, Reg, Compilable, WellTyped, Sound, InRange;
    CompilableSound(a, vt, env);
    RegHolds(a, vt, env);
    EvalInRange(a, vt, env);
    v, x := Eval(a, env).value.val, Reg(a, env);
  }

  // ---------- Exactness ----------

  /** The zero test of an operand answers the C question exactly on a faithful register. This is what
      &&, ||, ?: and ! test. */
  lemma TestExact(a: Node, vt: Vars, env: Env)
    requires Defined(a, vt, env) && Sound(a, env)
    ensures (Holds(EQ, Compare(true, Reg(a, env), 0)) <==> Eval(a, env).value.val == 0) <==> Faithful(a, env)
    ensures Holds(NE, Compare(true, Reg(a, env), 0)) <==> !Holds(EQ, Compare(true, Reg(a, env), 0))
  {
    hide Eval, Reg, WellTyped, Sound;
    RegHolds(a, vt, env);
    EvalInRange(a, vt, env);
    ZeroTestExact(TyOf(a), Eval(a, env).value.val, Reg(a, env));
  }

  /** A negation is faithful exactly when its operand is. */
  lemma NegFaithful(a: Node, vt: Vars, env: Env, t: Ty)
    requires Defined(Neg(a, t), vt, env) && Sound(a, env)
    ensures Faithful(Neg(a, t), env) <==> Faithful(a, env)
  {
    hide Sound, Rel, InRange;
    RegHolds(a, vt, env);
    EvalInRange(a, vt, env);
    NegZero(t, Eval(a, env).value.val, Reg(a, env));
  }

  lemma NegZero(t: Ty, v: int, x: int)
    requires Size(t) >= 4 && InRange(t, v) && Rel(t, v, x)
    ensures Wrap(t, -v) == 0 <==> v == 0
    ensures -x % TWO64 == 0 <==> x == 0
  {}

  /** A complement of a 4-byte operand is faithful exactly unless the operand is all ones and its
      register is not. */
  lemma ComplementFaithful(a: Node, vt: Vars, env: Env, t: Ty)
    requires Defined(BitNot(a, t), vt, env) && Sound(a, env) && Size(t) == 4
    ensures Faithful(BitNot(a, t), env) <==> (Eval(a, env).value.val % TWO32 == TWO32 - 1 ==> Reg(a, env) == TWO64 - 1)
  {
    hide Sound, Rel, Eval, Reg, Wrap, InRange, WellTyped;
    ComplementParts(a, vt, env, t);
    EvalInRange(a, vt, env);
    ComplementZero(t, Eval(a, env).value.val);
  }

  lemma ComplementParts(a: Node, vt: Vars, env: Env, t: Ty)
    requires Defined(BitNot(a, t), vt, env)
    ensures Defined(a, vt, env) && TyOf(a) == t && Reg(BitNot(a, t), env) == TWO64 - 1 - Reg(a, env)
    ensures Eval(BitNot(a, t), env).value.val == Wrap(t, -Eval(a, env).value.val - 1)
  { hide Wrap, EnvOk; }

  lemma ComplementZero(t: Ty, v: int)
    requires Size(t) == 4 && InRange(t, v)
    ensures Wrap(t, -v - 1) == 0 <==> v % TWO32 == TWO32 - 1
  {
    WrapMod(t, -v - 1);
    if v % TWO32 == TWO32 - 1 { ModUnique(-v - 1, TWO32, -1 - v / TWO32, 0); }
  }

  /** The complement of a negated int local may be tested whatever its value. */
  lemma NegatedComplement(b: int)
    requires InRange(I32, b)
    ensures Sound(Not(BitNot(Neg(Var(0, I32), I32), I32)), [b])
  {
    hide Wrap, Reg, InRange, Eval;
    var n := Neg(Var(0, I32), I32);
    NegatedParts(b);
    ComplementFaithful(n, [I32], [b], I32);
    if Wrap(I32, -b) % TWO32 == TWO32 - 1 { OnlyOne(b); }
  }

  lemma NegatedParts(b: int)
    requires InRange(I32, b)
    ensures var n := Neg(Var(0, I32), I32);
            EnvOk([I32], [b]) && Eval(n, [b]) == Some(Outcome(Wrap(I32, -b), [b])) && Eval(BitNot(n, I32), [b]).Some?
            && (b == 1 ==> Reg(n, [b]) == TWO64 - 1)
  {
    hide Wrap, LoadedReg;
    LoadedOne();
    assert Reg(Var(0, I32), [b]) == LoadedReg(I32, b);
  }

  lemma LoadedOne()
    ensures LoadedReg(I32, 1) == 1
  {}

  lemma OnlyOne(b: int)
    requires InRange(I32, b) && Wrap(I32, -b) % TWO32 == TWO32 - 1
    ensures b == 1
  { WrapMod(I32, -b); }

  /** By shape: the complement of a sign extended operand may always be tested, that of a zero extended one
      (any arithmetic result is) exactly when the operand is not all ones. */
  lemma ComplementByShape(a: Node, vt: Vars, env: Env, t: Ty)
    requires Defined(BitNot(a, t), vt, env) && Compilable(a) && Size(t) == 4
    ensures ShapeOf(a).sx ==> Sound(Not(BitNot(a, t)), env)
    ensures ShapeOf(a).zx ==> (Sound(Not(BitNot(a, t)), env) <==> Eval(a, env).value.val % TWO32 != TWO32 - 1)
  {
    hide Eval, Reg, ShapeOf, Rel, Faithful, Compilable;
    assert Eval(a, env).Some? && WellTyped(a, vt) && TyOf(a) == t by { assert Eval(BitNot(a, t), env).Some?; OperandDefined(a, t, env); }
    var v, x := TestedSound(a, vt, env);
    ComplementFaithful(a, vt, env, t);
    AllOnes(t, v, x, ShapeOf(a));
  }

  lemma OperandDefined(a: Node, t: Ty, env: Env)
    requires Eval(BitNot(a, t), env).Some?
    ensures Eval(a, env).Some?
  {}

  lemma AllOnes(t: Ty, v: int, x: int, sh: Shape)
    requires Size(t) == 4 && Rel(t, v, x) && ShapeOk(sh, x)
    ensures v % TWO32 == TWO32 - 1 && sh.sx ==> x == TWO64 - 1
    ensures sh.zx ==> x != TWO64 - 1
  {}

  /** For an int local b, !~(b - 1) is answered rightly exactly when b is not 0. */
  lemma DifferenceComplement(b: int)
    requires InRange(I32, b)
    ensures Sound(Not(BitNot(Bin(Sub, Var(0, I32), Num(1, I32), I32), I32)), [b]) <==> b != 0
  {
    hide Reg, Sound, Wrap, OpValue, InRange;
    var l, r := Var(0, I32), Num(1, I32);
    var d := Bin(Sub, l, r, I32);
    Less(b);
    assert Eval(d, [b]) == Some(Outcome(Wrap(I32, b - 1), [b])) by { assert Eval(r, [b]) == Some(Outcome(1, [b])); }
    assert EnvOk([I32], [b]);
    ComplementByShape(d, [I32], [b], I32);
  }

  lemma Less(b: int)
    requires InRange(I32, b)
    ensures OpValue(Sub, I32, b, 1) == Some(Wrap(I32, b - 1)) && InRange(I32, 1)
    ensures Wrap(I32, b - 1) % TWO32 == TWO32 - 1 <==> b == 0
  { WrapMod(I32, b - 1); }
}
