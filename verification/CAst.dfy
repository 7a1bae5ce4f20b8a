/** Typed and untyped expression trees, their evaluators, and the typing pass. */
module CAst {
  import opened Arith
  import opened CTypes

  /** An expression after typing: every node knows its type and every conversion is a Cast. */
  datatype Node =
    | Num(val: int, nty: Ty)
    | Var(v: nat, vty: Ty)
    | Assign(av: nat, rhs: Node, aty: Ty)
    | Cast(ce: Node, to: Ty)
    | Neg(ne: Node, negTy: Ty)
    | BitNot(be: Node, bnTy: Ty)
    | Not(te: Node)
    | Bin(op: Op, l: Node, r: Node, bty: Ty)
    | LogAnd(al: Node, ar: Node)
    | LogOr(ol: Node, or: Node)
    | Cond(c: Node, t: Node, f: Node, cty: Ty)
    | Comma(cl: Node, cr: Node)

  function TyOf(e: Node): Ty {
    match e
    case Num(_, t) => t
    case Var(_, t) => t
    case Assign(_, _, t) => t
    case Cast(_, t) => t
    case Neg(_, t) => t
    case BitNot(_, t) => t
    case Not(_) => I32
    case Bin(_, _, _, t) => t
    case LogAnd(_, _) => I32
    case LogOr(_, _) => I32
    case Cond(_, _, _, t) => t
    case Comma(_, r) => TyOf(r)
  }

  /** Types of the local variables, by index. */
  type Vars = seq<Ty>
  /** Values of the local variables, by index. */
  type Env = seq<int>

  predicate EnvOk(vt: Vars, env: Env) {
    |env| == |vt| && forall i :: 0 <= i < |env| ==> InRange(vt[i], env[i])
  }

  /** What the typing pass guarantees about a tree. */
  predicate WellTyped(e: Node, vt: Vars) {
    match e
    case Num(v, t) => Size(t) >= 4 && InRange(t, v)
    case Var(v, t) => v < |vt| && t == vt[v]
    case Assign(v, rhs, t) => v < |vt| && t == vt[v] && WellTyped(rhs, vt) && TyOf(rhs) == t
    case Cast(e, _) => WellTyped(e, vt)
    case Neg(e, t) => WellTyped(e, vt) && TyOf(e) == t && Size(t) >= 4
    case BitNot(e, t) => WellTyped(e, vt) && TyOf(e) == t && Size(t) >= 4
    case Not(e) => WellTyped(e, vt)
    case Bin(op, l, r, t) =>
      && WellTyped(l, vt) && WellTyped(r, vt)
      && Size(TyOf(l)) >= 4
      && (!IsShift(op) ==> TyOf(l) == TyOf(r))
      && t == (if IsCompare(op) then I32 else TyOf(l))
    case LogAnd(l, r) => WellTyped(l, vt) && WellTyped(r, vt)
    case LogOr(l, r) => WellTyped(l, vt) && WellTyped(r, vt)
    case Cond(c, a, b, t) =>
      WellTyped(c, vt) && WellTyped(a, vt) && WellTyped(b, vt) && TyOf(a) == t && TyOf(b) == t
    case Comma(l, r) => WellTyped(l, vt) && WellTyped(r, vt)
  }

  datatype Outcome = Outcome(val: int, env: Env)

  /** Value of a typed tree. Right operands are evaluated before left ones. */
  function Eval(e: Node, env: Env): Option<Outcome>
    decreases e
  {
    match e
    case Num(v, _) => Some(Outcome(v, env))
    case Var(v, _) => if v < |env| then Some(Outcome(env[v], env)) else None
    case Assign(v, rhs, _) =>
      (match Eval(rhs, env)
       case None => None
       case Some(o) => if v < |o.env| then Some(Outcome(o.val, o.env[v := o.val])) else None)
    case Cast(a, t) =>
      (match Eval(a, env) case None => None case Some(o) => Some(Outcome(Conv(t, o.val), o.env)))
    case Neg(a, t) =>
      (match Eval(a, env) case None => None case Some(o) => Some(Outcome(Wrap(t, -o.val), o.env)))
    case BitNot(a, t) =>
      (match Eval(a, env) case None => None case Some(o) => Some(Outcome(Wrap(t, -o.val - 1), o.env)))
    case Not(a) =>
      (match Eval(a, env) case None => None case Some(o) => Some(Outcome(Flag(o.val == 0), o.env)))
    case Bin(op, l, r, _) =>
      (match Eval(r, env)
       case None => None
       case Some(b) =>
         match Eval(l, b.env)
         case None => None
         case Some(a) =>
           match OpValue(op, TyOf(l), a.val, b.val)
           case None => None
           case Some(v) => Some(Outcome(v, a.env)))
    case LogAnd(l, r) =>
      (match Eval(l, env)
       case None => None
       case Some(a) =>
         if a.val == 0 then Some(Outcome(0, a.env))
         else match Eval(r, a.env)
              case None => None
              case Some(b) => Some(Outcome(Flag(b.val != 0), b.env)))
    case LogOr(l, r) =>
      (match Eval(l, env)
       case None => None
       case Some(a) =>
         if a.val != 0 then Some(Outcome(1, a.env))
         else match Eval(r, a.env)
              case None => None
              case Some(b) => Some(Outcome(Flag(b.val != 0), b.env)))
    case Cond(c, a, b, _) =>
      (match Eval(c, env)
       case None => None
       case Some(o) => if o.val != 0 then Eval(a, o.env) else Eval(b, o.env))
    case Comma(l, r) =>
      (match Eval(l, env) case None => None case Some(o) => Eval(r, o.env))
  }

  /** Typed evaluation stays inside the types: values of the tree's type, variables of theirs. */
  lemma {:induction false} EvalInRange(e: Node, vt: Vars, env: Env)
    requires WellTyped(e, vt) && EnvOk(vt, env) && Eval(e, env).Some?
    ensures InRange(TyOf(e), Eval(e, env).value.val) && EnvOk(vt, Eval(e, env).value.env)
    decreases e
  {
    hide OpValue, Wrap;
    match e
    case Num(_, _) =>
    case Var(_, _) =>
    case Assign(v, rhs, _) => EvalInRange(rhs, vt, env);
    case Cast(a, t) => EvalInRange(a, vt, env); ConvInRange(t, Eval(a, env).value.val);
    case Neg(a, t) => EvalInRange(a, vt, env); WrapInRange(t, -Eval(a, env).value.val);
    case BitNot(a, t) => EvalInRange(a, vt, env); WrapInRange(t, -Eval(a, env).value.val - 1);
    case Not(a) => EvalInRange(a, vt, env);
    case Bin(op, l, r, _) =>
      EvalInRange(r, vt, env);
      var b := Eval(r, env).value;
      EvalInRange(l, vt, b.env);
      OpInRange(op, TyOf(l), Eval(l, b.env).value.val, b.val);
    case LogAnd(l, r) =>
      EvalInRange(l, vt, env);
      if Eval(l, env).value.val != 0 { EvalInRange(r, vt, Eval(l, env).value.env); }
    case LogOr(l, r) =>
      EvalInRange(l, vt, env);
      if Eval(l, env).value.val == 0 { EvalInRange(r, vt, Eval(l, env).value.env); }
    case Cond(c, a, b, _) =>
      EvalInRange(c, vt, env);
      var o := Eval(c, env).value;
      if o.val != 0 { EvalInRange(a, vt, o.env); } else { EvalInRange(b, vt, o.env); }
    case Comma(l, r) =>
      EvalInRange(l, vt, env);
      EvalInRange(r, vt, Eval(l, env).value.env);
  }

  lemma OpInRange(op: Op, t: Ty, a: int, b: int)
    requires Size(t) >= 4 && OpValue(op, t, a, b).Some?
    ensures InRange(if IsCompare(op) then I32 else t, OpValue(op, t, a, b).value)
  {
    hide Wrap, Logic, TruncDiv, Pow2;
    match op
    case Add => WrapInRange(t, a + b);
    case Sub => WrapInRange(t, a - b);
    case Mul => WrapInRange(t, a * b);
    case Div => WrapInRange(t, TruncDiv(a, b));
    case Mod => WrapInRange(t, a - b * TruncDiv(a, b));
    case BitAnd => WrapInRange(t, Logic(op, 8 * Size(t), a % Modulus(t), b % Modulus(t)));
    case BitOr => WrapInRange(t, Logic(op, 8 * Size(t), a % Modulus(t), b % Modulus(t)));
    case BitXor => WrapInRange(t, Logic(op, 8 * Size(t), a % Modulus(t), b % Modulus(t)));
    case Shl => WrapInRange(t, a * Pow2(b));
    case Shr => WrapInRange(t, a / Pow2(b));
    case _ =>
  }

  // ---------- The typing pass ----------

  /** An expression as parsed: no implicit conversions yet. */
  datatype Raw =
    | RNum(rval: int, rty: Ty)
    | RVar(rv: nat)
    | RAssign(rav: nat, ra: Raw)
    | RCast(rc: Raw, rto: Ty)
    | RNeg(rn: Raw)
    | RBitNot(rb: Raw)
    | RNot(rt: Raw)
    | RBin(rop: Op, rl: Raw, rr: Raw)
    | RLogAnd(ral: Raw, rar: Raw)
    | RLogOr(rol: Raw, ror: Raw)
    | RCond(rcc: Raw, rct: Raw, rcf: Raw)
    | RComma(rcl: Raw, rcr: Raw)

  function CommonType(t1: Ty, t2: Ty): Ty {
    var a := if Size(t1) < 4 then I32 else t1;
    var b := if Size(t2) < 4 then I32 else t2;
    if Size(a) != Size(b) then (if Size(a) < Size(b) then b else a)
    else if Unsigned(b) then b else a
  }

  function AddType(e: Raw, vt: Vars): Node {
    match e
    case RNum(v, t) => Num(v, t)
    case RVar(v) => Var(v, if v < |vt| then vt[v] else I32)
    case RAssign(v, a) =>
      var t := if v < |vt| then vt[v] else I32;
      Assign(v, Cast(AddType(a, vt), t), t)
    case RCast(a, t) => Cast(AddType(a, vt), t)
    case RNeg(a) =>
      var n := AddType(a, vt);
      var t := CommonType(I32, TyOf(n));
      Neg(Cast(n, t), t)
    case RBitNot(a) => var n := AddType(a, vt); BitNot(n, TyOf(n))
    case RNot(a) => Not(AddType(a, vt))
    case RBin(op, l, r) =>
      var n, m := AddType(l, vt), AddType(r, vt);
      if IsShift(op) then Bin(op, n, m, TyOf(n))
      else
        var t := CommonType(TyOf(n), TyOf(m));
        Bin(op, Cast(n, t), Cast(m, t), if IsCompare(op) then I32 else t)
    case RLogAnd(l, r) => LogAnd(AddType(l, vt), AddType(r, vt))
    case RLogOr(l, r) => LogOr(AddType(l, vt), AddType(r, vt))
    case RCond(c, a, b) =>
      var n, m := AddType(a, vt), AddType(b, vt);
      var t := CommonType(TyOf(n), TyOf(m));
      Cond(AddType(c, vt), Cast(n, t), Cast(m, t), t)
    case RComma(l, r) => Comma(AddType(l, vt), AddType(r, vt))
  }

  // ---------- The meaning ISO C11 gives to the untyped tree ----------

  /** Conversion rank, section 6.3.1.1. */
  function Rank(t: Ty): nat {
    match t
    case TBool => 0
    case I8 => 1 case U8 => 1
    case I16 => 2 case U16 => 2
    case I32 => 3 case U32 => 3
    case I64 => 4 case U64 => 4
  }

  ghost predicate Represents(t: Ty, s: Ty) { forall v :: InRange(s, v) ==> InRange(t, v) }

  /** Integer promotions, section 6.3.1.1 paragraph 2. */
  ghost function Promote(t: Ty): Ty {
    if Rank(t) < Rank(I32) && Represents(I32, t) then I32
    else if Rank(t) < Rank(I32) then U32 else t
  }

  function UnsignedOf(t: Ty): Ty {
    match t case I32 => U32 case I64 => U64 case _ => t
  }

  /** Usual arithmetic conversions, section 6.3.1.8 paragraph 1. */
  ghost function UsualArith(t1: Ty, t2: Ty): Ty {
    var a, b := Promote(t1), Promote(t2);
    if a == b then a
    else if Unsigned(a) == Unsigned(b) then (if Rank(a) >= Rank(b) then a else b)
    else
      var (u, s) := if Unsigned(a) then (a, b) else (b, a);
      if Rank(u) >= Rank(s) then u
      else if Represents(s, u) then s
      else UnsignedOf(s)
  }

  /** get_common_type computes exactly the type section 6.3.1.8 prescribes. */
  lemma CommonTypeIsUsualArith(t1: Ty, t2: Ty)
    ensures CommonType(t1, t2) == UsualArith(t1, t2)
  {
    PromoteSize(t1);
    PromoteSize(t2);
    // The one mixed pair where the signed type wins, and the two where it cannot.
    assert Represents(I64, U32);
    assert !Represents(I32, U32) by { assert InRange(U32, TWO32 - 1) && !InRange(I32, TWO32 - 1); }
    assert !Represents(I64, U64) by { assert InRange(U64, TWO64 - 1) && !InRange(I64, TWO64 - 1); }
  }

  lemma PromoteSize(t: Ty)
    ensures Promote(t) == if Size(t) < 4 then I32 else t
  {}

  /** Static type of an expression in C11. */
  ghost function CType(e: Raw, vt: Vars): Ty {
    match e
    case RNum(_, t) => t
    case RVar(v) => if v < |vt| then vt[v] else I32
    case RAssign(v, _) => if v < |vt| then vt[v] else I32
    case RCast(_, t) => t
    case RNeg(a) => Promote(CType(a, vt))
    case RBitNot(a) => Promote(CType(a, vt))
    case RNot(_) => I32
    case RBin(op, l, r) =>
      (match op
       case Eq | Ne | Lt | Le => I32
       case Shl | Shr => Promote(CType(l, vt))
       case _ => UsualArith(CType(l, vt), CType(r, vt)))
    case RLogAnd(_, _) => I32
    case RLogOr(_, _) => I32
    case RCond(_, a, b) => UsualArith(CType(a, vt), CType(b, vt))
    case RComma(_, r) => CType(r, vt)
  }

  /** Value of an untyped expression in C11, section 6.5, operands evaluated right to left. */
  ghost function EvalC(e: Raw, vt: Vars, env: Env): Option<Outcome>
    decreases e
  {
    match e
    case RNum(v, _) => Some(Outcome(v, env))
    case RVar(v) => if v < |env| then Some(Outcome(env[v], env)) else None
    case RAssign(v, a) =>
      (match EvalC(a, vt, env)
       case None => None
       case Some(o) =>
         if v < |o.env|
         then var w := Conv(CType(e, vt), o.val); Some(Outcome(w, o.env[v := w]))
         else None)
    case RCast(a, t) =>
      (match EvalC(a, vt, env) case None => None case Some(o) => Some(Outcome(Conv(t, o.val), o.env)))
    case RNeg(a) =>
      (match EvalC(a, vt, env)
       case None => None
       case Some(o) => Some(Outcome(Wrap(CType(e, vt), -Conv(CType(e, vt), o.val)), o.env)))
    case RBitNot(a) =>
      (match EvalC(a, vt, env)
       case None => None
       case Some(o) => Some(Outcome(Wrap(CType(e, vt), -Conv(CType(e, vt), o.val) - 1), o.env)))
    case RNot(a) =>
      (match EvalC(a, vt, env) case None => None case Some(o) => Some(Outcome(Flag(o.val == 0), o.env)))
    case RBin(op, l, r) =>
      (match EvalC(r, vt, env)
       case None => None
       case Some(b) =>
         match EvalC(l, vt, b.env)
         case None => None
         case Some(a) =>
           var shift := op == Shl || op == Shr;
           var t := if shift then Promote(CType(l, vt)) else UsualArith(CType(l, vt), CType(r, vt));
           var bv := if shift then b.val else Conv(t, b.val);
           match OpValue(op, t, Conv(t, a.val), bv)
           case None => None
           case Some(v) => Some(Outcome(v, a.env)))
    case RLogAnd(l, r) =>
      (match EvalC(l, vt, env)
       case None => None
       case Some(a) =>
         if a.val == 0 then Some(Outcome(0, a.env))
         else match EvalC(r, vt, a.env)
              case None => None
              case Some(b) => Some(Outcome(Flag(b.val != 0), b.env)))
    case RLogOr(l, r) =>
      (match EvalC(l, vt, env)
       case None => None
       case Some(a) =>
         if a.val != 0 then Some(Outcome(1, a.env))
         else match EvalC(r, vt, a.env)
              case None => None
              case Some(b) => Some(Outcome(Flag(b.val != 0), b.env)))
    case RCond(c, a, b) =>
      (match EvalC(c, vt, env)
       case None => None
       case Some(o) =>
         match (if o.val != 0 then EvalC(a, vt, o.env) else EvalC(b, vt, o.env))
         case None => None
         case Some(p) => Some(Outcome(Conv(CType(e, vt), p.val), p.env)))
    case RComma(l, r) =>
      (match EvalC(l, vt, env) case None => None case Some(o) => EvalC(r, vt, o.env))
  }

  /** Trees the pass types as C11 does: declared variables, constants of int or wider, and no
      `~`, `<<` or `>>` on a type narrower than int (the pass does not promote those). */
  ghost predicate Promotable(e: Raw, vt: Vars) {
    match e
    case RNum(v, t) => Size(t) >= 4 && InRange(t, v)
    case RVar(v) => v < |vt|
    case RAssign(v, a) => v < |vt| && Promotable(a, vt)
    case RCast(a, _) => Promotable(a, vt)
    case RNeg(a) => Promotable(a, vt)
    case RBitNot(a) => Promotable(a, vt) && Size(CType(a, vt)) >= 4
    case RNot(a) => Promotable(a, vt)
    case RBin(op, l, r) =>
      Promotable(l, vt) && Promotable(r, vt) && (IsShift(op) ==> Size(CType(l, vt)) >= 4)
    case RLogAnd(l, r) => Promotable(l, vt) && Promotable(r, vt)
    case RLogOr(l, r) => Promotable(l, vt) && Promotable(r, vt)
    case RCond(c, a, b) => Promotable(c, vt) && Promotable(a, vt) && Promotable(b, vt)
    case RComma(l, r) => Promotable(l, vt) && Promotable(r, vt)
  }

  lemma {:induction false} AddTypeWellTyped(e: Raw, vt: Vars)
    requires Promotable(e, vt)
    ensures WellTyped(AddType(e, vt), vt)
    ensures TyOf(AddType(e, vt)) == CType(e, vt)
  {
    hide UsualArith, Promote, Represents, InRange;
    match e
    case RNum(_, _) =>
    case RVar(_) =>
    case RAssign(_, a) => AddTypeWellTyped(a, vt);
    case RCast(a, _) => AddTypeWellTyped(a, vt);
    case RNeg(a) => AddTypeWellTyped(a, vt); PromoteSize(CType(a, vt));
    case RBitNot(a) => AddTypeWellTyped(a, vt); PromoteSize(CType(a, vt));
    case RNot(a) => AddTypeWellTyped(a, vt);
    case RBin(op, l, r) =>
      AddTypeWellTyped(l, vt);
      AddTypeWellTyped(r, vt);
      BinWellTyped(op, l, r, vt);
    case RLogAnd(l, r) => AddTypeWellTyped(l, vt); AddTypeWellTyped(r, vt);
    case RLogOr(l, r) => AddTypeWellTyped(l, vt); AddTypeWellTyped(r, vt);
    case RCond(c, a, b) =>
      AddTypeWellTyped(c, vt);
      AddTypeWellTyped(a, vt);
      AddTypeWellTyped(b, vt);
      CommonTypeIsUsualArith(CType(a, vt), CType(b, vt));
    case RComma(l, r) => AddTypeWellTyped(l, vt); AddTypeWellTyped(r, vt);
  }

  lemma BinWellTyped(op: Op, l: Raw, r: Raw, vt: Vars)
    requires Promotable(RBin(op, l, r), vt)
    requires WellTyped(AddType(l, vt), vt) && TyOf(AddType(l, vt)) == CType(l, vt)
    requires WellTyped(AddType(r, vt), vt) && TyOf(AddType(r, vt)) == CType(r, vt)
    ensures WellTyped(AddType(RBin(op, l, r), vt), vt)
    ensures TyOf(AddType(RBin(op, l, r), vt)) == CType(RBin(op, l, r), vt)
  {
    hide UsualArith, Promote, Represents, InRange;
    PromoteSize(CType(l, vt));
    CommonTypeIsUsualArith(CType(l, vt), CType(r, vt));
  }

  /** The typing pass preserves meaning: the typed tree it builds has the C11 value and effects. */
  lemma {:induction false} AddTypePreservesMeaning(e: Raw, vt: Vars, env: Env)
    requires Promotable(e, vt) && EnvOk(vt, env)
    ensures Eval(AddType(e, vt), env) == EvalC(e, vt, env)
    ensures EvalC(e, vt, env).Some? ==> EnvOk(vt, EvalC(e, vt, env).value.env)
    decreases e
  {
    hide *;
    match e {
    case RNum(_, _) => SimplePreservesMeaning(e, vt, env);
    case RVar(_) => SimplePreservesMeaning(e, vt, env);
    case RAssign(_, _) => SimplePreservesMeaning(e, vt, env);
    case RCast(_, _) => SimplePreservesMeaning(e, vt, env);
    case RNeg(_) => UnaryPreservesMeaning(e, vt, env);
    case RBitNot(_) => UnaryPreservesMeaning(e, vt, env);
    case RNot(_) => UnaryPreservesMeaning(e, vt, env);
    case RBin(op, l, r) =>
      if IsShift(op) { ShiftPreservesMeaning(op, l, r, vt, env); } else { ArithPreservesMeaning(op, l, r, vt, env); }
    case RLogAnd(_, _) => ControlPreservesMeaning(e, vt, env);
    case RLogOr(_, _) => ControlPreservesMeaning(e, vt, env);
    case RCond(_, _, _) => ControlPreservesMeaning(e, vt, env);
    case RComma(_, _) => ControlPreservesMeaning(e, vt, env);
    }
    AddTypeWellTyped(e, vt);
    if Eval(AddType(e, vt), env).Some? { EvalInRange(AddType(e, vt), vt, env); }
  }

  lemma SimplePreservesMeaning(e: Raw, vt: Vars, env: Env)
    requires Promotable(e, vt) && EnvOk(vt, env)
    requires e.RNum? || e.RVar? || e.RAssign? || e.RCast?
    ensures Eval(AddType(e, vt), env) == EvalC(e, vt, env)
    decreases e, 0
  {
    hide OpValue, Conv, Wrap, InRange, UsualArith, Represents;
    AddTypeWellTyped(e, vt);
    match e
    case RNum(_, _) =>
    case RVar(_) =>
    case RAssign(_, a) => AddTypePreservesMeaning(a, vt, env);
    case RCast(a, _) => AddTypePreservesMeaning(a, vt, env);
  }

  lemma UnaryPreservesMeaning(e: Raw, vt: Vars, env: Env)
    requires Promotable(e, vt) && EnvOk(vt, env)
    requires e.RNeg? || e.RBitNot? || e.RNot?
    ensures Eval(AddType(e, vt), env) == EvalC(e, vt, env)
    decreases e, 0
  {
    hide OpValue, Conv, Wrap, InRange, UsualArith, Represents;
    AddTypeWellTyped(e, vt);
    match e
    case RNeg(a) => AddTypePreservesMeaning(a, vt, env);
    case RBitNot(a) =>
      AddTypePreservesMeaning(a, vt, env);
      OperandIsConverted(a, vt, env);
    case RNot(a) => AddTypePreservesMeaning(a, vt, env);
  }

  lemma ControlPreservesMeaning(e: Raw, vt: Vars, env: Env)
    requires Promotable(e, vt) && EnvOk(vt, env)
    requires e.RLogAnd? || e.RLogOr? || e.RCond? || e.RComma?
    ensures Eval(AddType(e, vt), env) == EvalC(e, vt, env)
    decreases e, 0
  {
    hide OpValue, Conv, Wrap, InRange, UsualArith, Promote, Represents;
    match e
    case RLogAnd(l, r) =>
      AddTypePreservesMeaning(l, vt, env);
      if EvalC(l, vt, env).Some? { AddTypePreservesMeaning(r, vt, EvalC(l, vt, env).value.env); }
    case RLogOr(l, r) =>
      AddTypePreservesMeaning(l, vt, env);
      if EvalC(l, vt, env).Some? { AddTypePreservesMeaning(r, vt, EvalC(l, vt, env).value.env); }
    case RCond(c, a, b) =>
      AddTypePreservesMeaning(c, vt, env);
      AddTypeWellTyped(e, vt);
      if EvalC(c, vt, env).Some? {
        AddTypePreservesMeaning(a, vt, EvalC(c, vt, env).value.env);
        AddTypePreservesMeaning(b, vt, EvalC(c, vt, env).value.env);
      }
    case RComma(l, r) =>
      AddTypePreservesMeaning(l, vt, env);
      if EvalC(l, vt, env).Some? { AddTypePreservesMeaning(r, vt, EvalC(l, vt, env).value.env); }
  }

  lemma ArithPreservesMeaning(op: Op, l: Raw, r: Raw, vt: Vars, env: Env)
    requires Promotable(RBin(op, l, r), vt) && EnvOk(vt, env) && !IsShift(op)
    ensures Eval(AddType(RBin(op, l, r), vt), env) == EvalC(RBin(op, l, r), vt, env)
    decreases RBin(op, l, r), 0
  {
    hide OpValue, Conv, Wrap, InRange, UsualArith, Promote, Represents;
    AddTypePreservesMeaning(r, vt, env);
    AddTypeWellTyped(l, vt);
    AddTypeWellTyped(r, vt);
    var t := CommonType(CType(l, vt), CType(r, vt));
    CommonTypeIsUsualArith(CType(l, vt), CType(r, vt));
    assert AddType(RBin(op, l, r), vt) ==
           Bin(op, Cast(AddType(l, vt), t), Cast(AddType(r, vt), t), if IsCompare(op) then I32 else t);
    if EvalC(r, vt, env).Some? {
      AddTypePreservesMeaning(l, vt, EvalC(r, vt, env).value.env);
    }
  }

  lemma ShiftPreservesMeaning(op: Op, l: Raw, r: Raw, vt: Vars, env: Env)
    requires Promotable(RBin(op, l, r), vt) && EnvOk(vt, env) && IsShift(op)
    ensures Eval(AddType(RBin(op, l, r), vt), env) == EvalC(RBin(op, l, r), vt, env)
    decreases RBin(op, l, r), 0
  {
    hide OpValue, Conv, Wrap, InRange, UsualArith, Promote, Represents;
    AddTypePreservesMeaning(r, vt, env);
    AddTypeWellTyped(l, vt);
    if EvalC(r, vt, env).Some? {
      AddTypePreservesMeaning(l, vt, EvalC(r, vt, env).value.env);
      OperandIsConverted(l, vt, EvalC(r, vt, env).value.env);
    }
  }

  /** An operand of int or wider already has its promoted value. */
  lemma OperandIsConverted(a: Raw, vt: Vars, env: Env)
    requires Promotable(a, vt) && EnvOk(vt, env) && Size(CType(a, vt)) >= 4
    requires Eval(AddType(a, vt), env) == EvalC(a, vt, env)
    ensures Promote(CType(a, vt)) == CType(a, vt)
    ensures EvalC(a, vt, env).Some? ==> Conv(CType(a, vt), EvalC(a, vt, env).value.val) == EvalC(a, vt, env).value.val
  {
    AddTypeWellTyped(a, vt);
    if EvalC(a, vt, env).Some? {
      EvalInRange(AddType(a, vt), vt, env);
      ConvId(CType(a, vt), EvalC(a, vt, env).value.val);
    }
  }
}
