/** Compiler correctness: running the code of a tree leaves its C value in x0. */
module CodegenProof {
  import opened CTypes
  import opened Arith
  import opened CAst
  import opened Machine
  import opened Codegen
  import opened CodegenValues
  import opened CodegenReg

  /** A stack frame: offsets and types of the locals, which lie at or above fp - lo. */
  datatype Frame = Frame(off: seq<int>, vt: Vars, lo: int)

  predicate InSlot(fr: Frame, fp: int, v: nat, a: int)
    requires v < |fr.off| && v < |fr.vt|
  {
    fp + fr.off[v] <= a < fp + fr.off[v] + Size(fr.vt[v])
  }

  ghost predicate InSomeSlot(fr: Frame, fp: int, a: int)
    requires |fr.off| == |fr.vt|
  {
    exists v: nat :: v < |fr.off| && InSlot(fr, fp, v, a)
  }

  /** Locals have disjoint slots inside the frame and the stack grows below them. */
  ghost predicate FrameOk(fr: Frame, fp: int, sp: int) {
    && |fr.off| == |fr.vt|
    && 0 <= fr.lo && 0 <= sp <= fp - fr.lo && fp < TWO64
    && (forall v: nat :: v < |fr.off| ==>
          && -fr.lo <= fr.off[v] && -0x8000_0000 < fr.off[v] < 0x8000_0000
          && fp + fr.off[v] + Size(fr.vt[v]) <= TWO64)
    && (forall v: nat, w: nat :: v < |fr.off| && w < |fr.off| && v != w ==>
          fr.off[v] + Size(fr.vt[v]) <= fr.off[w] || fr.off[w] + Size(fr.vt[w]) <= fr.off[v])
  }

  /** Memory holds the bit pattern of every local's value. */
  ghost predicate Agrees(fr: Frame, env: Env, fp: int, mem: Mem)
    requires |fr.off| == |fr.vt| == |env|
  {
    forall v: nat :: v < |env| ==>
      LoadN(mem, fp + fr.off[v], Size(fr.vt[v])) == env[v] % Modulus(fr.vt[v])
  }

  ghost predicate Ready(fr: Frame, env: Env, s: State) {
    FrameOk(fr, s.fp, s.sp) && EnvOk(fr.vt, env) && Agrees(fr, env, s.fp, s.mem)
  }

  /** Nothing at or above the stack pointer changed outside the locals' slots. */
  ghost predicate Kept(fr: Frame, fp: int, sp: int, m: Mem, m': Mem)
    requires |fr.off| == |fr.vt|
  {
    forall a :: a >= sp && !InSomeSlot(fr, fp, a) ==> Get(m', a) == Get(m, a)
  }

  /** Stack slots a tree's code needs below the entry stack pointer. */
  function Need(e: Node): nat {
    match e
    case Num(_, _) => 0
    case Var(_, _) => 0
    case Assign(_, rhs, _) => 1 + Need(rhs)
    case Cast(a, _) => Need(a)
    case Neg(a, _) => Need(a)
    case BitNot(a, _) => Need(a)
    case Not(a) => Need(a)
    case Bin(_, l, r, _) => Max(Need(r), 1 + Need(l))
    case LogAnd(l, r) => Max(Need(l), Need(r))
    case LogOr(l, r) => Max(Need(l), Need(r))
    case Cond(c, a, b, _) => Max(Need(c), Max(Need(a), Need(b)))
    case Comma(l, r) => Max(Need(l), Need(r))
  }

  /** What a finished evaluation leaves behind: x in the result register and the outcome's locals. */
  ghost predicate Done(fr: Frame, o: Outcome, x: int, s: State, t: State)
    requires |fr.off| == |fr.vt|
  {
    && t.sp == s.sp && t.fp == s.fp
    && |o.env| == |fr.vt|
    && t.x0 == x
    && Agrees(fr, o.env, s.fp, t.mem)
    && Kept(fr, s.fp, s.sp, s.mem, t.mem)
  }

  // ---------- Memory: pushes and assignments against the frame ----------

  lemma KeptTrans(fr: Frame, fp: int, sp: int, a: Mem, b: Mem, c: Mem)
    requires |fr.off| == |fr.vt| && Kept(fr, fp, sp, a, b) && Kept(fr, fp, sp, b, c)
    ensures Kept(fr, fp, sp, a, c)
  {}

  /** Writing below every slot leaves the locals alone. */
  lemma PushKeeps(fr: Frame, env: Env, fp: int, sp: int, m: Mem, x: int)
    requires FrameOk(fr, fp, sp) && |env| == |fr.vt| && Agrees(fr, env, fp, m) && sp >= 16
    ensures Agrees(fr, env, fp, StoreN(m, sp - 16, 8, x))
    ensures Kept(fr, fp, sp, m, StoreN(m, sp - 16, 8, x))
    ensures FrameOk(fr, fp, sp - 16)
  {
    hide StoreN, LoadN, Modulus;
    var m' := StoreN(m, sp - 16, 8, x);
    forall a | a >= sp ensures Get(m', a) == Get(m, a) { StoreFrame(m, sp - 16, 8, x, a); }
    forall v: nat | v < |env|
      ensures LoadN(m', fp + fr.off[v], Size(fr.vt[v])) == env[v] % Modulus(fr.vt[v])
    { LoadElsewhere(m, sp - 16, 8, x, fp + fr.off[v], Size(fr.vt[v])); }
  }

  lemma NotInSlot(fr: Frame, fp: int, sp: int, a: int)
    requires FrameOk(fr, fp, sp) && a < sp
    ensures !InSomeSlot(fr, fp, a)
  {}

  /** A pushed word survives an evaluation that runs below it. */
  lemma PushedSurvives(fr: Frame, fp: int, sp: int, m: Mem, x: int, m2: Mem)
    requires FrameOk(fr, fp, sp) && sp >= 16 && 0 <= x < TWO64
    requires Kept(fr, fp, sp - 16, StoreN(m, sp - 16, 8, x), m2)
    ensures LoadN(m2, sp - 16, 8) == x
  {
    hide StoreN, LoadN, Pow256;
    var m1 := StoreN(m, sp - 16, 8, x);
    forall b | sp - 16 <= b < sp - 8 ensures Get(m2, b) == Get(m1, b) { NotInSlot(fr, fp, sp, b); }
    LoadSame(m1, m2, sp - 16, 8);
    LoadStore(m, sp - 16, 8, x);
    Pow256Values();
  }

  lemma SizePow(t: Ty)
    ensures Pow256(Size(t)) == Modulus(t)
  { Pow256Values(); }

  /** Storing to a local updates that local and nothing else in the frame. */
  lemma StoreLocal(fr: Frame, env: Env, fp: int, sp: int, m: Mem, v: nat, x: int, w: int)
    requires FrameOk(fr, fp, sp) && |env| == |fr.vt| && Agrees(fr, env, fp, m) && v < |env|
    requires x % Modulus(fr.vt[v]) == w % Modulus(fr.vt[v])
    ensures var m' := StoreN(m, fp + fr.off[v], Size(fr.vt[v]), x);
            Agrees(fr, env[v := w], fp, m') && Kept(fr, fp, sp, m, m')
  {
    hide StoreN, LoadN, Modulus, Pow256;
    var a0, n := fp + fr.off[v], Size(fr.vt[v]);
    var m' := StoreN(m, a0, n, x);
    assert Agrees(fr, env[v := w], fp, m') by {
      forall u: nat | u < |env|
        ensures LoadN(m', fp + fr.off[u], Size(fr.vt[u])) == env[v := w][u] % Modulus(fr.vt[u])
      {
        if u == v {
          LoadStore(m, a0, n, x);
          SizePow(fr.vt[v]);
        } else {
          LoadElsewhere(m, a0, n, x, fp + fr.off[u], Size(fr.vt[u]));
        }
      }
    }
    forall a | a >= sp && !InSomeSlot(fr, fp, a) ensures Get(m', a) == Get(m, a) {
      assert !InSlot(fr, fp, v, a);
      StoreFrame(m, a0, n, x, a);
    }
  }

  // ---------- Straight-line fragments ----------

  /** The address of a frame slot, whichever of the four forms encodes the offset. */
  lemma AddrSteps(prog: seq<Instr>, k: nat, off: int, s: State) returns (t: State)
    requires CodeAt(prog, k, AddrCode(off)) && s.pc == k
    requires -0x8000_0000 < off < 0x8000_0000 && 0 <= s.fp + off < TWO64
    ensures Reach(prog, s, t)
    ensures t == s.(pc := k + |AddrCode(off)|, x0 := s.fp + off)
  {
    hide Reach, Run, CodeAt, FindLabel, LoadN, StoreN, Compare, AluValue, RegMod, Extend, Low;
    ReachRefl(prog, s);
    if -4095 <= off <= 4095 {
      t := OneStep(prog, k, AddrCode(off), 0, s, s);
    } else {
      var v := Abs(off);
      var last := if off >= 0 then AddFpX0 else SubFpX0;
      assert AddrCode(off) == LoadConst(v) + [last];
      CodeAtParts(prog, k, LoadConst(v), [last]);
      var u := ConstSteps(prog, k, v, s);
      t := OneStep(prog, k + |LoadConst(v)|, [last], 0, s, u);
    }
  }

  lemma ConstSteps(prog: seq<Instr>, k: nat, v: int, s: State) returns (t: State)
    requires CodeAt(prog, k, LoadConst(v)) && s.pc == k && 0 <= v < 0x8000_0000
    ensures Reach(prog, s, t)
    ensures t == s.(pc := k + |LoadConst(v)|, x0 := v)
  {
    hide Reach, Run, CodeAt, FindLabel, LoadN, StoreN, Compare, AluValue, RegMod, Extend, Low;
    ReachRefl(prog, s);
    t := OneStep(prog, k, LoadConst(v), 0, s, s);
    if v > 65535 { t := OneStep(prog, k, LoadConst(v), 1, s, t); }
  }

  /** One instruction of a fragment. */
  lemma OneStep(prog: seq<Instr>, k: nat, code: seq<Instr>, i: nat, s: State, u: State) returns (t: State)
    requires CodeAt(prog, k, code) && i < |code| && u.pc == k + i && Reach(prog, s, u)
    ensures t == Step(prog, u) && Reach(prog, s, t) && u.pc < |prog| && prog[u.pc] == code[i]
  {
    hide Reach, Run, CodeAt, Step;
    CodeAtIndex(prog, k, code, i);
    t := Step(prog, u);
    ReachStep(prog, s, u);
  }

  lemma BinSteps(prog: seq<Instr>, k: nat, op: Op, lt: Ty, t: Ty, s: State) returns (u: State)
    requires CodeAt(prog, k, BinCode(op, lt, t)) && s.pc == k
    requires Size(lt) >= 4 && t == (if IsCompare(op) then I32 else lt)
    ensures Reach(prog, s, u)
    ensures u.pc == k + |BinCode(op, lt, t)| && u.x0 == BinResult(op, lt, s.x0, s.x1)
    ensures u.sp == s.sp && u.fp == s.fp && u.mem == s.mem
  {
    hide Reach, CodeAt, Step, Compare, AluValue, RegMod;
    var w := Size(lt) > 4;
    if IsCompare(op) {
      var cc := CompareCode(op, lt);
      assert BinCode(op, lt, t) == [CmpX1(w), Cset(cc)];
      u := CompareSteps(prog, k, w, cc, s);
    } else if op == Mod {
      assert BinCode(op, lt, t) == [AluX2(DivOp(lt), w), Msub(w)];
      u := ModSteps(prog, k, DivOp(lt), w, s);
    } else {
      var a := BinCode(op, lt, t)[0].op;
      assert BinCode(op, lt, t) == [Alu(a, w)];
      u := AluSteps(prog, k, a, w, s);
    }
  }

  function CompareCode(op: Op, t: Ty): CondCode {
    match op
    case Eq => EQ
    case Ne => NE
    case Lt => if Unsigned(t) then LO else LT
    case _ => if Unsigned(t) then LS else LE
  }

  lemma CompareSteps(prog: seq<Instr>, k: nat, w: bool, cc: CondCode, s: State) returns (u: State)
    requires CodeAt(prog, k, [CmpX1(w), Cset(cc)]) && s.pc == k
    ensures Reach(prog, s, u) && u.pc == k + 2 && u.x0 == Flag(Holds(cc, Compare(w, s.x0, s.x1)))
    ensures u.sp == s.sp && u.fp == s.fp && u.mem == s.mem
  {
    hide Reach, Run, CodeAt, FindLabel, LoadN, StoreN, Compare, AluValue, RegMod, Extend, Low;
    ReachRefl(prog, s);
    u := OneStep(prog, k, [CmpX1(w), Cset(cc)], 0, s, s);
    u := OneStep(prog, k, [CmpX1(w), Cset(cc)], 1, s, u);
  }

  lemma ModSteps(prog: seq<Instr>, k: nat, a: AluOp, w: bool, s: State) returns (u: State)
    requires CodeAt(prog, k, [AluX2(a, w), Msub(w)]) && s.pc == k
    ensures Reach(prog, s, u) && u.pc == k + 2
    ensures u.x0 == (s.x0 - AluValue(a, w, s.x0, s.x1) * s.x1) % RegMod(w)
    ensures u.sp == s.sp && u.fp == s.fp && u.mem == s.mem
  {
    hide Reach, Run, CodeAt, FindLabel, LoadN, StoreN, Compare, AluValue, Extend, Low;
    ReachRefl(prog, s);
    u := OneStep(prog, k, [AluX2(a, w), Msub(w)], 0, s, s);
    u := OneStep(prog, k, [AluX2(a, w), Msub(w)], 1, s, u);
  }

  lemma AluSteps(prog: seq<Instr>, k: nat, a: AluOp, w: bool, s: State) returns (u: State)
    requires CodeAt(prog, k, [Alu(a, w)]) && s.pc == k
    ensures Reach(prog, s, u) && u.pc == k + 1 && u.x0 == AluValue(a, w, s.x0, s.x1)
    ensures u.sp == s.sp && u.fp == s.fp && u.mem == s.mem
  {
    hide Reach, Run, CodeAt, FindLabel, LoadN, StoreN, Compare, AluValue, RegMod, Extend, Low;
    ReachRefl(prog, s);
    u := OneStep(prog, k, [Alu(a, w)], 0, s, s);
  }

  lemma CastSteps(prog: seq<Instr>, k: nat, from: Ty, to: Ty, s: State) returns (u: State)
    requires CodeAt(prog, k, CastCode(from, to)) && s.pc == k
    ensures Reach(prog, s, u)
    ensures u.pc == k + |CastCode(from, to)| && u.x0 == CastResult(from, to, s.x0)
    ensures u.sp == s.sp && u.fp == s.fp && u.mem == s.mem
  {
    hide Reach, Run, CodeAt, FindLabel, LoadN, StoreN, Compare, AluValue, RegMod, Extend, Low;
    ReachRefl(prog, s);
    u := s;
    if CastCode(from, to) != [] {
      u := OneStep(prog, k, CastCode(from, to), 0, s, s);
      if to == TBool { u := OneStep(prog, k, CastCode(from, to), 1, s, u); }
    }
  }

  // ---------- The induction ----------

  /** A tree's code is about to run: placed in a program with unique labels, frame set up,
      enough stack, and a defined C value. */
  ghost predicate Start(e: Node, fr: Frame, c: nat, prog: seq<Instr>, k: nat, s: State, env: Env) {
    && WellTyped(e, fr.vt) && Sound(e, env)
    && CodeAt(prog, k, Compile(e, fr.off, c).ins) && UniqueLabels(prog) && s.pc == k
    && Ready(fr, env, s) && s.sp >= 16 * Need(e)
    && Eval(e, env).Some?
  }

  /** The code has run to its end and left the value. */
  ghost predicate Finish(e: Node, fr: Frame, c: nat, prog: seq<Instr>, k: nat, s: State, env: Env, t: State)
    requires |fr.off| == |fr.vt| && Eval(e, env).Some?
  {
    && Reach(prog, s, t) && t.pc == k + |Compile(e, fr.off, c).ins|
    && Done(fr, Eval(e, env).value, Reg(e, env), s, t)
  }

  /** After one evaluation the machine is ready for the next. */
  lemma NextReady(e: Node, fr: Frame, env: Env, s: State, t: State)
    requires WellTyped(e, fr.vt) && Ready(fr, env, s) && Eval(e, env).Some? && Sound(e, env)
    requires Done(fr, Eval(e, env).value, Reg(e, env), s, t)
    ensures Ready(fr, Eval(e, env).value.env, t) && InRange(TyOf(e), Eval(e, env).value.val)
    ensures Rel(TyOf(e), Eval(e, env).value.val, t.x0) && 0 <= t.x0 < TWO64
  {
    hide Agrees, Kept, InRange, Eval, WellTyped, Compile, Reg, Sound;
    EvalInRange(e, fr.vt, env);
    RegHolds(e, fr.vt, env);
  }

  /** For every well-typed tree in any program with unique labels, if its evaluation meets no unfaithful
      zero test, running its code terminates past its end with the register contents Reg says in x0, the stack pointer restored, the locals
      updated as C says, and nothing else at or above the stack pointer changed. */
  lemma {:induction false} Correct(e: Node, fr: Frame, c: nat, prog: seq<Instr>, k: nat, s: State, env: Env)
    returns (t: State)
    requires Start(e, fr, c, prog, k, s, env)
    ensures |fr.off| == |fr.vt| && Finish(e, fr, c, prog, k, s, env, t)
    decreases e, 2
  {
    hide *;
    match e {
      case Num(_, _) => t := NumCase(e, fr, c, prog, k, s, env);
      case Var(_, _) => t := VarCase(e, fr, c, prog, k, s, env);
      case Assign(_, _, _) => t := AssignCase(e, fr, c, prog, k, s, env);
      case Cast(_, _) => t := CastCase(e, fr, c, prog, k, s, env);
      case Neg(_, _) => t := NegCase(e, fr, c, prog, k, s, env);
      case BitNot(_, _) => t := BitNotCase(e, fr, c, prog, k, s, env);
      case Not(_) => t := NotCase(e, fr, c, prog, k, s, env);
      case Bin(_, _, _, _) => t := BinCase(e, fr, c, prog, k, s, env);
      case LogAnd(_, _) => t := LogAndCase(e, fr, c, prog, k, s, env);
      case LogOr(_, _) => t := LogOrCase(e, fr, c, prog, k, s, env);
      case Cond(_, _, _, _) => t := CondCase(e, fr, c, prog, k, s, env);
      case Comma(_, _) => t := CommaCase(e, fr, c, prog, k, s, env);
    }
  }

  lemma NumCase(e: Node, fr: Frame, c: nat, prog: seq<Instr>, k: nat, s: State, env: Env) returns (t: State)
    requires e.Num? && Start(e, fr, c, prog, k, s, env)
    ensures |fr.off| == |fr.vt| && Finish(e, fr, c, prog, k, s, env, t)
    decreases e, 1
  {
    hide Reach, Run, CodeAt, FindLabel, LoadN, StoreN, Agrees;
    ReachRefl(prog, s);
    t := OneStep(prog, k, [MovImm(e.val)], 0, s, s);
  }

  lemma VarCase(e: Node, fr: Frame, c: nat, prog: seq<Instr>, k: nat, s: State, env: Env) returns (t: State)
    requires e.Var? && Start(e, fr, c, prog, k, s, env)
    ensures |fr.off| == |fr.vt| && Finish(e, fr, c, prog, k, s, env, t)
    decreases e, 1
  {
    hide Reach, Run, CodeAt, FindLabel, LoadN, StoreN, Compare, AluValue, RegMod, Extend, Low, UniqueLabels;
    hide Kept, Rel, ShapeOk, AddrCode, Modulus;
    var off, ty := fr.off[e.v], e.vty;
    CodeAtParts(prog, k, AddrCode(off), LoadCode(ty));
    var u := AddrSteps(prog, k, off, s);
    t := OneStep(prog, k + |AddrCode(off)|, LoadCode(ty), 0, s, u);
    KeptRefl(fr, s.fp, s.sp, s.mem);
  }

  lemma KeptRefl(fr: Frame, fp: int, sp: int, m: Mem)
    requires |fr.off| == |fr.vt|
    ensures Kept(fr, fp, sp, m, m)
  {}

  lemma CastCase(e: Node, fr: Frame, c: nat, prog: seq<Instr>, k: nat, s: State, env: Env) returns (t: State)
    requires e.Cast? && Start(e, fr, c, prog, k, s, env)
    ensures |fr.off| == |fr.vt| && Finish(e, fr, c, prog, k, s, env, t)
    decreases e, 1
  {
    hide Reach, Run, CodeAt, FindLabel, LoadN, StoreN, Compare, AluValue, RegMod, Extend, Low, UniqueLabels;
    hide Agrees, Kept, FrameOk, InRange, Rel, ShapeOk, BinResult, CastResult, CastCode, BinCode, AddrCode;
    var a, to := e.ce, e.to;
    var x := Compile(a, fr.off, c).ins;
    CodeAtParts(prog, k, x, CastCode(TyOf(a), to));
    var u := Correct(a, fr, c, prog, k, s, env);
    t := CastSteps(prog, k + |x|, TyOf(a), to, u);
    ReachTrans(prog, s, u, t);
  }

  lemma NegCase(e: Node, fr: Frame, c: nat, prog: seq<Instr>, k: nat, s: State, env: Env) returns (t: State)
    requires e.Neg? && Start(e, fr, c, prog, k, s, env)
    ensures |fr.off| == |fr.vt| && Finish(e, fr, c, prog, k, s, env, t)
    decreases e, 1
  {
    hide Reach, Run, CodeAt, FindLabel, LoadN, StoreN, Compare, AluValue, RegMod, Extend, Low, UniqueLabels;
    hide Agrees, Kept, FrameOk, InRange, Rel, ShapeOk, BinResult, CastResult, CastCode, BinCode, AddrCode;
    var a := e.ne;
    var x := Compile(a, fr.off, c).ins;
    CodeAtParts(prog, k, x, [NegX0]);
    var u := Correct(a, fr, c, prog, k, s, env);
    t := OneStep(prog, k + |x|, [NegX0], 0, s, u);
  }

  lemma BitNotCase(e: Node, fr: Frame, c: nat, prog: seq<Instr>, k: nat, s: State, env: Env) returns (t: State)
    requires e.BitNot? && Start(e, fr, c, prog, k, s, env)
    ensures |fr.off| == |fr.vt| && Finish(e, fr, c, prog, k, s, env, t)
    decreases e, 1
  {
    hide Reach, Run, CodeAt, FindLabel, LoadN, StoreN, Compare, AluValue, RegMod, Extend, Low, UniqueLabels;
    hide Agrees, Kept, FrameOk, InRange, Rel, ShapeOk, BinResult, CastResult, CastCode, BinCode, AddrCode;
    var a := e.be;
    var x := Compile(a, fr.off, c).ins;
    CodeAtParts(prog, k, x, [MvnX0]);
    var u := Correct(a, fr, c, prog, k, s, env);
    t := OneStep(prog, k + |x|, [MvnX0], 0, s, u);
  }

  /** A zero test of a faithful operand sets the Z flag exactly when its value is zero. */
  lemma TestedValue(a: Node, fr: Frame, env: Env)
    requires WellTyped(a, fr.vt) && EnvOk(fr.vt, env) && Eval(a, env).Some? && Sound(a, env) && Faithful(a, env)
    ensures Holds(EQ, Compare(true, Reg(a, env), 0)) <==> Eval(a, env).value.val == 0
    ensures Holds(NE, Compare(true, Reg(a, env), 0)) <==> Eval(a, env).value.val != 0
  {
    hide Eval, Reg, WellTyped, Sound, Faithful;
    TestExact(a, fr.vt, env);
  }

  lemma NotCase(e: Node, fr: Frame, c: nat, prog: seq<Instr>, k: nat, s: State, env: Env) returns (t: State)
    requires e.Not? && Start(e, fr, c, prog, k, s, env)
    ensures |fr.off| == |fr.vt| && Finish(e, fr, c, prog, k, s, env, t)
    decreases e, 1
  {
    hide Reach, Run, CodeAt, FindLabel, LoadN, StoreN, Compare, AluValue, RegMod, Extend, Low, UniqueLabels;
    hide Agrees, Kept, FrameOk, InRange, Rel, ShapeOk, BinResult, CastResult, CastCode, BinCode, AddrCode;
    hide Holds, Faithful;
    var a, tail := e.te, [CmpZero, Cset(EQ)];
    var x := Compile(a, fr.off, c).ins;
    CodeAtParts(prog, k, x, tail);
    var u := Correct(a, fr, c, prog, k, s, env);
    TestedValue(a, fr, env);
    t := OneStep(prog, k + |x|, tail, 0, s, u);
    t := OneStep(prog, k + |x|, tail, 1, s, t);
  }

  lemma CommaCase(e: Node, fr: Frame, c: nat, prog: seq<Instr>, k: nat, s: State, env: Env) returns (t: State)
    requires e.Comma? && Start(e, fr, c, prog, k, s, env)
    ensures |fr.off| == |fr.vt| && Finish(e, fr, c, prog, k, s, env, t)
    decreases e, 1
  {
    hide Reach, Run, CodeAt, FindLabel, LoadN, StoreN, Compare, AluValue, RegMod, Extend, Low, UniqueLabels;
    hide Agrees, Kept, FrameOk, InRange, Rel, ShapeOk, BinResult, CastResult, CastCode, BinCode, AddrCode;
    var x := Compile(e.cl, fr.off, c);
    CodeAtParts(prog, k, x.ins, Compile(e.cr, fr.off, x.next).ins);
    var u := Correct(e.cl, fr, c, prog, k, s, env);
    NextReady(e.cl, fr, env, s, u);
    t := Correct(e.cr, fr, x.next, prog, k + |x.ins|, u, Eval(e.cl, env).value.env);
    ReachTrans(prog, s, u, t);
    KeptTrans(fr, s.fp, s.sp, s.mem, u.mem, t.mem);
  }

  /** The push before a second evaluation. */
  lemma PushStep(fr: Frame, env: Env, prog: seq<Instr>, k: nat, s: State, u: State) returns (t: State)
    requires CodeAt(prog, k, [PushX0]) && u.pc == k && Reach(prog, s, u)
    requires Ready(fr, env, u) && u.sp >= 16
    ensures Reach(prog, s, t) && Ready(fr, env, t)
    ensures t == u.(pc := k + 1, sp := u.sp - 16, mem := StoreN(u.mem, u.sp - 16, 8, u.x0))
    ensures Kept(fr, u.fp, u.sp, u.mem, t.mem)
  {
    hide Reach, Run, CodeAt, FindLabel, LoadN, StoreN, Compare, AluValue, RegMod, Extend, Low, UniqueLabels;
    hide Agrees, Kept;
    t := OneStep(prog, k, [PushX0], 0, s, u);
    ModSmall(u.sp - 16, TWO64);
    PushKeeps(fr, env, u.fp, u.sp, u.mem, u.x0);
  }

  /** The pop after it gets the pushed word back. */
  lemma PopStep(fr: Frame, prog: seq<Instr>, k: nat, code: seq<Instr>, s: State, u: State, m: Mem, x: int) returns (t: State)
    requires CodeAt(prog, k, code) && |code| > 0 && code[0] == PopX1 && u.pc == k && Reach(prog, s, u)
    requires FrameOk(fr, u.fp, u.sp + 16) && u.sp >= 0 && 0 <= x < TWO64
    requires Kept(fr, u.fp, u.sp, StoreN(m, u.sp, 8, x), u.mem)
    ensures Reach(prog, s, t) && t == u.(pc := k + 1, sp := u.sp + 16, x1 := x)
  {
    hide Reach, Run, CodeAt, FindLabel, LoadN, StoreN, Compare, AluValue, RegMod, Extend, Low, UniqueLabels;
    hide Kept;
    t := OneStep(prog, k, code, 0, s, u);
    PushedSurvives(fr, u.fp, u.sp + 16, m, x, u.mem);
    ModSmall(u.sp + 16, TWO64);
  }

  lemma BinCase(e: Node, fr: Frame, c: nat, prog: seq<Instr>, k: nat, s: State, env: Env) returns (t: State)
    requires e.Bin? && Start(e, fr, c, prog, k, s, env)
    ensures |fr.off| == |fr.vt| && Finish(e, fr, c, prog, k, s, env, t)
    decreases e, 1
  {
    hide Reach, Run, CodeAt, FindLabel, LoadN, StoreN, Compare, AluValue, RegMod, Extend, Low, UniqueLabels;
    hide Agrees, Kept, FrameOk, InRange, Rel, ShapeOk, BinResult, CastResult, CastCode, BinCode, AddrCode;
    hide OpValue;
    var l, r := e.l, e.r;
    var y := Compile(r, fr.off, c);
    var x := Compile(l, fr.off, y.next);
    var tail := BinCode(e.op, TyOf(l), e.bty);
    BinParts(prog, k, y.ins, x.ins, tail);
    var p := k + |y.ins| + 1 + |x.ins|;
    var u := Correct(r, fr, c, prog, k, s, env);
    NextReady(r, fr, env, s, u);
    var b := Eval(r, env).value;
    var w := PushStep(fr, b.env, prog, k + |y.ins|, s, u);
    var z := Correct(l, fr, y.next, prog, k + |y.ins| + 1, w, b.env);
    NextReady(l, fr, b.env, w, z);
    ReachTrans(prog, s, w, z);
    BinFrame(e, fr, s, u, w, z);
    var q := PopStep(fr, prog, p, [PopX1], s, z, u.mem, u.x0);
    t := BinSteps(prog, p + 1, e.op, TyOf(l), e.bty, q);
    ReachTrans(prog, s, q, t);
  }

  lemma BinParts(prog: seq<Instr>, k: nat, y: seq<Instr>, x: seq<Instr>, tail: seq<Instr>)
    requires CodeAt(prog, k, y + [PushX0] + x + [PopX1] + tail)
    ensures CodeAt(prog, k, y) && CodeAt(prog, k + |y|, [PushX0]) && CodeAt(prog, k + |y| + 1, x)
    ensures CodeAt(prog, k + |y| + 1 + |x|, [PopX1]) && CodeAt(prog, k + |y| + 1 + |x| + 1, tail)
  {
    hide CodeAt;
    CodeAtParts(prog, k, y + [PushX0] + x + [PopX1], tail);
    CodeAtParts(prog, k, y + [PushX0] + x, [PopX1]);
    CodeAtParts(prog, k, y + [PushX0], x);
    CodeAtParts(prog, k, y, [PushX0]);
  }

  lemma BinFrame(e: Node, fr: Frame, s: State, u: State, w: State, z: State)
    requires |fr.off| == |fr.vt| && u.sp == s.sp && u.fp == s.fp && w.fp == s.fp && w.sp == s.sp - 16
    requires Kept(fr, s.fp, s.sp, s.mem, u.mem) && Kept(fr, s.fp, s.sp, u.mem, w.mem) && Kept(fr, s.fp, w.sp, w.mem, z.mem)
    ensures Kept(fr, s.fp, s.sp, s.mem, z.mem)
  {}

  lemma AssignCase(e: Node, fr: Frame, c: nat, prog: seq<Instr>, k: nat, s: State, env: Env) returns (t: State)
    requires e.Assign? && Start(e, fr, c, prog, k, s, env)
    ensures |fr.off| == |fr.vt| && Finish(e, fr, c, prog, k, s, env, t)
    decreases e, 1
  {
    hide Reach, Run, CodeAt, FindLabel, LoadN, StoreN, Compare, AluValue, RegMod, Extend, Low, UniqueLabels;
    hide Agrees, Kept, FrameOk, InRange, Rel, ShapeOk, BinResult, CastResult, CastCode, BinCode, AddrCode;
    LocalAddress(fr, s.fp, s.sp, e.av);
    var v, off, ty := e.av, fr.off[e.av], e.aty;
    var x := Compile(e.rhs, fr.off, c).ins;
    AssignParts(prog, k, AddrCode(off), x, StoreCode(ty));
    var n := |AddrCode(off)|;
    var u := AddrSteps(prog, k, off, s);
    var w := PushStep(fr, env, prog, k + n, s, u);
    var z := Correct(e.rhs, fr, c, prog, k + n + 1, w, env);
    NextReady(e.rhs, fr, env, w, z);
    ReachTrans(prog, s, w, z);
    var q := PopStep(fr, prog, k + n + 1 + |x|, StoreCode(ty), s, z, u.mem, s.fp + off);
    t := OneStep(prog, k + n + 1 + |x|, StoreCode(ty), 1, s, q);
    var o := Eval(e.rhs, env).value;
    RelPattern(ty, o.val, z.x0);
    StoreLocal(fr, o.env, s.fp, s.sp, z.mem, v, z.x0, o.val);
    KeptRefl(fr, s.fp, s.sp, s.mem);
    BinFrame(e, fr, s, u, w, z);
    KeptTrans(fr, s.fp, s.sp, s.mem, z.mem, t.mem);
  }

  lemma AssignParts(prog: seq<Instr>, k: nat, a: seq<Instr>, x: seq<Instr>, tail: seq<Instr>)
    requires CodeAt(prog, k, a + [PushX0] + x + tail)
    ensures CodeAt(prog, k, a) && CodeAt(prog, k + |a|, [PushX0]) && CodeAt(prog, k + |a| + 1, x)
    ensures CodeAt(prog, k + |a| + 1 + |x|, tail)
  {
    hide CodeAt;
    CodeAtParts(prog, k, a + [PushX0] + x, tail);
    CodeAtParts(prog, k, a + [PushX0], x);
    CodeAtParts(prog, k, a, [PushX0]);
  }

  lemma LocalAddress(fr: Frame, fp: int, sp: int, v: nat)
    requires FrameOk(fr, fp, sp) && v < |fr.vt|
    ensures |fr.off| == |fr.vt|
    ensures -0x8000_0000 < fr.off[v] < 0x8000_0000 && 0 <= fp + fr.off[v] < TWO64 && 0 <= sp < TWO64
  {}

  lemma RelPattern(t: Ty, v: int, x: int)
    requires Rel(t, v, x)
    ensures x % Modulus(t) == v % Modulus(t)
  { if Size(t) < 8 { LowBits(t, v, x); } }

  // ---------- Branches ----------

  /** A jump lands on the one definition of its label. */
  lemma Lands(prog: seq<Instr>, k: nat, code: seq<Instr>, i: nat, l: Label)
    requires CodeAt(prog, k, code) && i < |code| && code[i] == Lab(l) && UniqueLabels(prog)
    ensures FindLabel(prog, l) == k + i
  {
    hide UniqueLabels, FindLabel, CodeAt;
    CodeAtIndex(prog, k, code, i);
    FindUnique(prog, l, k + i);
  }

  /** The tail of && and ||: from its start, or entered at its inner label. */
  function LogTail(cc: CondCode, kind: LabelKind, c: nat, hit: int): seq<Instr> {
    [CmpZero, BCond(cc, Label(kind, c)), MovImm(1 - hit), B(Label(LEnd, c)),
     Lab(Label(kind, c)), MovImm(hit), Lab(Label(LEnd, c))]
  }

  lemma TailHit(prog: seq<Instr>, k: nat, cc: CondCode, kind: LabelKind, c: nat, hit: int, s: State) returns (t: State)
    requires CodeAt(prog, k, LogTail(cc, kind, c, hit)) && s.pc == k + 4 && 0 <= hit <= 1
    ensures Reach(prog, s, t) && t == s.(pc := k + 7, x0 := hit)
  {
    hide Reach, Run, CodeAt, FindLabel, LoadN, StoreN, Compare, AluValue, RegMod, Extend, Low, UniqueLabels;
    ReachRefl(prog, s);
    var code := LogTail(cc, kind, c, hit);
    t := OneStep(prog, k, code, 4, s, s);
    t := OneStep(prog, k, code, 5, s, t);
    t := OneStep(prog, k, code, 6, s, t);
  }

  lemma TailTest(prog: seq<Instr>, k: nat, cc: CondCode, kind: LabelKind, c: nat, hit: int, s: State) returns (t: State)
    requires CodeAt(prog, k, LogTail(cc, kind, c, hit)) && UniqueLabels(prog) && s.pc == k && 0 <= hit <= 1
    ensures Reach(prog, s, t)
    ensures t.pc == k + 7 && t.x0 == (if Holds(cc, Compare(true, s.x0, 0)) then hit else 1 - hit)
    ensures t.sp == s.sp && t.fp == s.fp && t.mem == s.mem
  {
    hide Reach, Run, CodeAt, FindLabel, LoadN, StoreN, Compare, AluValue, RegMod, Extend, Low, UniqueLabels;
    ReachRefl(prog, s);
    var code := LogTail(cc, kind, c, hit);
    Lands(prog, k, code, 4, Label(kind, c));
    var u := OneStep(prog, k, code, 0, s, s);
    u := OneStep(prog, k, code, 1, s, u);
    if Holds(cc, Compare(true, s.x0, 0)) {
      t := TailHit(prog, k, cc, kind, c, hit, u);
      ReachTrans(prog, s, u, t);
    } else {
      Lands(prog, k, code, 6, Label(LEnd, c));
      u := OneStep(prog, k, code, 2, s, u);
      u := OneStep(prog, k, code, 3, s, u);
      t := OneStep(prog, k, code, 6, s, u);
    }
  }

  lemma FourParts(prog: seq<Instr>, k: nat, x: seq<Instr>, j: seq<Instr>, y: seq<Instr>, z: seq<Instr>)
    requires CodeAt(prog, k, x + j + y + z)
    ensures CodeAt(prog, k, x) && CodeAt(prog, k + |x|, j) && CodeAt(prog, k + |x| + |j|, y)
    ensures CodeAt(prog, k + |x| + |j| + |y|, z)
  {
    hide CodeAt;
    CodeAtParts(prog, k, x + j + y, z);
    CodeAtParts(prog, k, x + j, y);
    CodeAtParts(prog, k, x, j);
  }

  /** A conditional jump on the zero test of an evaluated operand. */
  lemma TestJump(a: Node, fr: Frame, env: Env, prog: seq<Instr>, k: nat, cc: CondCode, l: Label, s: State, u: State) returns (w: State)
    requires CodeAt(prog, k, [CmpZero, BCond(cc, l)]) && u.pc == k && Reach(prog, s, u) && (cc == EQ || cc == NE)
    requires WellTyped(a, fr.vt) && EnvOk(fr.vt, env) && Eval(a, env).Some? && Sound(a, env) && Faithful(a, env) && u.x0 == Reg(a, env)
    ensures Reach(prog, s, w)
    ensures w == u.(flags := w.flags, pc := if (Eval(a, env).value.val == 0) == (cc == EQ) then FindLabel(prog, l) else k + 2)
  {
    hide Reach, Run, CodeAt, FindLabel, LoadN, StoreN, Compare, AluValue, RegMod, Extend, Low, UniqueLabels;
    hide InRange, Eval, Reg, WellTyped, Sound, Faithful;
    TestedValue(a, fr, env);
    w := OneStep(prog, k, [CmpZero, BCond(cc, l)], 0, s, u);
    w := OneStep(prog, k, [CmpZero, BCond(cc, l)], 1, s, w);
  }

  /** The second operand of && or ||, when it is reached. */
  lemma LogRight(e: Node, r: Node, fr: Frame, c: nat, hit: int, prog: seq<Instr>, k: nat, rc: nat, s: State, w: State, env: Env) returns (t: State)
    requires hit == 0 || hit == 1
    requires e.LogAnd? || e.LogOr?
    requires r < e && Start(r, fr, rc, prog, k, w, env) && Faithful(r, env) && Reach(prog, s, w)
    requires w.sp == s.sp && w.fp == s.fp && |fr.off| == |fr.vt| && Kept(fr, s.fp, s.sp, s.mem, w.mem)
    requires var cc, kind := if hit == 0 then EQ else NE, if hit == 0 then LFalse else LTrue;
             CodeAt(prog, k + |Compile(r, fr.off, rc).ins|, LogTail(cc, kind, c, hit))
    ensures Reach(prog, s, t) && t.pc == k + |Compile(r, fr.off, rc).ins| + 7
    ensures Done(fr, Outcome(Flag(Eval(r, env).value.val != 0), Eval(r, env).value.env), Flag(Eval(r, env).value.val != 0), s, t)
    decreases e, 0
  {
    hide Reach, Run, CodeAt, FindLabel, LoadN, StoreN, Compare, AluValue, RegMod, Extend, Low, UniqueLabels;
    hide Agrees, Kept, FrameOk, InRange, Rel, ShapeOk, BinResult, CastResult, CastCode, BinCode, AddrCode;
    hide Faithful, WellTyped, Sound, Compile, Eval, Need, Reg;
    var cc, kind := if hit == 0 then EQ else NE, if hit == 0 then LFalse else LTrue;
    var p := k + |Compile(r, fr.off, rc).ins|;
    var z := Correct(r, fr, rc, prog, k, w, env);
    NextReady(r, fr, env, w, z);
    ReachTrans(prog, s, w, z);
    KeptTrans(fr, s.fp, s.sp, s.mem, w.mem, z.mem);
    TestedValue(r, fr, env);
    t := TailTest(prog, p, cc, kind, c, hit, z);
    ReachTrans(prog, s, z, t);
  }

  lemma LogAndCase(e: Node, fr: Frame, c: nat, prog: seq<Instr>, k: nat, s: State, env: Env) returns (t: State)
    requires e.LogAnd? && Start(e, fr, c, prog, k, s, env)
    ensures |fr.off| == |fr.vt| && Finish(e, fr, c, prog, k, s, env, t)
    decreases e, 1
  {
    hide Reach, Run, CodeAt, FindLabel, LoadN, StoreN, Compare, AluValue, RegMod, Extend, Low, UniqueLabels;
    hide Agrees, Kept, FrameOk, InRange, Rel, ShapeOk, BinResult, CastResult, CastCode, BinCode, AddrCode;
    hide Faithful;
    var x := Compile(e.al, fr.off, c + 1);
    var y := Compile(e.ar, fr.off, x.next);
    var jump := [CmpZero, BCond(EQ, Label(LFalse, c))];
    assert AndTail(c) == LogTail(EQ, LFalse, c, 0);
    FourParts(prog, k, x.ins, jump, y.ins, AndTail(c));
    var p, q := k + |x.ins|, k + |x.ins| + 2 + |y.ins|;
    var u := Correct(e.al, fr, c + 1, prog, k, s, env);
    NextReady(e.al, fr, env, s, u);
    var a := Eval(e.al, env).value;
    var w := TestJump(e.al, fr, env, prog, p, EQ, Label(LFalse, c), s, u);
    if a.val == 0 {
      Lands(prog, q, LogTail(EQ, LFalse, c, 0), 4, Label(LFalse, c));
      t := TailHit(prog, q, EQ, LFalse, c, 0, w);
      ReachTrans(prog, s, w, t);
    } else {
      t := LogRight(e, e.ar, fr, c, 0, prog, p + 2, x.next, s, w, a.env);
    }
  }

  lemma LogOrCase(e: Node, fr: Frame, c: nat, prog: seq<Instr>, k: nat, s: State, env: Env) returns (t: State)
    requires e.LogOr? && Start(e, fr, c, prog, k, s, env)
    ensures |fr.off| == |fr.vt| && Finish(e, fr, c, prog, k, s, env, t)
    decreases e, 1
  {
    hide Reach, Run, CodeAt, FindLabel, LoadN, StoreN, Compare, AluValue, RegMod, Extend, Low, UniqueLabels;
    hide Agrees, Kept, FrameOk, InRange, Rel, ShapeOk, BinResult, CastResult, CastCode, BinCode, AddrCode;
    hide Faithful;
    var x := Compile(e.ol, fr.off, c + 1);
    var y := Compile(e.or, fr.off, x.next);
    var jump := [CmpZero, BCond(NE, Label(LTrue, c))];
    assert OrTail(c) == LogTail(NE, LTrue, c, 1);
    FourParts(prog, k, x.ins, jump, y.ins, OrTail(c));
    var p, q := k + |x.ins|, k + |x.ins| + 2 + |y.ins|;
    var u := Correct(e.ol, fr, c + 1, prog, k, s, env);
    NextReady(e.ol, fr, env, s, u);
    var a := Eval(e.ol, env).value;
    var w := TestJump(e.ol, fr, env, prog, p, NE, Label(LTrue, c), s, u);
    if a.val != 0 {
      Lands(prog, q, LogTail(NE, LTrue, c, 1), 4, Label(LTrue, c));
      t := TailHit(prog, q, NE, LTrue, c, 1, w);
      ReachTrans(prog, s, w, t);
    } else {
      t := LogRight(e, e.or, fr, c, 1, prog, p + 2, x.next, s, w, a.env);
    }
  }

  lemma CondCase(e: Node, fr: Frame, c: nat, prog: seq<Instr>, k: nat, s: State, env: Env) returns (t: State)
    requires e.Cond? && Start(e, fr, c, prog, k, s, env)
    ensures |fr.off| == |fr.vt| && Finish(e, fr, c, prog, k, s, env, t)
    decreases e, 1
  {
    hide Reach, Run, CodeAt, FindLabel, LoadN, StoreN, Compare, AluValue, RegMod, Extend, Low, UniqueLabels;
    hide Agrees, Kept, FrameOk, InRange, Rel, ShapeOk, BinResult, CastResult, CastCode, BinCode, AddrCode;
    hide Faithful, Need, Eval, Reg, Sound, WellTyped;
    CondMeans(e, fr.vt, env);
    var z := Compile(e.c, fr.off, c + 1);
    var x := Compile(e.t, fr.off, z.next);
    var y := Compile(e.f, fr.off, x.next);
    var jump := [CmpZero, BCond(EQ, Label(LElse, c))];
    var other, end := [B(Label(LEnd, c)), Lab(Label(LElse, c))], [Lab(Label(LEnd, c))];
    CondParts(prog, k, z.ins, jump, x.ins, other, y.ins, end);
    NeedCond(e);
    var p := k + |z.ins|;
    var q := p + 2 + |x.ins|;
    var r := q + 2 + |y.ins|;
    var u := Correct(e.c, fr, c + 1, prog, k, s, env);
    NextReady(e.c, fr, env, s, u);
    var o := Eval(e.c, env).value;
    var w := TestJump(e.c, fr, env, prog, p, EQ, Label(LElse, c), s, u);
    if o.val != 0 {
      Lands(prog, r, end, 0, Label(LEnd, c));
      t := Correct(e.t, fr, z.next, prog, p + 2, w, o.env);
      ReachTrans(prog, s, w, t);
      KeptTrans(fr, s.fp, s.sp, s.mem, w.mem, t.mem);
      t := OneStep(prog, q, other, 0, s, t);
      t := OneStep(prog, r, end, 0, s, t);
    } else {
      Lands(prog, q, other, 1, Label(LElse, c));
      w := OneStep(prog, q, other, 1, s, w);
      t := Correct(e.f, fr, x.next, prog, q + 2, w, o.env);
      ReachTrans(prog, s, w, t);
      KeptTrans(fr, s.fp, s.sp, s.mem, w.mem, t.mem);
      t := OneStep(prog, r, end, 0, s, t);
    }
  }

  lemma CondParts(prog: seq<Instr>, k: nat, z: seq<Instr>, j: seq<Instr>, x: seq<Instr>, o: seq<Instr>, y: seq<Instr>, e: seq<Instr>)
    requires CodeAt(prog, k, z + j + x + o + y + e)
    ensures CodeAt(prog, k, z) && CodeAt(prog, k + |z|, j) && CodeAt(prog, k + |z| + |j|, x)
    ensures CodeAt(prog, k + |z| + |j| + |x|, o) && CodeAt(prog, k + |z| + |j| + |x| + |o|, y)
    ensures CodeAt(prog, k + |z| + |j| + |x| + |o| + |y|, e)
  {
    hide CodeAt;
    CodeAtParts(prog, k, z + j + x + o + y, e);
    CodeAtParts(prog, k, z + j + x + o, y);
    FourParts(prog, k, z, j, x, o);
  }

  /** What typing, evaluation and soundness say of a conditional. */
  lemma CondMeans(e: Node, vt: Vars, env: Env)
    requires e.Cond? && WellTyped(e, vt) && Sound(e, env) && Eval(e, env).Some?
    ensures WellTyped(e.c, vt) && WellTyped(e.t, vt) && WellTyped(e.f, vt)
    ensures Eval(e.c, env).Some? && Sound(e.c, env) && Faithful(e.c, env)
    ensures var o := Eval(e.c, env).value;
            var arm := if o.val != 0 then e.t else e.f;
            Eval(arm, o.env) == Eval(e, env) && Reg(arm, o.env) == Reg(e, env) && Sound(arm, o.env)
  { hide Faithful; }

  lemma NeedCond(e: Node)
    requires e.Cond?
    ensures Need(e.c) <= Need(e) && Need(e.t) <= Need(e) && Need(e.f) <= Need(e)
  {}

  // ---------- Labels, frames, and the whole pipeline ----------

  /** Label numbers are used once: a tree's labels are distinct and lie in its own range. */
  lemma {:induction false} CompileLabels(e: Node, off: seq<int>, c: nat)
    ensures var d := Compile(e, off, c); c <= d.next && LabelsIn(d.ins, c, d.next) && UniqueLabels(d.ins)
    decreases e, 1
  {
    hide LabelsIn, UniqueLabels, AddrCode, LoadCode, StoreCode, CastCode, BinCode;
    match e {
      case Num(v, _) => Plain([MovImm(v)], c, c);
      case Var(v, t) => AddrPlain(Offset(off, v), t); Plain(AddrCode(Offset(off, v)) + LoadCode(t), c, c);
      case Assign(v, rhs, t) =>
        CompileLabels(rhs, off, c);
        var a := Compile(rhs, off, c);
        AddrPlain(Offset(off, v), t);
        Around(AddrCode(Offset(off, v)) + [PushX0], a.ins, StoreCode(t), c, a.next);
      case Cast(a, t) =>
        CompileLabels(a, off, c);
        CodePlain(TyOf(a), t, Add);
        After(Compile(a, off, c).ins, CastCode(TyOf(a), t), c, Compile(a, off, c).next);
      case Neg(a, _) => CompileLabels(a, off, c); After(Compile(a, off, c).ins, [NegX0], c, Compile(a, off, c).next);
      case BitNot(a, _) => CompileLabels(a, off, c); After(Compile(a, off, c).ins, [MvnX0], c, Compile(a, off, c).next);
      case Not(a) =>
        CompileLabels(a, off, c);
        After(Compile(a, off, c).ins, [CmpZero, Cset(EQ)], c, Compile(a, off, c).next);
      case Bin(op, l, r, t) =>
        CompileLabels(r, off, c);
        var y := Compile(r, off, c);
        CompileLabels(l, off, y.next);
        var x := Compile(l, off, y.next);
        After(y.ins, [PushX0], c, y.next);
        LabelsJoin(y.ins + [PushX0], x.ins, c, y.next, x.next);
        CodePlain(TyOf(l), t, op);
        After(y.ins + [PushX0] + x.ins, [PopX1], c, x.next);
        After(y.ins + [PushX0] + x.ins + [PopX1], BinCode(op, TyOf(l), t), c, x.next);
      case LogAnd(l, r) => LogLabels(e, l, r, off, c, EQ, LFalse, 0); assert AndTail(c) == LogTail(EQ, LFalse, c, 0);
      case LogOr(l, r) => LogLabels(e, l, r, off, c, NE, LTrue, 1); assert OrTail(c) == LogTail(NE, LTrue, c, 1);
      case Cond(_, _, _, _) => CondLabels(e, off, c);
      case Comma(l, r) =>
        CompileLabels(l, off, c);
        var x := Compile(l, off, c);
        CompileLabels(r, off, x.next);
        LabelsJoin(x.ins, Compile(r, off, x.next).ins, c, x.next, Compile(r, off, x.next).next);
    }
  }

  predicate NoLabels(code: seq<Instr>) { forall i :: 0 <= i < |code| ==> !code[i].Lab? }

  lemma Plain(code: seq<Instr>, lo: nat, hi: nat)
    requires NoLabels(code)
    ensures LabelsIn(code, lo, hi) && UniqueLabels(code)
  {}

  lemma AddrPlain(off: int, t: Ty)
    ensures NoLabels(AddrCode(off) + LoadCode(t)) && NoLabels(AddrCode(off) + [PushX0]) && NoLabels(StoreCode(t))
  {}

  lemma CodePlain(a: Ty, b: Ty, op: Op)
    ensures NoLabels(CastCode(a, b)) && NoLabels(BinCode(op, a, b))
  {}

  lemma After(a: seq<Instr>, b: seq<Instr>, lo: nat, hi: nat)
    requires lo <= hi && LabelsIn(a, lo, hi) && UniqueLabels(a) && NoLabels(b)
    ensures LabelsIn(a + b, lo, hi) && UniqueLabels(a + b)
  {}

  lemma Around(a: seq<Instr>, b: seq<Instr>, d: seq<Instr>, lo: nat, hi: nat)
    requires lo <= hi && LabelsIn(b, lo, hi) && UniqueLabels(b) && NoLabels(a) && NoLabels(d)
    ensures LabelsIn(a + b + d, lo, hi) && UniqueLabels(a + b + d)
  {}

  /** Appending code whose labels are all numbered c, below everything so far. */
  lemma JoinOwn(a: seq<Instr>, b: seq<Instr>, c: nat, hi: nat)
    requires c < hi && LabelsIn(a, c + 1, hi) && UniqueLabels(a) && LabelsIn(b, c, c + 1) && UniqueLabels(b)
    ensures LabelsIn(a + b, c, hi) && UniqueLabels(a + b)
  {}

  lemma LogLabels(e: Node, l: Node, r: Node, off: seq<int>, c: nat, cc: CondCode, kind: LabelKind, hit: int)
    requires kind != LEnd && (e == LogAnd(l, r) || e == LogOr(l, r))
    ensures var x := Compile(l, off, c + 1);
            var y := Compile(r, off, x.next);
            var code := x.ins + [CmpZero, BCond(cc, Label(kind, c))] + y.ins + LogTail(cc, kind, c, hit);
            c <= y.next && LabelsIn(code, c, y.next) && UniqueLabels(code)
    decreases e, 0
  {
    hide LabelsIn, UniqueLabels;
    CompileLabels(l, off, c + 1);
    var x := Compile(l, off, c + 1);
    CompileLabels(r, off, x.next);
    var y := Compile(r, off, x.next);
    var jump := [CmpZero, BCond(cc, Label(kind, c))];
    After(x.ins, jump, c + 1, x.next);
    LabelsJoin(x.ins + jump, y.ins, c + 1, x.next, y.next);
    TailLabels(cc, kind, c, hit);
    JoinOwn(x.ins + jump + y.ins, LogTail(cc, kind, c, hit), c, y.next);
  }

  lemma TailLabels(cc: CondCode, kind: LabelKind, c: nat, hit: int)
    requires kind != LEnd
    ensures LabelsIn(LogTail(cc, kind, c, hit), c, c + 1) && UniqueLabels(LogTail(cc, kind, c, hit))
  {}

  lemma CondLabels(e: Node, off: seq<int>, c: nat)
    requires e.Cond?
    ensures var d := Compile(e, off, c); c <= d.next && LabelsIn(d.ins, c, d.next) && UniqueLabels(d.ins)
    decreases e, 0
  {
    hide LabelsIn, UniqueLabels;
    CompileLabels(e.c, off, c + 1);
    var z := Compile(e.c, off, c + 1);
    CompileLabels(e.t, off, z.next);
    var x := Compile(e.t, off, z.next);
    CompileLabels(e.f, off, x.next);
    var y := Compile(e.f, off, x.next);
    var jump := [CmpZero, BCond(EQ, Label(LElse, c))];
    var other, end := [B(Label(LEnd, c)), Lab(Label(LElse, c))], [Lab(Label(LEnd, c))];
    After(z.ins, jump, c + 1, z.next);
    LabelsJoin(z.ins + jump, x.ins, c + 1, z.next, x.next);
    CondJoin(z.ins + jump + x.ins, other, y.ins, end, c, x.next, y.next);
  }

  lemma CondJoin(a: seq<Instr>, other: seq<Instr>, b: seq<Instr>, end: seq<Instr>, c: nat, mid: nat, hi: nat)
    requires c < mid <= hi && LabelsIn(a, c + 1, mid) && UniqueLabels(a) && LabelsIn(b, mid, hi) && UniqueLabels(b)
    requires other == [B(Label(LEnd, c)), Lab(Label(LElse, c))] && end == [Lab(Label(LEnd, c))]
    ensures LabelsIn(a + other + b + end, c, hi) && UniqueLabels(a + other + b + end)
  {}

  /** End to end: type an expression, compile it, run the code. For every expression C11 defines and
      whose evaluation meets no unfaithful zero test and no negative signed char on its way to unsigned
      short, x0 holds its C11 value, the locals are as C11 leaves them, the stack pointer is back and the
      rest of the caller's memory is untouched. */
  lemma CompilerCorrect(e: Raw, fr: Frame, c: nat, s: State, env: Env) returns (t: State)
    requires Promotable(e, fr.vt) && Sound(AddType(e, fr.vt), env)
    requires Ready(fr, env, s) && s.sp >= 16 * Need(AddType(e, fr.vt)) && s.pc == 0
    requires EvalC(e, fr.vt, env).Some?
    ensures var code := Compile(AddType(e, fr.vt), fr.off, c).ins;
            var o := EvalC(e, fr.vt, env).value;
            && Reach(code, s, t) && t.pc == |code|
            && Rel(CType(e, fr.vt), o.val, t.x0)
            && t.sp == s.sp && t.fp == s.fp
            && |fr.off| == |fr.vt| == |o.env| && Agrees(fr, o.env, s.fp, t.mem)
            && Kept(fr, s.fp, s.sp, s.mem, t.mem)
  {
    hide Eval, EvalC, Compile, AddType, WellTyped, Sound, Reg, Agrees, Kept, Need, UniqueLabels, Rel, FrameOk;
    var n := AddType(e, fr.vt);
    var code := Compile(n, fr.off, c).ins;
    AddTypeWellTyped(e, fr.vt);
    AddTypePreservesMeaning(e, fr.vt, env);
    CompileLabels(n, fr.off, c);
    assert code[0..0 + |code|] == code;
    t := Correct(n, fr, c, code, 0, s, env);
    RegHolds(n, fr.vt, env);
  }

  /** No condition on values is needed for a tree whose zero tests have operands of the right shape. */
  lemma ShapesSuffice(e: Raw, fr: Frame, env: Env)
    requires Promotable(e, fr.vt) && Compilable(AddType(e, fr.vt)) && EnvOk(fr.vt, env) && EvalC(e, fr.vt, env).Some?
    ensures Sound(AddType(e, fr.vt), env)
  {
    hide Eval, EvalC, AddType, WellTyped, Sound, Compilable;
    AddTypeWellTyped(e, fr.vt);
    AddTypePreservesMeaning(e, fr.vt, env);
    CompilableSound(AddType(e, fr.vt), fr.vt, env);
  }

  // ---------- Where the generator goes wrong ----------

  /** The jump that &&, || and ?: make on an operand of any shape: the code always gets there, and goes
      where C says exactly when the operand's register is faithful. */
  lemma BranchExact(a: Node, fr: Frame, c: nat, cc: CondCode, l: Label, prog: seq<Instr>, k: nat, s: State, env: Env) returns (t: State)
    requires Start(a, fr, c, prog, k, s, env) && (cc == EQ || cc == NE)
    requires CodeAt(prog, k, Compile(a, fr.off, c).ins + [CmpZero, BCond(cc, l)])
    requires FindLabel(prog, l) != k + |Compile(a, fr.off, c).ins| + 2
    ensures Reach(prog, s, t) && (t.pc == FindLabel(prog, l) || t.pc == k + |Compile(a, fr.off, c).ins| + 2)
    ensures (t.pc == FindLabel(prog, l) <==> (Eval(a, env).value.val == 0) == (cc == EQ)) <==> Faithful(a, env)
  {
    hide Reach, Run, CodeAt, FindLabel, LoadN, StoreN, Compare, AluValue, RegMod, Extend, Low, UniqueLabels;
    hide Agrees, Kept, FrameOk, InRange, Rel, Holds, Faithful, Reg, Eval, Sound, WellTyped, Compile;
    var x, jump := Compile(a, fr.off, c).ins, [CmpZero, BCond(cc, l)];
    CodeAtParts(prog, k, x, jump);
    var u := Correct(a, fr, c, prog, k, s, env);
    TestExact(a, fr.vt, env);
    t := OneStep(prog, k + |x|, jump, 0, s, u);
    t := OneStep(prog, k + |x|, jump, 1, s, t);
  }

  /** The flag that ! and a conversion to _Bool make of an operand of any shape: the C answer exactly when
      the operand's register is faithful. */
  lemma FlagExact(a: Node, fr: Frame, c: nat, cc: CondCode, prog: seq<Instr>, k: nat, s: State, env: Env) returns (t: State)
    requires Start(a, fr, c, prog, k, s, env) && (cc == EQ || cc == NE)
    requires CodeAt(prog, k, Compile(a, fr.off, c).ins + [CmpZero, Cset(cc)])
    ensures Reach(prog, s, t) && t.pc == k + |Compile(a, fr.off, c).ins| + 2
    ensures t.x0 == Flag((Eval(a, env).value.val == 0) == (cc == EQ)) <==> Faithful(a, env)
  {
    hide Reach, Run, CodeAt, FindLabel, LoadN, StoreN, Compare, AluValue, RegMod, Extend, Low, UniqueLabels;
    hide Agrees, Kept, FrameOk, InRange, Rel, Holds, Faithful, Reg, Eval, Sound, WellTyped, Compile;
    var x, tail := Compile(a, fr.off, c).ins, [CmpZero, Cset(cc)];
    CodeAtParts(prog, k, x, tail);
    var u := Correct(a, fr, c, prog, k, s, env);
    TestExact(a, fr.vt, env);
    t := OneStep(prog, k + |x|, tail, 0, s, u);
    t := OneStep(prog, k + |x|, tail, 1, s, t);
  }

  // ---------- Frame layout ----------

  function AlignTo(n: nat, align: nat): nat
    requires align > 0
  { (n + align - 1) / align * align }

  lemma AlignToBounds(n: nat, align: nat)
    requires align > 0
    ensures n <= AlignTo(n, align) < n + align && AlignTo(n, align) % align == 0
  {
    var q := (n + align - 1) / align;
    assert n + align - 1 == align * q + (n + align - 1) % align;
    assert q * align == align * q;
    ModUnique(align * q, align, q, 0);
  }

  /** A local as the parser leaves it; offset is nonzero only for a stack-passed parameter. */
  datatype Local = Local(size: nat, align: nat, offset: int)

  /** assign_lvar_offsets: locals without an offset get disjoint aligned slots below the frame
      pointer, all inside the frame size returned; the others keep theirs. */
  method AssignOffsets(locals: seq<Local>) returns (off: seq<int>, stackSize: nat)
    requires forall i :: 0 <= i < |locals| ==> locals[i].align > 0
    ensures |off| == |locals| && stackSize % 16 == 0
    ensures forall i :: 0 <= i < |off| && locals[i].offset != 0 ==> off[i] == locals[i].offset
    ensures forall i :: 0 <= i < |off| && locals[i].offset == 0 ==>
              0 - stackSize <= off[i] <= 0 - locals[i].size && off[i] % locals[i].align == 0
    ensures forall i, j :: 0 <= i < j < |off| && locals[i].offset == 0 && locals[j].offset == 0 ==>
              off[j] + locals[j].size <= off[i]
  {
    off := [];
    var bottom: nat := 0;
    for n := 0 to |locals|
      invariant |off| == n
      invariant forall i :: 0 <= i < n && locals[i].offset != 0 ==> off[i] == locals[i].offset
      invariant forall i :: 0 <= i < n && locals[i].offset == 0 ==>
                  0 - bottom <= off[i] <= 0 - locals[i].size && off[i] % locals[i].align == 0
      invariant forall i, j :: 0 <= i < j < n && locals[i].offset == 0 && locals[j].offset == 0 ==>
                  off[j] + locals[j].size <= off[i]
    {
      if locals[n].offset != 0 {
        off := off + [locals[n].offset];
      } else {
        AlignToBounds(bottom + locals[n].size, locals[n].align);
        bottom := AlignTo(bottom + locals[n].size, locals[n].align);
        off := off + [0 - bottom];
        ModUnique(0 - bottom, locals[n].align, 0 - bottom / locals[n].align, 0);
      }
    }
    AlignToBounds(bottom, 16);
    stackSize := AlignTo(bottom, 16);
  }

  /** The layout AssignOffsets computes meets the frame conditions the generated code relies on. */
  lemma OffsetsMakeFrame(vt: Vars, off: seq<int>, stackSize: nat, fp: int)
    requires |off| == |vt| && stackSize < 0x8000_0000 && stackSize <= fp < TWO64
    requires forall i :: 0 <= i < |off| ==> 0 - stackSize <= off[i] <= 0 - Size(vt[i])
    requires forall i, j :: 0 <= i < j < |off| ==> off[j] + Size(vt[j]) <= off[i]
    ensures FrameOk(Frame(off, vt, stackSize), fp, fp - stackSize)
  {}
}
