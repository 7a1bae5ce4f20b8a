/** The expression code generator: what it emits for a typed tree, and the generator
    object that appends it to the output while counting labels and stack depth. */
module Codegen {
  import opened Arith
  import opened CTypes
  import opened CAst
  import opened Machine

  /** Emitted code together with the next unused label number. */
  datatype Code = Code(ins: seq<Instr>, next: nat)

  function LoadConst(v: int): seq<Instr> {
    if v <= 65535 then [MovImm(v)] else [Movz(v % 0x1_0000), Movk(v / 0x1_0000 % 0x1_0000)]
  }

  function AddrCode(off: int): seq<Instr> {
    if 0 <= off <= 4095 then [AddFp(off)]
    else if -4095 <= off < 0 then [SubFp(-off)]
    else if off >= 0 then LoadConst(off) + [AddFpX0]
    else LoadConst(-off) + [SubFpX0]
  }

  function LoadCode(t: Ty): seq<Instr> { [Ldr(Size(t), Size(t) < 8 && !Unsigned(t))] }

  function StoreCode(t: Ty): seq<Instr> { [PopX1, Str(Size(t))] }

  /** Every kind without a row of its own, `_Bool` among them, indexes the U64 row. */
  function TypeId(t: Ty): Ty { if t == TBool then U64 else t }

  /** The integer quarter of the conversion table, row by row. */
  function CastTable(from: Ty, to: Ty): seq<Instr> {
    match from
    case I8 => (match to
                case I64 => [Sxt(4)] case U64 => [Sxt(4)] case U8 => [Uxt(1)] case _ => [])
    case I16 => (match to
                 case I8 => [Sxt(1)] case I64 => [Sxt(4)] case U64 => [Sxt(4)]
                 case U8 => [Uxt(1)] case U16 => [Uxt(2)] case _ => [])
    case I32 => (match to
                 case I8 => [Sxt(1)] case I16 => [Sxt(2)] case I64 => [Sxt(4)] case U64 => [Sxt(4)]
                 case U8 => [Uxt(1)] case U16 => [Uxt(2)] case U32 => [Uxt(4)] case _ => [])
    case U8 => (match to
                case I8 => [Sxt(1)] case I64 => [Uxt(4)] case U64 => [Uxt(4)] case _ => [])
    case U16 => (match to
                 case I8 => [Sxt(1)] case I16 => [Sxt(2)] case I64 => [Uxt(4)] case U64 => [Uxt(4)]
                 case U8 => [Uxt(1)] case _ => [])
    case U32 => (match to
                 case I8 => [Sxt(1)] case I16 => [Sxt(2)] case I64 => [Uxt(4)] case U64 => [Uxt(4)]
                 case U8 => [Uxt(1)] case U16 => [Uxt(2)] case _ => [])
    case _ => (match to  // I64, U64 and whatever shares their row
               case I8 => [Sxt(1)] case I16 => [Sxt(2)] case I32 => [Sxt(4)]
               case U8 => [Uxt(1)] case U16 => [Uxt(2)] case U32 => [Uxt(4)] case _ => [])
  }

  function CastCode(from: Ty, to: Ty): seq<Instr> {
    if to == TBool then [CmpZero, Cset(NE)] else CastTable(TypeId(from), TypeId(to))
  }

  /** What follows the pop of the right operand; lt is the operand type, t the result type. */
  function BinCode(op: Op, lt: Ty, t: Ty): seq<Instr> {
    var w := (if IsCompare(op) then Size(lt) else Size(t)) > 4;
    match op
    case Add => [Alu(AAdd, w)]
    case Sub => [Alu(ASub, w)]
    case Mul => [Alu(AMul, w)]
    case Div => [Alu(if Unsigned(t) then AUdiv else ASdiv, w)]
    case Mod => [AluX2(if Unsigned(t) then AUdiv else ASdiv, w), Msub(w)]
    case BitAnd => [Alu(AAnd, w)]
    case BitOr => [Alu(AOrr, w)]
    case BitXor => [Alu(AEor, w)]
    case Shl => [Alu(ALsl, w)]
    case Shr => [Alu(if Unsigned(t) then ALsr else AAsr, w)]
    case Eq => [CmpX1(w), Cset(EQ)]
    case Ne => [CmpX1(w), Cset(NE)]
    case Lt => [CmpX1(w), Cset(if Unsigned(lt) then LO else LT)]
    case Le => [CmpX1(w), Cset(if Unsigned(lt) then LS else LE)]
  }

  function AndTail(c: nat): seq<Instr> {
    [CmpZero, BCond(EQ, Label(LFalse, c)), MovImm(1), B(Label(LEnd, c)),
     Lab(Label(LFalse, c)), MovImm(0), Lab(Label(LEnd, c))]
  }

  function OrTail(c: nat): seq<Instr> {
    [CmpZero, BCond(NE, Label(LTrue, c)), MovImm(0), B(Label(LEnd, c)),
     Lab(Label(LTrue, c)), MovImm(1), Lab(Label(LEnd, c))]
  }

  function Offset(off: seq<int>, v: nat): int { if v < |off| then off[v] else 0 }

  /** Code for a tree; off gives each local's frame offset, c the next label number. */
  function Compile(e: Node, off: seq<int>, c: nat): Code {
    match e
    case Num(v, _) => Code([MovImm(v)], c)
    case Var(v, t) => Code(AddrCode(Offset(off, v)) + LoadCode(t), c)
    case Assign(v, rhs, t) =>
      var a := Compile(rhs, off, c);
      Code(AddrCode(Offset(off, v)) + [PushX0] + a.ins + StoreCode(t), a.next)
    case Cast(a, t) => var x := Compile(a, off, c); Code(x.ins + CastCode(TyOf(a), t), x.next)
    case Neg(a, _) => var x := Compile(a, off, c); Code(x.ins + [NegX0], x.next)
    case BitNot(a, _) => var x := Compile(a, off, c); Code(x.ins + [MvnX0], x.next)
    case Not(a) => var x := Compile(a, off, c); Code(x.ins + [CmpZero, Cset(EQ)], x.next)
    case Bin(op, l, r, t) =>
      var y := Compile(r, off, c);
      var x := Compile(l, off, y.next);
      Code(y.ins + [PushX0] + x.ins + [PopX1] + BinCode(op, TyOf(l), t), x.next)
    case LogAnd(l, r) =>
      var x := Compile(l, off, c + 1);
      var y := Compile(r, off, x.next);
      Code(x.ins + [CmpZero, BCond(EQ, Label(LFalse, c))] + y.ins + AndTail(c), y.next)
    case LogOr(l, r) =>
      var x := Compile(l, off, c + 1);
      var y := Compile(r, off, x.next);
      Code(x.ins + [CmpZero, BCond(NE, Label(LTrue, c))] + y.ins + OrTail(c), y.next)
    case Cond(q, a, b, _) =>
      var z := Compile(q, off, c + 1);
      var x := Compile(a, off, z.next);
      var y := Compile(b, off, x.next);
      Code(z.ins + [CmpZero, BCond(EQ, Label(LElse, c))] + x.ins
           + [B(Label(LEnd, c)), Lab(Label(LElse, c))] + y.ins + [Lab(Label(LEnd, c))], y.next)
    case Comma(l, r) =>
      var x := Compile(l, off, c);
      var y := Compile(r, off, x.next);
      Code(x.ins + y.ins, y.next)
  }

  // ---------- The generator object ----------

  /** Appending piecewise is appending the whole. */
  lemma Assoc(o: seq<Instr>, d: seq<Instr>, p: seq<Instr>)
    ensures o + d + p == o + (d + p)
  {}

  class Generator {
    var output: seq<Instr>
    var depth: int
    var counter: nat
    const off: seq<int>

    constructor (off: seq<int>)
      ensures output == [] && depth == 0 && counter == 1 && this.off == off
    {
      output, depth, counter := [], 0, 1;
      this.off := off;
    }

    method Emit(ins: seq<Instr>)
      modifies this`output
      ensures output == old(output) + ins
    { output := output + ins; }

    method Count() returns (c: nat)
      modifies this`counter
      ensures c == old(counter) && counter == c + 1
    {
      c := counter;
      counter := counter + 1;
    }

    method Push()
      modifies this`output, this`depth
      ensures output == old(output) + [PushX0] && depth == old(depth) + 1
    { Emit([PushX0]); depth := depth + 1; }

    method Pop()
      modifies this`output, this`depth
      ensures output == old(output) + [PopX1] && depth == old(depth) - 1
    { Emit([PopX1]); depth := depth - 1; }

    method Store(t: Ty)
      modifies this`output, this`depth
      ensures output == old(output) + StoreCode(t) && depth == old(depth) - 1
    {
      Pop();
      Emit([Str(Size(t))]);
      assert [PopX1] + [Str(Size(t))] == StoreCode(t);
    }

    /** Appends exactly the compiled code, uses label numbers in order and balances the stack. */
    method GenExpr(e: Node)
      modifies this
      ensures output == old(output) + Compile(e, off, old(counter)).ins
      ensures counter == Compile(e, off, old(counter)).next
      ensures depth == old(depth)
      decreases e, 1
    {
      match e {
        case Num(v, _) => Emit([MovImm(v)]);
        case Var(v, t) =>
          Emit(AddrCode(Offset(off, v)));
          Emit(LoadCode(t));
        case Assign(v, rhs, t) => GenAssign(v, rhs, t);
        case Cast(a, t) =>
          GenExpr(a);
          Emit(CastCode(TyOf(a), t));
        case Neg(a, _) => GenExpr(a); Emit([NegX0]);
        case BitNot(a, _) => GenExpr(a); Emit([MvnX0]);
        case Not(a) => GenExpr(a); Emit([CmpZero, Cset(EQ)]);
        case Bin(op, l, r, t) => GenBinary(op, l, r, t);
        case LogAnd(l, r) => GenLogAnd(l, r);
        case LogOr(l, r) => GenLogOr(l, r);
        case Cond(q, a, b, t) => GenCond(q, a, b, t);
        case Comma(l, r) =>
          GenExpr(l);
          GenExpr(r);
      }
    }

    method GenAssign(v: nat, rhs: Node, t: Ty)
      modifies this
      ensures output == old(output) + Compile(Assign(v, rhs, t), off, old(counter)).ins
      ensures counter == Compile(Assign(v, rhs, t), off, old(counter)).next
      ensures depth == old(depth)
      decreases Assign(v, rhs, t), 0
    {
      Emit(AddrCode(Offset(off, v)));
      Push();
      GenExpr(rhs);
      Store(t);
    }

    method GenBinary(op: Op, l: Node, r: Node, t: Ty)
      modifies this
      ensures output == old(output) + Compile(Bin(op, l, r, t), off, old(counter)).ins
      ensures counter == Compile(Bin(op, l, r, t), off, old(counter)).next
      ensures depth == old(depth)
      decreases Bin(op, l, r, t), 0
    {
      ghost var o, c := output, counter;
      GenExpr(r);
      ghost var d := Compile(r, off, c).ins;
      Push();
      Assoc(o, d, [PushX0]);
      d := d + [PushX0];
      c := counter;
      GenExpr(l);
      Assoc(o, d, Compile(l, off, c).ins);
      d := d + Compile(l, off, c).ins;
      Pop();
      Assoc(o, d, [PopX1]);
      d := d + [PopX1];
      Emit(BinCode(op, TyOf(l), t));
      Assoc(o, d, BinCode(op, TyOf(l), t));
    }

    method GenLogAnd(l: Node, r: Node)
      modifies this
      ensures output == old(output) + Compile(LogAnd(l, r), off, old(counter)).ins
      ensures counter == Compile(LogAnd(l, r), off, old(counter)).next
      ensures depth == old(depth)
      decreases LogAnd(l, r), 0
    {
      ghost var o := output;
      var c := Count();
      GenExpr(l);
      ghost var x := Compile(l, off, c + 1);
      var jump := [CmpZero, BCond(EQ, Label(LFalse, c))];
      Emit(jump);
      Assoc(o, x.ins, jump);
      GenExpr(r);
      ghost var y := Compile(r, off, x.next).ins;
      Assoc(o, x.ins + jump, y);
      Emit(AndTail(c));
      Assoc(o, x.ins + jump + y, AndTail(c));
    }

    method GenLogOr(l: Node, r: Node)
      modifies this
      ensures output == old(output) + Compile(LogOr(l, r), off, old(counter)).ins
      ensures counter == Compile(LogOr(l, r), off, old(counter)).next
      ensures depth == old(depth)
      decreases LogOr(l, r), 0
    {
      ghost var o := output;
      var c := Count();
      GenExpr(l);
      ghost var x := Compile(l, off, c + 1);
      var jump := [CmpZero, BCond(NE, Label(LTrue, c))];
      Emit(jump);
      Assoc(o, x.ins, jump);
      GenExpr(r);
      ghost var y := Compile(r, off, x.next).ins;
      Assoc(o, x.ins + jump, y);
      Emit(OrTail(c));
      Assoc(o, x.ins + jump + y, OrTail(c));
    }

    method GenCond(q: Node, a: Node, b: Node, t: Ty)
      modifies this
      ensures output == old(output) + Compile(Cond(q, a, b, t), off, old(counter)).ins
      ensures counter == Compile(Cond(q, a, b, t), off, old(counter)).next
      ensures depth == old(depth)
      decreases Cond(q, a, b, t), 0
    {
      ghost var o := output;
      var c := Count();
      GenExpr(q);
      ghost var z := Compile(q, off, c + 1);
      ghost var d := z.ins;
      var jump, other, end := [CmpZero, BCond(EQ, Label(LElse, c))],
                              [B(Label(LEnd, c)), Lab(Label(LElse, c))], [Lab(Label(LEnd, c))];
      Emit(jump);
      Assoc(o, d, jump);
      d := d + jump;
      GenExpr(a);
      ghost var x := Compile(a, off, z.next);
      Assoc(o, d, x.ins);
      d := d + x.ins;
      Emit(other);
      Assoc(o, d, other);
      d := d + other;
      GenExpr(b);
      Assoc(o, d, Compile(b, off, x.next).ins);
      d := d + Compile(b, off, x.next).ins;
      Emit(end);
      Assoc(o, d, end);
    }
  }

  // ---------- Labels ----------

  ghost predicate LabelsIn(code: seq<Instr>, lo: nat, hi: nat) {
    forall i :: 0 <= i < |code| && code[i].Lab? ==> lo <= code[i].name.id < hi
  }

  lemma LabelsJoin(a: seq<Instr>, b: seq<Instr>, lo: nat, mid: nat, hi: nat)
    requires lo <= mid <= hi
    requires LabelsIn(a, lo, mid) && UniqueLabels(a)
    requires LabelsIn(b, mid, hi) && UniqueLabels(b)
    ensures LabelsIn(a + b, lo, hi) && UniqueLabels(a + b)
  {
    var s := a + b;
    forall i, j | 0 <= i < j < |s| && s[i].Lab? && s[j].Lab? ensures s[i] != s[j] {
      if j < |a| {
        assert s[i] == a[i] && s[j] == a[j];
      } else if i >= |a| {
        assert s[i] == b[i - |a|] && s[j] == b[j - |a|];
      }
    }
  }
}
