/** The older InstructionTranslator: a single pass over a method's
    instruction list that keeps a plain operand stack of expressions, a list
    of statements and a map from slot to local variable. Each visit is a
    function from the translation state to the next state and the index of
    the node the pass continues after; java.util.Stack's pop on an empty
    stack and the null dereferences the visits can hit are the None result. */
module Translator {

  import opened Wrappers
  import opened Values
  import opened Expr
  import Nodes = Expr
  import Leaves
  import Text

  // Opcodes, numbered as in section 6.5 of the Java Virtual Machine Specification.
  const BIPUSH: int := 16
  const SIPUSH: int := 17
  const LDC: int := 18
  const ILOAD: int := 21
  const IINC: int := 132
  const GOTO: int := 167
  const NEWARRAY: int := 188

  /** IALOAD .. SALOAD: the instructions without operands whose mnemonic
      contains "LOAD". */
  predicate IsArrayLoad(op: int) { 46 <= op <= 53 }
  /** ACONST_NULL .. DCONST_1: mnemonic contains "CONST". */
  predicate IsConstant(op: int) { 1 <= op <= 15 }
  /** IRETURN .. RETURN: mnemonic contains "RETURN". */
  predicate IsReturn(op: int) { 172 <= op <= 177 }
  /** IADD .. LXOR. */
  predicate IsArithmetic(op: int) { 96 <= op <= 131 }
  /** ILOAD .. ALOAD: the variable instructions whose mnemonic ends in "LOAD". */
  predicate IsLoad(op: int) { 21 <= op <= 25 }
  /** ISTORE .. ASTORE: mnemonic ends in "STORE". */
  predicate IsStore(op: int) { 54 <= op <= 58 }
  /** IF_ICMPEQ .. IF_ACMPNE: compare two operands. */
  predicate IsCompareTwo(op: int) { 159 <= op <= 166 }
  /** IFEQ .. IFLE: compare one operand against zero. */
  predicate IsCompareZero(op: int) { 153 <= op <= 158 }

  /** The comparison a conditional jump's mnemonic names. */
  function CompareOperand(op: int): (r: Operand)
    requires IsCompareTwo(op) || IsCompareZero(op)
    ensures op == 159 || op == 165 || op == 153 <==> r == EQ
    ensures op == 160 || op == 166 || op == 154 <==> r == NE
    ensures r != AND && r != OR
  {
    var k := if IsCompareZero(op) then op - 153 else if op >= 165 then op - 165 else op - 159;
    [EQ, NE, LT, GE, GT, LE][k]
  }

  /** The constant of an LDC instruction. */
  datatype Constant =
    | IntConst(i: int)
    | FloatConst(f: string)
    | DoubleConst(d: string)
    | LongConst(l: int)
    | StringConst(s: string)
    | TypeConst(descriptor: string)

  /** One node of the instruction list. Nodes the older translator only
      prints (type, field, method, invokedynamic, switch, multianewarray,
      frame and line-number nodes) are Other. */
  datatype Insn =
    | Plain(opcode: int)
    | IntOperand(opcode: int, operand: int)
    | VarSlot(opcode: int, slot: int)
    | JumpTo(opcode: int, target: Label)
    | LabelAt(at: Label)
    | Ldc(cst: Constant)
    | Iinc(slot: int, incr: int)
    | Other(opcode: int)

  /** getOpcode(): a label node has -1. */
  function OpcodeOf(n: Insn): int {
    match n
    case Plain(op) => op
    case IntOperand(op, _) => op
    case VarSlot(op, _) => op
    case JumpTo(op, _) => op
    case LabelAt(_) => -1
    case Ldc(_) => LDC
    case Iinc(_, _) => IINC
    case Other(op) => op
  }

  datatype Statement = ExprStatement(e: Expr) | ReturnStatement(e: Expr)

  datatype Translation = Translation(stack: seq<Expr>, statements: seq<Statement>, locals: map<int, LocalVariable>)

  function Node(op: int, t: Option<DataType>, n: Node): Expr {
    Expr(Info(op, t, None, 0), n)
  }

  function Push(st: Translation, e: Expr): (r: Translation)
    ensures r.stack == st.stack + [e] && r.statements == st.statements && r.locals == st.locals
  {
    st.(stack := st.stack + [e])
  }

  // ----- visitInsnNode -----

  /** visitInsnNode. An array load pops the index, then the array reference,
      and pushes the access; a constant is pushed; a return pops into a
      return statement only when the stack holds exactly one entry; an
      arithmetic instruction with at least two entries pops the right, then
      the left operand and pushes the operation. Nothing else changes. */
  function VisitInsn(st: Translation, op: int): (r: Option<Translation>)
    ensures r.None? <==> IsArrayLoad(op) && |st.stack| < 2
    ensures r.Some? ==> r.value.locals == st.locals
    ensures IsArrayLoad(op) && r.Some? ==>
      var n := |st.stack|;
      && |r.value.stack| == n - 1 && r.value.stack[..n - 2] == st.stack[..n - 2]
      && r.value.stack[n - 2].node == ArrayAccess(st.stack[n - 1], st.stack[n - 2])
      && r.value.statements == st.statements
    ensures IsConstant(op) ==>
      && r.Some? && |r.value.stack| == |st.stack| + 1
      && r.value.stack[..|st.stack|] == st.stack && r.value.stack[|st.stack|].node == Primary(InsnConst(op))
      && r.value.statements == st.statements
    ensures IsReturn(op) && |st.stack| == 1 ==>
      r == Some(st.(stack := [], statements := st.statements + [ReturnStatement(st.stack[0])]))
    ensures IsArithmetic(op) && |st.stack| >= 2 ==>
      var n := |st.stack|;
      && r.Some? && |r.value.stack| == n - 1 && r.value.stack[..n - 2] == st.stack[..n - 2]
      && r.value.stack[n - 2].node == Arithmetic(st.stack[n - 2], st.stack[n - 1])
      && r.value.statements == st.statements
    ensures (!IsArrayLoad(op) && !IsConstant(op) && !(IsReturn(op) && |st.stack| == 1)
             && !(IsArithmetic(op) && |st.stack| >= 2)) ==> r == Some(st)
  {
    var n := |st.stack|;
    if IsArrayLoad(op) then
      if n < 2 then None
      else Some(st.(stack := st.stack[..n - 2] + [Node(op, None, ArrayAccess(st.stack[n - 1], st.stack[n - 2]))]))
    else if IsConstant(op) then
      Some(Push(st, Node(op, None, Primary(InsnConst(op)))))
    else if IsReturn(op) then
      if n == 1 then Some(st.(stack := [], statements := st.statements + [ReturnStatement(st.stack[0])]))
      else Some(st)
    else if IsArithmetic(op) && n >= 2 then
      Some(st.(stack := st.stack[..n - 2] + [Node(op, None, Arithmetic(st.stack[n - 2], st.stack[n - 1]))]))
    else Some(st)
  }

  // ----- visitIntInsnNode -----

  /** visitIntInsnNode: BIPUSH pushes its operand as an int constant, SIPUSH
      as a short constant; NEWARRAY pops the length and pushes the creation. */
  function VisitIntInsn(st: Translation, op: int, operand: int): (r: Option<Translation>)
    ensures r.None? <==> op == NEWARRAY && st.stack == []
    ensures r.Some? ==> r.value.locals == st.locals && r.value.statements == st.statements
    ensures op == BIPUSH || op == SIPUSH ==>
      r == Some(Push(st, Leaves.NewPrimary(op, IntValue(operand), Some(if op == BIPUSH then INT else SHORT))))
    ensures op == NEWARRAY && r.Some? ==>
      var n := |st.stack|;
      && |r.value.stack| == n && r.value.stack[..n - 1] == st.stack[..n - 1]
      && r.value.stack[n - 1].node == ArrayCreation(st.stack[n - 1], operand)
    ensures op != BIPUSH && op != SIPUSH && op != NEWARRAY ==> r == Some(st)
  {
    if op == BIPUSH then Some(Push(st, Leaves.NewPrimary(op, IntValue(operand), Some(INT))))
    else if op == SIPUSH then Some(Push(st, Leaves.NewPrimary(op, IntValue(operand), Some(SHORT))))
    else if op == NEWARRAY then
      if st.stack == [] then None
      else
        var n := |st.stack|;
        Some(st.(stack := st.stack[..n - 1] + [Node(op, None, ArrayCreation(st.stack[n - 1], operand))]))
    else Some(st)
  }

  // ----- visitVarInsnNode -----

  /** The name the older translator gives a slot it first meets in a store. */
  function SlotName(slot: int): string {
    "var" + Text.IntToString(slot)
  }

  /** visitVarInsnNode. A load pushes the slot's variable, typed as the
      variable; a load of a slot without a variable is a null dereference.
      A store pops the right side and appends one assignment statement; an
      unseen slot first gets a fresh local named "var" + slot, an untyped
      local takes the right side's type, and a local with a debug type imposes
      it on the right side. */
  function VisitVarInsn(st: Translation, op: int, slot: int): (r: Option<Translation>)
    ensures r.None? <==> (IsLoad(op) && slot !in st.locals) || (IsStore(op) && st.stack == [])
    ensures IsLoad(op) && r.Some? ==>
      r == Some(Push(st, Leaves.NewPrimary(op, VarValue(st.locals[slot]), st.locals[slot].v.typ)))
    ensures IsStore(op) && r.Some? ==>
      var n := |st.stack|;
      && r.value.stack == st.stack[..n - 1]
      && |r.value.statements| == |st.statements| + 1
      && r.value.statements[..|st.statements|] == st.statements
      && r.value.locals.Keys == st.locals.Keys + {slot}
      && (forall k :: k in st.locals && k != slot ==> r.value.locals[k] == st.locals[k])
      && var l := r.value.locals[slot];
         var a := r.value.statements[|st.statements|].e;
         && r.value.statements[|st.statements|].ExprStatement?
         && a.node.Assignment? && a.node.target == Some(l)
         && (slot !in st.locals ==> l.v.name == Some(SlotName(slot)) && !l.isArgument)
         && (slot in st.locals && Values.HasType(st.locals[slot].v) ==> l == st.locals[slot])
         && (slot in st.locals ==> l.v.name == st.locals[slot].v.name && l.index == st.locals[slot].index)
         && (!(slot in st.locals && Values.HasType(st.locals[slot].v)) ==> l.v.typ == GetType(st.stack[n - 1]))
         && (HasDebugType(l.v) ==> a.node.right == Nodes.SetType(st.stack[n - 1], l.v.typ))
         && (!HasDebugType(l.v) ==> a.node.right == st.stack[n - 1])
         && a.node.leftType == GetType(a.node.right)
    ensures !IsLoad(op) && !IsStore(op) ==> r == Some(st)
  {
    if IsLoad(op) then
      if slot !in st.locals then None
      else
        var l := st.locals[slot];
        Some(Push(st, Leaves.NewPrimary(op, VarValue(l), l.v.typ)))
    else if IsStore(op) then
      if st.stack == [] then None
      else
        var locals := if slot in st.locals then st.locals
          else st.locals[slot := PlainLocal(SlotName(slot), None, slot)];
        var n := |st.stack|;
        var right := st.stack[n - 1];
        var l0 := locals[slot];
        var l := if Values.HasType(l0.v) then l0 else l0.(v := Values.SetType(l0.v, GetType(right)));
        var right1 := if HasDebugType(l.v) then Nodes.SetType(right, l.v.typ) else right;
        var a := Node(op, None, Assignment(Some(l), GetType(right1), right1));
        Some(Translation(st.stack[..n - 1], st.statements + [ExprStatement(a)], locals[slot := l]))
    else Some(st)
  }

  // ----- visitJumpInsnNode -----

  /** The index of the first label node for l at or after from, or -1. */
  function NextLabelAt(code: seq<Insn>, from: nat, l: Label): (r: int)
    requires from <= |code|
    ensures r == -1 || (from <= r < |code| && code[r] == LabelAt(l))
    ensures r == -1 <==> forall k :: from <= k < |code| ==> code[k] != LabelAt(l)
    ensures r >= 0 ==> forall k :: from <= k < r ==> code[k] != LabelAt(l)
    decreases |code| - from
  {
    if from == |code| then -1
    else if code[from] == LabelAt(l) then from
    else NextLabelAt(code, from + 1, l)
  }

  /** visitJumpInsnNode. A two-operand conditional pops the right, then the
      left operand; a one-operand conditional pops the left and compares it
      against the int constant 0; either pushes the comparison and makes the
      pass skip the following node (there must be one). GOTO moves the pass to
      the label node of its target, past every node in between; without such
      a label it runs off the list. The comparison class is not part of this
      model: its jump is taken to go to the target label's identity. */
  function VisitJumpInsn(code: seq<Insn>, i: nat, st: Translation): (r: Option<(Translation, nat)>)
    requires i < |code| && code[i].JumpTo?
    ensures r.Some? ==> i <= r.value.1 < |code|
    ensures r.Some? ==> r.value.0.locals == st.locals && r.value.0.statements == st.statements
    ensures var op := code[i].opcode;
      IsCompareTwo(op) ==>
        && (r.None? <==> |st.stack| < 2 || i + 1 == |code|)
        && (r.Some? ==>
              var n := |st.stack|;
              && r.value.1 == i + 1
              && n >= 2 && |r.value.0.stack| == n - 1 && r.value.0.stack[..n - 2] == st.stack[..n - 2]
              && r.value.0.stack[n - 2].node.Compare?
              && r.value.0.stack[n - 2].node.left == st.stack[n - 2]
              && r.value.0.stack[n - 2].node.right == st.stack[n - 1]
              && r.value.0.stack[n - 2].node.op == CompareOperand(op))
    ensures var op := code[i].opcode;
      IsCompareZero(op) ==>
        && (r.None? <==> st.stack == [] || i + 1 == |code|)
        && (r.Some? ==>
              var n := |st.stack|;
              && r.value.1 == i + 1
              && n >= 1 && |r.value.0.stack| == n && r.value.0.stack[..n - 1] == st.stack[..n - 1]
              && r.value.0.stack[n - 1].node.Compare?
              && r.value.0.stack[n - 1].node.left == st.stack[n - 1]
              && r.value.0.stack[n - 1].node.right == Leaves.NewPrimary(0, IntValue(0), Some(INT))
              && r.value.0.stack[n - 1].node.op == CompareOperand(op))
    ensures code[i].opcode == GOTO ==>
      var k := NextLabelAt(code, i + 1, code[i].target);
      && (r.None? <==> k == -1)
      && (r.Some? ==> r.value == (st, k))
    ensures var op := code[i].opcode;
      !IsCompareTwo(op) && !IsCompareZero(op) && op != GOTO ==> r == Some((st, i))
  {
    var op := code[i].opcode;
    var n := |st.stack|;
    var j := NewJump(code[i].target.identity);
    if IsCompareTwo(op) then
      if n < 2 || i + 1 == |code| then None
      else
        var c := Node(op, None, Compare(CompareOperand(op), st.stack[n - 2], st.stack[n - 1], j));
        Some((st.(stack := st.stack[..n - 2] + [c]), i + 1))
    else if IsCompareZero(op) then
      if n == 0 || i + 1 == |code| then None
      else
        var zero := Leaves.NewPrimary(0, IntValue(0), Some(INT));
        var c := Node(op, None, Compare(CompareOperand(op), st.stack[n - 1], zero, j));
        Some((st.(stack := st.stack[..n - 1] + [c]), i + 1))
    else if op == GOTO then
      var k := NextLabelAt(code, i + 1, code[i].target);
      if k == -1 then None else Some((st, k))
    else Some((st, i))
  }

  // ----- visitLdcInsnNode -----

  /** The type name LDC gives a constant; a Type constant is named by
      Util.getType, a helper not part of this model and passed in. */
  function LdcTypeName(c: Constant, getType: string -> string): string {
    match c
    case IntConst(_) => "int"
    case FloatConst(_) => "float"
    case DoubleConst(_) => "double"
    case LongConst(_) => "long"
    case StringConst(_) => "String"
    case TypeConst(d) => getType(d)
  }

  function LdcValue(c: Constant): Value {
    match c
    case IntConst(i) => IntValue(i)
    case FloatConst(f) => OpaqueValue(f)
    case DoubleConst(d) => OpaqueValue(d)
    case LongConst(l) => IntValue(l)
    case StringConst(s) => StringValue(s)
    case TypeConst(d) => OpaqueValue(d)
  }

  /** visitLdcInsnNode: pushes exactly one constant, typed after the
      constant's class. */
  function VisitLdc(st: Translation, c: Constant, getType: string -> string): (r: Translation)
    ensures |r.stack| == |st.stack| + 1 && r.stack[..|st.stack|] == st.stack
    ensures r.statements == st.statements && r.locals == st.locals
    ensures var top := r.stack[|st.stack|];
      && top.node == Primary(LdcValue(c))
      && (c.IntConst? ==> GetType(top) == Some(INT))
      && (c.FloatConst? ==> GetType(top) == Some(FLOAT))
      && (c.DoubleConst? ==> GetType(top) == Some(DOUBLE))
      && (c.LongConst? ==> GetType(top) == Some(LONG))
      && (c.StringConst? ==> GetType(top) == Some(TypeFromName("String")))
      && (c.TypeConst? ==> GetType(top) == Some(TypeFromName(getType(c.descriptor))))
  {
    Push(st, Leaves.NewPrimary(LDC, LdcValue(c), Some(TypeFromName(LdcTypeName(c, getType)))))
  }

  // ----- visitIincInsnNode -----

  predicate AfterLoad(code: seq<Insn>, i: nat)
    requires i < |code|
  {
    i > 0 && OpcodeOf(code[i - 1]) == ILOAD
  }

  predicate BeforeLoad(code: seq<Insn>, i: nat)
    requires i < |code|
  {
    i + 1 < |code| && OpcodeOf(code[i + 1]) == ILOAD
  }

  function Counter(st: Translation, slot: int): Option<LocalVariable> {
    if slot in st.locals then Some(st.locals[slot]) else None
  }

  /** visitIincInsnNode. After an ILOAD the load is popped and a postfix
      increment pushed; otherwise before an ILOAD a prefix increment is pushed
      and that load is skipped; otherwise one assignment statement of the int
      constant increment is appended. Postfix wins when both neighbours load. */
  function VisitIinc(code: seq<Insn>, i: nat, st: Translation): (r: Option<(Translation, nat)>)
    requires i < |code| && code[i].Iinc?
    ensures r.Some? ==> i <= r.value.1 < |code| && r.value.0.locals == st.locals
    ensures r.None? <==> AfterLoad(code, i) && st.stack == []
    ensures AfterLoad(code, i) && r.Some? ==>
      var n := |st.stack|;
      && r.value.1 == i && r.value.0.statements == st.statements
      && r.value.0.stack == st.stack[..n - 1] + [Node(IINC, Some(INT), Unary(Counter(st, code[i].slot), true))]
    ensures !AfterLoad(code, i) && BeforeLoad(code, i) ==>
      r == Some((Push(st, Node(IINC, Some(INT), Unary(Counter(st, code[i].slot), false))), i + 1))
    ensures !AfterLoad(code, i) && !BeforeLoad(code, i) ==>
      && r.Some? && r.value.1 == i && r.value.0.stack == st.stack
      && r.value.0.statements == st.statements + [ExprStatement(Node(IINC, None,
           Assignment(Counter(st, code[i].slot), Some(INT), Leaves.NewPrimary(0, IntValue(code[i].incr), Some(INT)))))]
  {
    var v := Counter(st, code[i].slot);
    if AfterLoad(code, i) then
      if st.stack == [] then None
      else
        var n := |st.stack|;
        Some((st.(stack := st.stack[..n - 1] + [Node(IINC, Some(INT), Unary(v, true))]), i))
    else if BeforeLoad(code, i) then
      Some((Push(st, Node(IINC, Some(INT), Unary(v, false))), i + 1))
    else
      var a := Node(IINC, None, Assignment(v, Some(INT), Leaves.NewPrimary(0, IntValue(code[i].incr), Some(INT))));
      Some((st.(statements := st.statements + [ExprStatement(a)]), i))
  }

  // ----- the pass -----

  function WithIndex(r: Option<Translation>, i: nat): Option<(Translation, nat)> {
    if r.None? then None else Some((r.value, i))
  }

  /** visitCorrectNode: visits node i and gives the state and the index of the
      node the pass continues after (i itself unless the visit skipped ahead). */
  function Step(code: seq<Insn>, i: nat, st: Translation, getType: string -> string): (r: Option<(Translation, nat)>)
    requires i < |code|
    ensures r.Some? ==> i <= r.value.1 < |code|
  {
    match code[i]
    case Plain(op) => WithIndex(VisitInsn(st, op), i)
    case IntOperand(op, operand) => WithIndex(VisitIntInsn(st, op, operand), i)
    case VarSlot(op, slot) => WithIndex(VisitVarInsn(st, op, slot), i)
    case JumpTo(_, _) => VisitJumpInsn(code, i, st)
    case LabelAt(_) => Some((st, i))
    case Ldc(c) => Some((VisitLdc(st, c, getType), i))
    case Iinc(_, _) => VisitIinc(code, i, st)
    case Other(_) => Some((st, i))
  }

  /** The loop of addCode from node i on. */
  function Run(code: seq<Insn>, i: nat, st: Translation, getType: string -> string): Option<Translation>
    decreases |code| - i
  {
    if i >= |code| then Some(st)
    else match Step(code, i, st, getType)
      case None => None
      case Some((s, j)) => Run(code, j + 1, s, getType)
  }

  /** addCode's while loop: visit the node, continue after the node the
      visit answered, stop past the last node. It computes the pass. */
  method AddCodeLoop(code: seq<Insn>, st: Translation, getType: string -> string) returns (r: Option<Translation>)
    ensures r == Run(code, 0, st, getType)
  {
    var i: nat := 0;
    var cur := st;
    while i < |code|
      invariant Run(code, i, cur, getType) == Run(code, 0, st, getType)
      decreases |code| - i
    {
      var step := Step(code, i, cur, getType);
      RunUnfold(code, i, cur, getType);
      if step.None? {
        return None;
      }
      cur, i := step.value.0, step.value.1 + 1;
    }
    r := Some(cur);
  }

  /** One visit of the pass: a failed visit fails the pass, otherwise the
      pass goes on after the node the visit answered. */
  lemma RunUnfold(code: seq<Insn>, i: nat, st: Translation, getType: string -> string)
    requires i < |code|
    ensures Step(code, i, st, getType).None? ==> Run(code, i, st, getType).None?
    ensures Step(code, i, st, getType).Some? ==>
      var (s, j) := Step(code, i, st, getType).value;
      Run(code, i, st, getType) == Run(code, j + 1, s, getType)
  {
  }

  // ----- the stack-effect table -----

  /** How many entries instruction i needs on the stack. */
  function Needs(code: seq<Insn>, i: nat): nat
    requires i < |code|
  {
    match code[i]
    case Plain(op) => if IsArrayLoad(op) then 2 else 0
    case IntOperand(op, _) => if op == NEWARRAY then 1 else 0
    case VarSlot(op, _) => if IsStore(op) then 1 else 0
    case JumpTo(op, _) => if IsCompareTwo(op) then 2 else if IsCompareZero(op) then 1 else 0
    case Iinc(_, _) => if AfterLoad(code, i) then 1 else 0
    case _ => 0
  }

  /** The change of stack depth instruction i makes at the given depth. */
  function Effect(code: seq<Insn>, i: nat, depth: nat): int
    requires i < |code|
  {
    match code[i]
    case Plain(op) =>
      if IsArrayLoad(op) then -1
      else if IsConstant(op) then 1
      else if IsReturn(op) then (if depth == 1 then -1 else 0)
      else if IsArithmetic(op) && depth >= 2 then -1
      else 0
    case IntOperand(op, _) => if op == BIPUSH || op == SIPUSH then 1 else 0
    case VarSlot(op, _) => if IsLoad(op) then 1 else if IsStore(op) then -1 else 0
    case JumpTo(op, _) => if IsCompareTwo(op) then -1 else 0
    case Ldc(_) => 1
    case Iinc(_, _) => if !AfterLoad(code, i) && BeforeLoad(code, i) then 1 else 0
    case _ => 0
  }

  /** How many statements instruction i emits at the given depth. */
  function Emits(code: seq<Insn>, i: nat, depth: nat): nat
    requires i < |code|
  {
    match code[i]
    case Plain(op) => if IsReturn(op) && depth == 1 then 1 else 0
    case VarSlot(op, _) => if IsStore(op) then 1 else 0
    case Iinc(_, _) => if !AfterLoad(code, i) && !BeforeLoad(code, i) then 1 else 0
    case _ => 0
  }

  /** The node after which the pass continues: the next node is skipped after
      a conditional jump and after a prefix increment, a GOTO continues at its
      label. */
  function Resume(code: seq<Insn>, i: nat): int
    requires i < |code|
  {
    match code[i]
    case JumpTo(op, l) =>
      if IsCompareTwo(op) || IsCompareZero(op) then i + 1
      else if op == GOTO then NextLabelAt(code, i + 1, l)
      else i
    case Iinc(_, _) => if !AfterLoad(code, i) && BeforeLoad(code, i) then i + 1 else i
    case _ => i
  }

  /** The ways a visit fails: too few entries, a load of a slot without a
      variable, a conditional jump as the last node, a GOTO whose label does
      not follow it. */
  predicate Fails(code: seq<Insn>, i: nat, st: Translation)
    requires i < |code|
  {
    || |st.stack| < Needs(code, i)
    || (code[i].VarSlot? && IsLoad(code[i].opcode) && code[i].slot !in st.locals)
    || (code[i].JumpTo? && (IsCompareTwo(code[i].opcode) || IsCompareZero(code[i].opcode)) && i + 1 == |code|)
    || (code[i].JumpTo? && code[i].opcode == GOTO && NextLabelAt(code, i + 1, code[i].target) == -1)
  }

  /** Every visit agrees with the table: it fails exactly in the listed ways,
      and otherwise changes the depth by Effect, appends Emits statements and
      continues after Resume. */
  lemma StepTable(code: seq<Insn>, i: nat, st: Translation, getType: string -> string)
    requires i < |code|
    ensures Step(code, i, st, getType).None? <==> Fails(code, i, st)
    ensures Step(code, i, st, getType).Some? ==>
      var (s, j) := Step(code, i, st, getType).value;
      && |s.stack| == |st.stack| + Effect(code, i, |st.stack|)
      && |s.statements| == |st.statements| + Emits(code, i, |st.stack|)
      && s.statements[..|st.statements|] == st.statements
      && j == Resume(code, i)
  {
    if code[i].Plain? {
      PlainAgrees(code, i, st, getType);
    } else if code[i].IntOperand? {
      IntOperandAgrees(code, i, st, getType);
    } else if code[i].VarSlot? {
      VarSlotAgrees(code, i, st, getType);
    } else if code[i].JumpTo? || code[i].Iinc? {
      JumpVisitsAgree(code, i, st, getType);
    } else {
      OtherVisitsAgree(code, i, st, getType);
    }
  }

  /** The conclusion of StepTable for node i. */
  ghost predicate AgreesWithTable(code: seq<Insn>, i: nat, st: Translation, getType: string -> string)
    requires i < |code|
  {
    && (Step(code, i, st, getType).None? <==> Fails(code, i, st))
    && (Step(code, i, st, getType).Some? ==>
          var (s, j) := Step(code, i, st, getType).value;
          && |s.stack| == |st.stack| + Effect(code, i, |st.stack|)
          && |s.statements| == |st.statements| + Emits(code, i, |st.stack|)
          && s.statements[..|st.statements|] == st.statements
          && j == Resume(code, i))
  }

  lemma PlainAgrees(code: seq<Insn>, i: nat, st: Translation, getType: string -> string)
    requires i < |code| && code[i].Plain?
    ensures AgreesWithTable(code, i, st, getType)
  {
  }

  lemma IntOperandAgrees(code: seq<Insn>, i: nat, st: Translation, getType: string -> string)
    requires i < |code| && code[i].IntOperand?
    ensures AgreesWithTable(code, i, st, getType)
  {
  }

  lemma VarSlotAgrees(code: seq<Insn>, i: nat, st: Translation, getType: string -> string)
    requires i < |code| && code[i].VarSlot?
    ensures AgreesWithTable(code, i, st, getType)
  {
  }

  lemma JumpVisitsAgree(code: seq<Insn>, i: nat, st: Translation, getType: string -> string)
    requires i < |code| && (code[i].JumpTo? || code[i].Iinc?)
    ensures AgreesWithTable(code, i, st, getType)
  {
    match code[i]
    case JumpTo(op, _) =>
    case Iinc(_, _) =>
  }

  lemma OtherVisitsAgree(code: seq<Insn>, i: nat, st: Translation, getType: string -> string)
    requires i < |code| && (code[i].LabelAt? || code[i].Ldc? || code[i].Other?)
    ensures AgreesWithTable(code, i, st, getType)
  {
  }

  /** GOTO continues the pass after its label: running from a GOTO is running
      from the node after the label, with nothing in between visited. */
  lemma GotoSkips(code: seq<Insn>, i: nat, st: Translation, getType: string -> string)
    requires i < |code| && code[i].JumpTo? && code[i].opcode == GOTO
    requires NextLabelAt(code, i + 1, code[i].target) >= 0
    ensures var k := NextLabelAt(code, i + 1, code[i].target);
      Run(code, i, st, getType) == Run(code, k + 1, st, getType)
  {
    var k := NextLabelAt(code, i + 1, code[i].target);
    assert Step(code, i, st, getType) == VisitJumpInsn(code, i, st);
    assert Step(code, i, st, getType) == Some((st, k));
    RunUnfold(code, i, st, getType);
  }

  /** The pass only appends statements, and never changes the keys of the
      local map except by adding slots. */
  lemma {:induction false} RunExtends(code: seq<Insn>, i: nat, st: Translation, getType: string -> string)
    ensures Run(code, i, st, getType).Some? ==>
      var s := Run(code, i, st, getType).value;
      && |st.statements| <= |s.statements| && s.statements[..|st.statements|] == st.statements
      && st.locals.Keys <= s.locals.Keys
    decreases |code| - i
  {
    if i < |code| {
      match Step(code, i, st, getType)
      case None =>
      case Some((s1, j)) =>
        StepTable(code, i, st, getType);
        assert st.locals.Keys <= s1.locals.Keys by {
          match code[i]
          case Plain(op) =>
          case IntOperand(op, _) =>
          case VarSlot(op, _) =>
          case JumpTo(op, _) =>
          case LabelAt(_) =>
          case Ldc(_) =>
          case Iinc(_, _) =>
          case Other(_) =>
        }
        RunExtends(code, j + 1, s1, getType);
        var s := Run(code, j + 1, s1, getType);
        if s.Some? {
          assert s.value.statements[..|s1.statements|] == s1.statements;
          assert s1.statements[..|st.statements|] == st.statements;
          assert s.value.statements[..|st.statements|] == s1.statements[..|st.statements|];
        }
    }
  }

  // ----- local variables -----

  /** copyLocalVariables: one local per debug entry, a later entry for the
      same slot replacing an earlier one. */
  function DebugLocals(entries: seq<LocalVariable>): (r: map<int, LocalVariable>)
    ensures r.Keys == set k | 0 <= k < |entries| :: entries[k].index
    ensures forall k :: 0 <= k < |entries| ==> entries[k].index in r
  {
    if entries == [] then map[]
    else
      var last := entries[|entries| - 1];
      var prior := DebugLocals(entries[..|entries| - 1]);
      assert forall k :: 0 <= k < |entries| - 1 ==> entries[..|entries| - 1][k] == entries[k];
      prior[last.index := last]
  }

  /** The constructor's local map: the debug locals, then the arguments put
      over them. */
  function InitialLocals(entries: seq<LocalVariable>, arguments: map<int, LocalVariable>): (r: map<int, LocalVariable>)
    ensures r.Keys == DebugLocals(entries).Keys + arguments.Keys
    ensures forall k :: k in arguments ==> r[k] == arguments[k]
    ensures forall k :: k in r && k !in arguments ==> r[k] == DebugLocals(entries)[k]
  {
    DebugLocals(entries) + arguments
  }

  /** A non-empty set of slots has a least element. */
  lemma {:induction false} LeastExists(s: set<int>)
    requires s != {}
    ensures exists m :: m in s && forall x :: x in s ==> m <= x
    decreases |s|
  {
    assert (forall x :: x !in s) ==> s == {};
    var x :| x in s;
    if s != {x} {
      LeastExists(s - {x});
      var m :| m in s - {x} && forall y :: y in s - {x} ==> m <= y;
      assert forall y :: y in s ==> y == x || y in s - {x};
      if x < m {
        assert forall y :: y in s ==> x <= y;
      } else {
        assert forall y :: y in s ==> m <= y;
      }
    } else {
      assert forall y :: y in s ==> x <= y;
    }
  }

  /** The least element of a non-empty set of slots. */
  function Least(s: set<int>): (m: int)
    requires s != {}
    ensures m in s && forall x :: x in s ==> m <= x
  {
    LeastExists(s);
    var m :| m in s && forall x :: x in s ==> m <= x;
    m
  }

  /** The slots of a set in ascending order. */
  function Ascending(s: set<int>): (r: seq<int>)
    ensures |r| == |s|
    ensures forall x :: x in s <==> x in r
    ensures forall a, b :: 0 <= a < b < |r| ==> r[a] < r[b]
    decreases |s|
  {
    if s == {} then []
    else
      var m := Least(s);
      [m] + Ascending(s - {m})
  }

  /** The declaration statements of the non-argument locals among the slots,
      in order. */
  function Declarations(locals: map<int, LocalVariable>, slots: seq<int>): (r: seq<Statement>)
    requires forall k :: 0 <= k < |slots| ==> slots[k] in locals
    ensures |r| <= |slots|
    ensures forall k :: 0 <= k < |r| ==>
      && r[k].ExprStatement? && r[k].e.node.VarDecl?
      && r[k].e == Leaves.NewVarDecl(r[k].e.node.declared)
      && !r[k].e.node.declared.isArgument
      && r[k].e.node.declared in locals.Values
    ensures forall k :: 0 <= k < |slots| && !locals[slots[k]].isArgument ==>
      ExprStatement(Leaves.NewVarDecl(locals[slots[k]])) in r
  {
    if slots == [] then []
    else
      var l := locals[slots[0]];
      var rest := Declarations(locals, slots[1..]);
      assert l in locals.Values;
      assert forall k :: 1 <= k < |slots| ==> slots[k] == slots[1..][k - 1];
      if l.isArgument then rest else [ExprStatement(Leaves.NewVarDecl(l))] + rest
  }

  /** Every statement of ds declares a local of locals that is not an
      argument. */
  predicate DeclaresLocals(locals: map<int, LocalVariable>, ds: seq<Statement>) {
    forall k :: 0 <= k < |ds| ==>
      && ds[k].ExprStatement? && ds[k].e.node.VarDecl?
      && !ds[k].e.node.declared.isArgument
      && ds[k].e.node.declared in locals.Values
  }

  /** Every local of locals that is not an argument has its declaration in ds. */
  predicate CoversLocals(locals: map<int, LocalVariable>, ds: seq<Statement>) {
    forall s :: s in locals && !locals[s].isArgument ==> ExprStatement(Leaves.NewVarDecl(locals[s])) in ds
  }

  /** all is rest with declarations in front: every one declares a local
      that is not an argument, and every such local is declared. */
  predicate DeclaredBefore(locals: map<int, LocalVariable>, all: seq<Statement>, rest: seq<Statement>) {
    && |rest| <= |all|
    && all[|all| - |rest|..] == rest
    && DeclaresLocals(locals, all[..|all| - |rest|])
    && CoversLocals(locals, all[..|all| - |rest|])
  }

  /** The declarations of all slots in ascending order declare exactly the
      locals that are not arguments. */
  lemma AscendingDeclarations(locals: map<int, LocalVariable>)
    ensures DeclaresLocals(locals, Declarations(locals, Ascending(locals.Keys)))
    ensures CoversLocals(locals, Declarations(locals, Ascending(locals.Keys)))
  {
    var slots := Ascending(locals.Keys);
    var ds := Declarations(locals, slots);
    forall s | s in locals && !locals[s].isArgument
      ensures ExprStatement(Leaves.NewVarDecl(locals[s])) in ds
    {
      assert s in slots;
      var k :| 0 <= k < |slots| && slots[k] == s;
    }
  }

  lemma PrependDeclared(locals: map<int, LocalVariable>, ds: seq<Statement>, rest: seq<Statement>)
    requires DeclaresLocals(locals, ds) && CoversLocals(locals, ds)
    ensures DeclaredBefore(locals, ds + rest, rest)
  {
    assert (ds + rest)[|ds|..] == rest;
    assert (ds + rest)[..|ds|] == ds;
  }

  /** addLocalVariablesAssignments: one declaration per local that is not an
      argument, ascending by slot, inserted before all other statements. */
  function AddDeclarations(st: Translation): (r: Translation)
    ensures r.stack == st.stack && r.locals == st.locals
    ensures DeclaredBefore(st.locals, r.statements, st.statements)
  {
    var decls := Declarations(st.locals, Ascending(st.locals.Keys));
    AscendingDeclarations(st.locals);
    PrependDeclared(st.locals, decls, st.statements);
    st.(statements := decls + st.statements)
  }

  /** The whole older translation of a method: the locals from debug
      information and the arguments, the pass over the instruction list
      appended to the given statements, then the declarations in front. */
  function Translate(entries: seq<LocalVariable>, arguments: map<int, LocalVariable>, statements: seq<Statement>,
                     code: seq<Insn>, getType: string -> string): (r: Option<Translation>)
    ensures r.Some? ==> InitialLocals(entries, arguments).Keys <= r.value.locals.Keys
    ensures r.Some? ==> |statements| <= |r.value.statements|
  {
    var st := Translation([], statements, InitialLocals(entries, arguments));
    match Run(code, 0, st, getType)
    case None => None
    case Some(s) =>
      RunExtends(code, 0, st, getType);
      Some(AddDeclarations(s))
  }
}
