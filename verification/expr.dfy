/** The expression tree of the translator (com.thesis.expression): one
    datatype variant per node class, the stack items that hold nodes, and the
    operations every node offers: type, stack preparation and rendering. */
module Expr {

  import opened Wrappers
  import opened Values
  import Text

  /** Operators of conditional nodes: the two short-circuit gates and the
      six comparisons. */
  datatype Operand = AND | OR | EQ | NE | LT | GE | GT | LE

  /** Operand.neg: each operator's logical complement (Operand's own class is
      not part of this model; this is the complement De Morgan needs). */
  function Neg(op: Operand): (r: Operand)
    ensures r != op
    ensures (op == AND <==> r == OR) && (op == OR <==> r == AND)
  {
    match op
    case AND => OR
    case OR => AND
    case EQ => NE
    case NE => EQ
    case LT => GE
    case GE => LT
    case GT => LE
    case LE => GT
  }

  lemma NegInvolution(op: Operand)
    ensures Neg(Neg(op)) == op
  {
  }

  function OperandText(op: Operand): string {
    match op
    case AND => "&&"
    case OR => "||"
    case EQ => "=="
    case NE => "!="
    case LT => "<"
    case GE => ">="
    case GT => ">"
    case LE => "<="
  }

  datatype LoopType = NoLoop | WhileLoop | DoWhile | ForLoop

  /** The state every jump node (JumpExpression) carries: destination label
      id, the conditional destination, the then/else sub-stacks (null until
      built), branch boundaries, the loop start frame and the loop shape. */
  datatype Jump = Jump(
    dest: int,
    condDest: int,
    thenBranch: SubStack,
    elseBranch: SubStack,
    thenStart: int,
    elseEnd: int,
    startFrame: int,
    loopType: LoopType)

  const NOT_SET: int := -1

  /** A freshly built jump towards dest: no branches, no boundaries, no loop.
      (The JumpExpression constructor is not part of this model.) */
  function NewJump(dest: int): (j: Jump)
    ensures j.dest == dest && j.thenBranch.NullStack? && j.elseBranch.NullStack?
  {
    Jump(dest, dest, NullStack, NullStack, NOT_SET, NOT_SET, NOT_SET, NoLoop)
  }

  predicate IsLoop(j: Jump) {
    j.loopType != NoLoop
  }

  /** A sub-stack slot of a node: null until the translator builds it, or
      the entries of the sub-stack in push order. */
  datatype SubStack = NullStack | StackOf(items: seq<Item>) {

    /** The entries, an absent stack counting as empty. */
    function Entries(): seq<Item> {
      if NullStack? then [] else items
    }

    /** Absent or holding no entries (the source's `s == null || s.isEmpty()`). */
    predicate IsEmptyOrNull() {
      NullStack? || items == []
    }
  }

  /** One operand-stack entry: the node, and the label id and line number that
      were current when it was pushed. */
  datatype Item = Item(expr: Expr, labelId: int, line: int)

  /** Fields common to all nodes (Expression). */
  datatype Info = Info(opCode: int, typ: Option<DataType>, castType: Option<DataType>, line: int)

  /** The value of a constant node (PrimaryExpression.mValue). */
  datatype Value =
    | IntValue(i: int)
    | StringValue(s: string)
    | TypeValue(t: DataType)
    | VarValue(local: LocalVariable)
    | InsnConst(opcode: int)
    | OpaqueValue(text: string)
    | NullValue

  /** One argument of a dynamic call site's bootstrap invocation. */
  datatype LambdaArg =
    | RawArg(text: string)
    | StringArg(s: string)
    | ClassArg(t: DataType)
    | MethodTypeArg(types: seq<DataType>)
    | HandleArg(findMethod: string, owner: DataType, name: string, types: seq<DataType>)

  /** TryExpression.CatchExpression: handler label, caught type, handler body. */
  datatype Catch = Catch(handler: int, typ: Option<DataType>, stack: SubStack)

  datatype Expr = Expr(info: Info, node: Node)

  datatype Node =
    | Primary(value: Value)
    | Unary(counter: Option<LocalVariable>, postfix: bool)
    | Assignment(target: Option<LocalVariable>, leftType: Option<DataType>, right: Expr)
    | ArrayAccess(index: Expr, arrayRef: Expr)
    | ArrayCreation(length: Expr, elemCode: int)
    | Arithmetic(left: Expr, right: Expr)
    | Compare(op: Operand, left: Expr, right: Expr, jump: Jump)
    | Gate(op: Operand, gl: Expr, gr: Expr, jump: Jump)
    | Ternary(cond: Expr, jump: Jump)
    | Goto(jump: Jump)
    | Break(jump: Jump)
    | Continue(jump: Jump)
    | Monitor(sync: Option<Expr>, block: SubStack)
    | TryCatch(tryStack: SubStack, finallyStack: SubStack, catches: seq<Catch>)
    | InstanceOf(object: Option<Expr>, cls: DataType)
    | VarDecl(declared: LocalVariable)
    | Lambda(owner: DataType, name: string, args: seq<LambdaArg>, methodArgs: seq<DataType>)
    | Invocation(isConstructor: bool, name: string, desc: string, ownerName: string, caller: string, enclosing: Option<DataType>)

  const MONITORENTER: int := 194
  const MONITOREXIT: int := 195

  /** ConditionalExpression and its subclasses. */
  predicate IsConditional(e: Expr) {
    e.node.Compare? || e.node.Gate? || e.node.Ternary?
  }

  /** JumpExpression and its subclasses. BreakExpression and
      ContinueExpression wrap a jump but are not jump nodes themselves. */
  predicate IsJump(e: Expr) {
    IsConditional(e) || e.node.Goto?
  }

  function JumpOf(e: Expr): Jump
    requires IsJump(e)
  {
    match e.node
    case Compare(_, _, _, j) => j
    case Gate(_, _, _, j) => j
    case Ternary(_, j) => j
    case Goto(j) => j
  }

  /** The same node with its jump state replaced. */
  function WithJump(e: Expr, j: Jump): (r: Expr)
    requires IsJump(e)
    ensures IsJump(r) && JumpOf(r) == j && r.info == e.info
    ensures IsConditional(r) == IsConditional(e) && r.node.Goto? == e.node.Goto?
  {
    match e.node
    case Compare(op, l, r, _) => e.(node := Compare(op, l, r, j))
    case Gate(op, l, r, _) => e.(node := Gate(op, l, r, j))
    case Ternary(c, _) => e.(node := Ternary(c, j))
    case Goto(_) => e.(node := Goto(j))
  }

  /** negate(): a comparison flips its operator; a logic gate negates both
      operands and flips its operator (De Morgan). Other nodes keep their
      state (their negate is not part of this model). */
  function Negate(e: Expr): (r: Expr)
    ensures r.info == e.info
    ensures IsJump(r) == IsJump(e) && IsConditional(r) == IsConditional(e)
    ensures IsJump(e) ==> JumpOf(r) == JumpOf(e)
    ensures e.node.Compare? ==> r.node.Compare? && r.node.op == Neg(e.node.op)
    ensures e.node.Gate? ==> r.node.Gate? && r.node.op == Neg(e.node.op)
  {
    match e.node
    case Compare(op, l, r, j) => e.(node := Compare(Neg(op), l, r, j))
    case Gate(op, l, r, j) => e.(node := Gate(Neg(op), Negate(l), Negate(r), j))
    case _ => e
  }

  /** Negating twice restores the node exactly. */
  lemma {:induction false} NegateInvolution(e: Expr)
    ensures Negate(Negate(e)) == e
  {
    match e.node
    case Gate(op, l, r, j) =>
      NegateInvolution(l);
      NegateInvolution(r);
    case _ =>
  }

  // ----- common Expression members -----

  /** Expression.hasType: tests the type field, not getType(). */
  predicate HasType(e: Expr) {
    IsKnown(e.info.typ)
  }

  /** isVirtual: only a monitor without a synchronized block is virtual. */
  predicate IsVirtual(e: Expr) {
    e.node.Monitor? && e.node.block.NullStack?
  }

  /** setType; PrimaryExpression also retypes a variable it wraps. */
  function SetType(e: Expr, t: Option<DataType>): (r: Expr)
    ensures r.info == e.info.(typ := t)
    ensures !e.node.Primary? ==> r.node == e.node
    ensures e.node.Primary? && e.node.value.VarValue? ==>
      r.node == Primary(VarValue(e.node.value.local.(v := Values.SetType(e.node.value.local.v, t))))
    ensures e.node.Primary? && !e.node.value.VarValue? ==> r.node == e.node
  {
    var n := if e.node.Primary? && e.node.value.VarValue?
      then Primary(VarValue(e.node.value.local.(v := Values.SetType(e.node.value.local.v, t))))
      else e.node;
    Expr(e.info.(typ := t), n)
  }

  function SetCastType(e: Expr, t: Option<DataType>): (r: Expr)
    ensures r.node == e.node && r.info == e.info.(castType := t)
  {
    e.(info := e.info.(castType := t))
  }

  function SetLine(e: Expr, line: int): (r: Expr)
    ensures r.node == e.node && r.info == e.info.(line := line)
  {
    e.(info := e.info.(line := line))
  }

  function SetOpCode(e: Expr, op: int): (r: Expr)
    ensures r.node == e.node && r.info == e.info.(opCode := op)
  {
    e.(info := e.info.(opCode := op))
  }

  /** getType() per node class. */
  function GetType(e: Expr): (r: Option<DataType>)
    ensures e.node.InstanceOf? ==> r == Some(BOOLEAN)
    ensures e.node.Monitor? || e.node.TryCatch? ==> r.None?
    ensures e.node.VarDecl? ==> r == e.node.declared.v.typ
    ensures e.node.Ternary? ==> r == GetType(e.node.cond)
    ensures !(e.node.InstanceOf? || e.node.Monitor? || e.node.TryCatch? || e.node.VarDecl? || e.node.Ternary?) ==>
      r == e.info.typ
  {
    match e.node
    case InstanceOf(_, _) => Some(BOOLEAN)
    case Monitor(_, _) => None
    case TryCatch(_, _, _) => None
    case VarDecl(l) => l.v.typ
    case Ternary(c, _) => GetType(c)
    case _ => e.info.typ
  }

  function IsMonitorEnter(e: Expr): (r: bool)
    requires e.node.Monitor?
    ensures r <==> e.info.opCode == MONITORENTER
  {
    e.info.opCode == MONITORENTER
  }

  /** setSynchronizedBlock: a monitor adopts the try stack of the try/catch
      node that follows it; it stays virtual exactly when that stack is null. */
  function SetSynchronizedBlock(m: Expr, t: Expr): (r: Expr)
    requires m.node.Monitor? && t.node.TryCatch?
    ensures r.node.Monitor? && r.info == m.info && r.node.sync == m.node.sync
    ensures r.node.block == t.node.tryStack
    ensures IsVirtual(r) <==> t.node.tryStack.NullStack?
  {
    m.(node := m.node.(block := t.node.tryStack))
  }

  // ----- stack preparation -----

  /** ExpressionStack.pop on a raw item sequence: the top node, or null (and
      no change) when empty. */
  function PopItems(items: seq<Item>): (r: (Option<Expr>, seq<Item>))
    ensures items == [] ==> r == (None, [])
    ensures items != [] ==> r.0 == Some(items[|items| - 1].expr) && r.1 == items[..|items| - 1]
  {
    if items == [] then (None, []) else (Some(items[|items| - 1].expr), items[..|items| - 1])
  }

  /** Pops n entries (fewer when the stack runs out) and discards them. */
  function PopN(items: seq<Item>, n: nat): (r: seq<Item>)
    ensures |r| == if n <= |items| then |items| - n else 0
    ensures r == items[..|r|]
  {
    if n == 0 || items == [] then items else PopN(items[..|items| - 1], n - 1)
  }

  /** prepareForStack: what a node takes from the stack when pushed. A monitor
      takes one entry as its synchronised object (the right side when that
      entry is an assignment); an instanceof takes one entry as the checked
      object; a dynamic call site takes one entry per argument type. The
      prepareForStack of classes not part of this model takes nothing. */
  function Prepare(e: Expr, items: seq<Item>): (r: (Expr, seq<Item>))
    ensures r.0.info == e.info
    ensures e.node.Monitor? || e.node.InstanceOf? ==> r.1 == PopItems(items).1
    ensures e.node.Lambda? ==> r.1 == PopN(items, |e.node.methodArgs|)
    ensures !(e.node.Monitor? || e.node.InstanceOf? || e.node.Lambda?) ==> r == (e, items)
  {
    match e.node
    case Monitor(_, b) =>
      var (x, rest) := PopItems(items);
      var sync := if x.Some? && x.value.node.Assignment? then Some(x.value.node.right) else x;
      (e.(node := Monitor(sync, b)), rest)
    case InstanceOf(_, c) =>
      var (x, rest) := PopItems(items);
      (e.(node := InstanceOf(x, c)), rest)
    case Lambda(_, _, _, m) =>
      (e, PopN(items, |m|))
    case _ => (e, items)
  }

  // ----- rendering -----

  /** Text of a constant pushed by one of the *CONST_* instructions, after the
      value the mnemonic names in section 6.5 of the Java Virtual Machine
      Specification. */
  function ConstText(opcode: int): string {
    if opcode == 1 then "null"
    else if 2 <= opcode <= 8 then Text.IntToString(opcode - 3)
    else if opcode == 9 || opcode == 14 then (if opcode == 9 then "0" else "0.0")
    else if opcode == 10 || opcode == 15 then (if opcode == 10 then "1" else "1.0")
    else if opcode == 11 then "0.0"
    else if opcode == 12 then "1.0"
    else if opcode == 13 then "2.0"
    else ""
  }

  /** mValue.toString() */
  function ValueText(v: Value): string {
    match v
    case IntValue(i) => Text.IntToString(i)
    case StringValue(s) => s
    case TypeValue(t) => t.text
    case VarValue(l) => NameText(l.v.name)
    case InsnConst(op) => ConstText(op)
    case OpaqueValue(s) => s
    case NullValue => "null"
  }

  /** printCast(): "(T) " when a cast type is set. */
  function CastPrefix(e: Expr): (r: string)
    ensures e.info.castType.None? <==> r == ""
  {
    if e.info.castType.Some? then "(" + e.info.castType.value.printed + ") " else ""
  }

  /** A constant renders without failing: a boolean constant holds an int,
      and the generic branch calls toString on a non-null value. */
  predicate PrimaryWritable(info: Info, v: Value) {
    && (info.typ == Some(BOOLEAN) ==> v.IntValue?)
    && (info.typ != Some(BOOLEAN) && info.typ != Some(STRING) && !(info.typ == Some(CLASS) && v.TypeValue?)
        ==> !v.NullValue?)
  }

  function PrimaryBody(info: Info, v: Value): string
    requires PrimaryWritable(info, v)
  {
    if info.typ == Some(BOOLEAN) then (if v.i == 0 then "false" else "true")
    else if info.typ == Some(STRING) then "\"" + ValueText(v) + "\""
    else if info.typ == Some(CLASS) && v.TypeValue? then v.t.printed + ".class"
    else ValueText(v) + (if info.typ == Some(FLOAT) then "F" else "") + (if info.typ == Some(LONG) then "L" else "")
  }

  function LambdaArgText(a: LambdaArg): string {
    match a
    case RawArg(s) => s
    case StringArg(s) => "\"" + s + "\""
    case ClassArg(t) => ClassLiteral(t)
    case MethodTypeArg(ts) => MethodTypeText(ts)
    case HandleArg(f, o, n, ts) =>
      "java.lang.invoke.MethodHandles.lookup()." + f + "("
      + Text.Join([ClassLiteral(o), "\"" + n + "\"", MethodTypeText(ts)], ", ") + ")"
  }

  function ClassLiteral(t: DataType): string {
    t.printed + ".class"
  }

  function ClassLiterals(ts: seq<DataType>): (r: seq<string>)
    ensures |r| == |ts| && forall i :: 0 <= i < |ts| ==> r[i] == ClassLiteral(ts[i])
  {
    if ts == [] then [] else [ClassLiteral(ts[0])] + ClassLiterals(ts[1..])
  }

  function MethodTypeText(ts: seq<DataType>): string {
    "java.lang.invoke.MethodType.methodType(" + Text.Join(ClassLiterals(ts), ", ") + ")"
  }

  function LambdaArgTexts(args: seq<LambdaArg>): (r: seq<string>)
    ensures |r| == |args| && forall i :: 0 <= i < |args| ==> r[i] == LambdaArgText(args[i])
  {
    if args == [] then [] else [LambdaArgText(args[0])] + LambdaArgTexts(args[1..])
  }

  /** The first entry of a present, non-empty branch. */
  predicate HasFirst(b: SubStack) {
    b.StackOf? && |b.items| > 0
  }

  /** A node can be rendered: every operand it writes was resolved, and a
      ternary has a first item in both branches. Rendering anything else is a
      null dereference or an index error in the source. */
  predicate Writable(e: Expr)
    decreases e
  {
    match e.node
    case Primary(v) => PrimaryWritable(e.info, v)
    case Unary(v, _) => v.Some?
    case Assignment(t, _, r) => t.Some? && Writable(r)
    case ArrayAccess(i, a) => Writable(i) && Writable(a)
    case ArrayCreation(l, _) => Writable(l)
    case Arithmetic(l, r) => Writable(l) && Writable(r)
    case Compare(_, l, r, _) => Writable(l) && Writable(r)
    case Gate(_, l, r, _) => Writable(l) && Writable(r)
    case Ternary(c, _) =>
      && Writable(c)
      && IsJump(c)
      && HasFirst(c.node.jump.thenBranch) && HasFirst(c.node.jump.elseBranch)
      && Writable(c.node.jump.thenBranch.items[0].expr)
      && Writable(c.node.jump.elseBranch.items[0].expr)
    case Goto(_) => true
    case Break(_) => true
    case Continue(_) => true
    case Monitor(s, _) => s.Some? && Writable(s.value)
    case TryCatch(_, _, _) => true
    case InstanceOf(o, _) => o.Some? && Writable(o.value)
    case VarDecl(l) => l.v.typ.Some?
    case Lambda(_, _, _, _) => true
    case Invocation(_, _, _, _, _, _) => true
  }

  /** write(): the source text of a node. The renderings of the node classes
      not part of this model (unary, assignment, array, arithmetic, comparison,
      jumps, invocations) are stand-ins in Java's own notation. */
  function Write(e: Expr): (r: string)
    requires Writable(e)
    ensures e.node.Primary? ==> Text.IsPrefix(CastPrefix(e), r)
    ensures e.node.TryCatch? || e.node.Goto? ==> r == ""
    decreases e
  {
    match e.node
    case Primary(v) => CastPrefix(e) + PrimaryBody(e.info, v)
    case Unary(v, post) =>
      var n := NameText(v.value.v.name);
      if post then n + "++" else "++" + n
    case Assignment(t, _, r) => NameText(t.value.v.name) + " = " + Write(r)
    case ArrayAccess(i, a) => Write(a) + "[" + Write(i) + "]"
    case ArrayCreation(l, _) => "new [" + Write(l) + "]"
    case Arithmetic(l, r) => Write(l) + " op " + Write(r)
    case Compare(op, l, r, _) => Write(l) + " " + OperandText(op) + " " + Write(r)
    case Gate(op, l, r, _) => Write(l) + " " + OperandText(op) + " " + Write(r)
    case Ternary(c, _) =>
      Write(c) + " ? " + Write(c.node.jump.thenBranch.items[0].expr)
      + " : " + Write(c.node.jump.elseBranch.items[0].expr)
    case Goto(_) => ""
    case Break(_) => "break"
    case Continue(_) => "continue"
    case Monitor(s, _) => Write(s.value)
    case TryCatch(_, _, _) => ""
    case InstanceOf(o, c) => Write(o.value) + " instanceof " + c.text
    case VarDecl(l) => l.v.typ.value.printed + " " + NameText(l.v.name)
    case Lambda(owner, name, args, _) =>
      owner.printed + "." + name + "(" + Text.Join(LambdaArgTexts(args), ", ") + ")"
    case Invocation(ctor, name, _, owner, _, _) =>
      if ctor then "new " + Text.Dotted(owner) + "()" else name + "()"
  }

  /** The line a node carries never shows in its text. */
  lemma WriteIgnoresLine(e: Expr, line: int)
    requires Writable(e)
    ensures Writable(SetLine(e, line)) && Write(SetLine(e, line)) == Write(e)
  {
  }

  /** Only a constant prints its cast: a cast set on a constant appears as
      "(" type ") " in front of its text, and a cast set on any other node
      leaves its text as it was. */
  lemma WriteCast(e: Expr, t: DataType)
    requires Writable(e)
    ensures Writable(SetCastType(e, Some(t))) && Writable(SetCastType(e, None))
    ensures e.node.Primary? ==>
      Write(SetCastType(e, Some(t))) == "(" + t.printed + ") " + Write(SetCastType(e, None))
    ensures !e.node.Primary? ==> Write(SetCastType(e, Some(t))) == Write(e)
  {
    if e.node.Primary? {
      var body := PrimaryBody(e.info.(castType := None), e.node.value);
      assert CastPrefix(SetCastType(e, None)) == "";
      assert PrimaryBody(e.info.(castType := Some(t)), e.node.value) == body;
      assert "" + body == body;
    }
  }
}
