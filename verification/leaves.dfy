/** The leaf expression classes: constants (PrimaryExpression), local
    declarations (VariableDeclarationExpression), instanceof tests, monitors
    (MonitorExpression) and dynamic call sites (LambdaExpression). Each is
    built by a constructor function here; its type, what it takes from the
    stack when pushed and its rendering are stated by the lemmas beside it. */
module Leaves {

  import opened Wrappers
  import opened Values
  import opened Expr
  import Nodes = Expr
  import Text

  const INVOKEDYNAMIC: int := 186

  // ----- PrimaryExpression -----

  /** new PrimaryExpression(opCode, value, type). */
  function NewPrimary(opCode: int, value: Value, t: Option<DataType>): (r: Expr)
    ensures r.node == Primary(value) && r.info.opCode == opCode
    ensures GetType(r) == t && r.info.castType.None? && !IsVirtual(r)
    ensures forall items :: Prepare(r, items) == (r, items)
  {
    Expr(Info(opCode, t, None, 0), Primary(value))
  }

  /** How a constant renders: an optional cast prefix "(T) " (present exactly
      when a cast type is set), then by type: a boolean is "false" for 0 and
      "true" otherwise; a string is quoted; a class value is its print form
      plus ".class"; anything else is the value's text with "F" for float and
      "L" for long. */
  lemma PrimaryWrite(e: Expr)
    requires e.node.Primary? && Writable(e)
    ensures var pre := CastPrefix(e);
      var body := PrimaryBody(e.info, e.node.value);
      && Write(e) == pre + body
      && (pre == "" <==> e.info.castType.None?)
      && (e.info.castType.Some? ==> pre == "(" + e.info.castType.value.printed + ") ")
    ensures e.info.typ == Some(BOOLEAN) ==>
      && (Write(e)[|CastPrefix(e)|..] == "false" <==> e.node.value.i == 0)
      && (Write(e)[|CastPrefix(e)|..] == "true" <==> e.node.value.i != 0)
    ensures e.info.typ == Some(STRING) ==>
      Write(e)[|CastPrefix(e)|..] == "\"" + ValueText(e.node.value) + "\""
    ensures e.info.typ == Some(CLASS) && e.node.value.TypeValue? ==>
      Write(e)[|CastPrefix(e)|..] == e.node.value.t.printed + ".class"
    ensures (e.info.typ != Some(BOOLEAN) && e.info.typ != Some(STRING)
             && !(e.info.typ == Some(CLASS) && e.node.value.TypeValue?)) ==>
      var v := ValueText(e.node.value);
      && Write(e)[|CastPrefix(e)|..][..|v|] == v
      && Write(e)[|CastPrefix(e)|..][|v|..] ==
           if e.info.typ == Some(FLOAT) then "F" else if e.info.typ == Some(LONG) then "L" else ""
  {
    var pre := CastPrefix(e);
    assert Write(e)[|pre|..] == PrimaryBody(e.info, e.node.value);
  }

  /** setType on a constant that wraps a variable retypes the variable too;
      on any other constant only the type field changes. */
  lemma PrimarySetType(e: Expr, t: Option<DataType>)
    requires e.node.Primary?
    ensures Nodes.SetType(e, t).node.Primary? && GetType(Nodes.SetType(e, t)) == t
    ensures e.node.value.VarValue? ==>
      Nodes.SetType(e, t).node.value.local.v == Values.SetType(e.node.value.local.v, t)
    ensures !e.node.value.VarValue? ==> Nodes.SetType(e, t).node == e.node
  {
  }

  // ----- VariableDeclarationExpression -----

  /** new VariableDeclarationExpression(l): opcode 0, the type field set from
      the variable; its type is always the variable's, it takes nothing from
      the stack, and it renders as the type's print form, a space and the
      variable's name. */
  function NewVarDecl(l: LocalVariable): (r: Expr)
    ensures r.info.opCode == 0 && r.info.typ == l.v.typ && r.node.VarDecl?
    ensures GetType(r) == l.v.typ
    ensures forall items :: Prepare(r, items) == (r, items)
    ensures Writable(r) <==> l.v.typ.Some?
    ensures l.v.typ.Some? ==> Write(r) == l.v.typ.value.printed + " " + NameText(l.v.name)
  {
    Expr(Info(0, l.v.typ, None, 0), VarDecl(l))
  }

  /** A declaration reports the variable's type even after its own type field
      is overwritten. */
  lemma VarDeclTypeFollowsVariable(l: LocalVariable, t: Option<DataType>)
    ensures GetType(Nodes.SetType(NewVarDecl(l), t)) == l.v.typ
    ensures Nodes.SetType(NewVarDecl(l), t).info.typ == t
  {
  }

  // ----- InstanceOfExpression -----

  /** new InstanceOfExpression(insn): the class checked against is the type named by
      the instruction's descriptor after javaObjectName, a helper not part of
      this model and passed in. The object is set when the node is pushed. */
  function NewInstanceOf(opCode: int, desc: string, javaObjectName: string -> string): (r: Expr)
    ensures r.node == InstanceOf(None, TypeFromName(javaObjectName(desc)))
    ensures r.info.opCode == opCode
    ensures GetType(r) == Some(BOOLEAN)
  {
    Expr(Info(opCode, None, None, 0), InstanceOf(None, TypeFromName(javaObjectName(desc))))
  }

  /** Pushing an instanceof takes exactly the top entry as the checked object;
      it then renders as the object, " instanceof " and the class. Its type is
      boolean whatever its type field says. */
  lemma InstanceOfPrepare(e: Expr, items: seq<Item>)
    requires e.node.InstanceOf? && items != []
    ensures var (p, rest) := Prepare(e, items);
      && rest == items[..|items| - 1]
      && p.node == InstanceOf(Some(items[|items| - 1].expr), e.node.cls)
      && GetType(p) == Some(BOOLEAN)
      && (Writable(items[|items| - 1].expr) ==>
            Writable(p) && Write(p) == Write(items[|items| - 1].expr) + " instanceof " + e.node.cls.text)
  {
  }

  // ----- MonitorExpression -----

  /** new MonitorExpression(opCode): no synchronised block yet, so virtual;
      type null. */
  function NewMonitor(opCode: int): (r: Expr)
    ensures r.node.Monitor? && r.info.opCode == opCode
    ensures IsVirtual(r) && GetType(r).None?
    ensures IsMonitorEnter(r) <==> opCode == MONITORENTER
  {
    Expr(Info(opCode, None, None, 0), Monitor(None, NullStack))
  }

  /** Pushing a monitor takes exactly the top entry as the synchronised
      object, or that entry's right side when it is an assignment; the monitor
      renders as that object alone. */
  lemma MonitorPrepare(e: Expr, items: seq<Item>)
    requires e.node.Monitor? && items != []
    ensures var (p, rest) := Prepare(e, items);
      var top := items[|items| - 1].expr;
      var sync := if top.node.Assignment? then top.node.right else top;
      && rest == items[..|items| - 1]
      && p.node == Monitor(Some(sync), e.node.block)
      && (Writable(sync) ==> Writable(p) && Write(p) == Write(sync))
  {
  }

  // ----- LambdaExpression -----

  /** A bootstrap-method argument of an invokedynamic site, with ASM's Type
      values already resolved to types: a method handle (its tag, owner, name
      and the class of each of its method type's parts), a Type (the return
      class of its method type), or any other constant (its toString). */
  datatype BootstrapArg =
    | HandleBsm(tag: int, owner: DataType, name: string, types: seq<DataType>)
    | TypeBsm(returnType: DataType)
    | OtherBsm(text: string)

  const LOOKUP_ARGUMENT: string := "/*stacked automatically by the VM*/ java.lang.invoke.MethodHandles.lookup()"

  /** MethodHandle.getFindMethod: the MethodHandles.Lookup method that
      resolves a handle of each kind (tags per section 4.4.8 of the Java
      Virtual Machine Specification); an unknown tag gives "find". */
  function GetFindMethod(tag: int): (r: string)
    ensures r == "findGetter" <==> tag == 1
    ensures r == "findStaticGetter" <==> tag == 2
    ensures r == "findSetter" <==> tag == 3
    ensures r == "findStaticSetter" <==> tag == 4
    ensures r == "findVirtual" <==> tag == 5 || tag == 9
    ensures r == "findStatic" <==> tag == 6
    ensures r == "findSpecial" <==> tag == 7
    ensures r == "findConstructor" <==> tag == 8
    ensures r == "find" <==> !(1 <= tag <= 9)
  {
    if tag == 1 then "findGetter"
    else if tag == 2 then "findStaticGetter"
    else if tag == 3 then "findSetter"
    else if tag == 4 then "findStaticSetter"
    else if tag == 5 || tag == 9 then "findVirtual"
    else if tag == 6 then "findStatic"
    else if tag == 7 then "findSpecial"
    else if tag == 8 then "findConstructor"
    else "find"
  }

  /** appendArgsAtPosition, for one argument. */
  function BootstrapArgument(b: BootstrapArg): (r: LambdaArg)
    ensures b.HandleBsm? <==> r.HandleArg?
    ensures b.TypeBsm? <==> r.MethodTypeArg?
    ensures b.OtherBsm? <==> r.RawArg?
    ensures b.HandleBsm? ==> r == HandleArg(GetFindMethod(b.tag), b.owner, b.name, b.types)
    ensures b.TypeBsm? ==> r.types == [b.returnType]
    ensures b.OtherBsm? ==> r.text == b.text
  {
    match b
    case HandleBsm(tag, owner, name, types) => HandleArg(GetFindMethod(tag), owner, name, types)
    case TypeBsm(t) => MethodTypeArg([t])
    case OtherBsm(s) => RawArg(s)
  }

  function BootstrapArguments(bs: seq<BootstrapArg>): (r: seq<LambdaArg>)
    ensures |r| == |bs| && forall i :: 0 <= i < |bs| ==> r[i] == BootstrapArgument(bs[i])
  {
    if bs == [] then [] else [BootstrapArgument(bs[0])] + BootstrapArguments(bs[1..])
  }

  /** new LambdaExpression(name, desc, bsm, bsmArgs): owner and name of the
      bootstrap method; the argument list is the lookup placeholder, the
      quoted call-site name and the method type of the call-site descriptor
      (its return class), then the bootstrap arguments in order. The
      argument types of the descriptor are what the node takes from the
      stack; they and its return class come resolved. */
  function NewLambda(bsmOwner: DataType, bsmName: string, name: string, descReturn: DataType,
                     descArgs: seq<DataType>, bsmArgs: seq<BootstrapArg>): (r: Expr)
    ensures r.info.opCode == INVOKEDYNAMIC && GetType(r).None?
    ensures r.node.Lambda? && r.node.owner == bsmOwner && r.node.name == bsmName
    ensures r.node.methodArgs == descArgs
    ensures var args := r.node.args;
      && |args| == 3 + |bsmArgs|
      && args[0] == RawArg(LOOKUP_ARGUMENT)
      && args[1] == StringArg(name)
      && args[2] == MethodTypeArg([descReturn])
      && forall i :: 0 <= i < |bsmArgs| ==> args[3 + i] == BootstrapArgument(bsmArgs[i])
  {
    var args := [RawArg(LOOKUP_ARGUMENT), StringArg(name), MethodTypeArg([descReturn])]
      + BootstrapArguments(bsmArgs);
    assert forall i :: 0 <= i < |bsmArgs| ==> args[3 + i] == BootstrapArguments(bsmArgs)[i];
    Expr(Info(INVOKEDYNAMIC, None, None, 0), Lambda(bsmOwner, bsmName, args, descArgs))
  }

  /** Pushing a dynamic call site pops one entry per argument type of its
      descriptor (fewer when the stack runs out) and keeps the rest in order. */
  lemma LambdaPrepare(e: Expr, items: seq<Item>)
    requires e.node.Lambda? && |e.node.methodArgs| <= |items|
    ensures Prepare(e, items).0 == e
    ensures Prepare(e, items).1 == items[..|items| - |e.node.methodArgs|]
  {
  }

  /** A call site renders as owner, ".", name and the arguments in
      parentheses, separated by ", " with no separator before the first or
      after the last: its length is the arguments' lengths plus two characters
      per gap. A string argument is quoted and a class argument is its print
      form plus ".class". */
  lemma LambdaWrite(e: Expr)
    requires e.node.Lambda? && e.node.args != []
    ensures var texts := LambdaArgTexts(e.node.args);
      && Write(e) == e.node.owner.printed + "." + e.node.name + "(" + Text.Join(texts, ", ") + ")"
      && |Write(e)| == |e.node.owner.printed| + |e.node.name| + 3
                       + Text.SumLengths(texts) + 2 * (|e.node.args| - 1)
    ensures forall s :: LambdaArgText(StringArg(s)) == "\"" + s + "\""
    ensures forall t :: LambdaArgText(ClassArg(t)) == t.printed + ".class"
  {
    var texts := LambdaArgTexts(e.node.args);
    var inner := Text.Join(texts, ", ");
    assert Write(e) == e.node.owner.printed + "." + e.node.name + "(" + inner + ")";
    Text.JoinLength(texts, ", ");
    assert |inner| == Text.SumLengths(texts) + 2 * (|e.node.args| - 1);
  }
}
