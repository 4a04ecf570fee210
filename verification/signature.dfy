/** The generic-signature printer com.thesis.file.DecompilerSignatureVisitor:
    a state machine that receives the events of a signature reader (section
    4.7.9.1 of the Java Virtual Machine Specification) and builds Java
    source text. Two integer bit stacks track which class types have type
    arguments and which types are arrays. The model is the visitor built by
    the one-argument constructor, whose parameter annotations are absent. */
module Signature {

  import opened Wrappers
  import opened Text
  import opened Access

  // ---------------------------------------------------------------------
  // Bit stacks

  /** Both stacks keep booleans as the bits of one number; the top is the
      lowest bit. Pushing false doubles, pushing true doubles and adds one,
      popping halves. */
  function Push(s: nat, bit: bool): nat {
    2 * s + (if bit then 1 else 0)
  }

  function Pop(s: nat): nat {
    s / 2
  }

  predicate Top(s: nat) {
    s % 2 == 1
  }

  lemma PushThenPop(s: nat, bit: bool)
    ensures Pop(Push(s, bit)) == s && Top(Push(s, bit)) == bit
  {
  }

  lemma PopThenPush(s: nat)
    ensures Push(Pop(s), Top(s)) == s
  {
  }

  /** The array stack of a type nested in k arrays: k true entries over the
      false entry its start pushed, over the stack a below. */
  function Marks(a: nat, k: nat): nat {
    if k == 0 then Push(a, false) else Push(Marks(a, k - 1), true)
  }

  /** n false entries pushed on the stack a. */
  function Falses(a: nat, n: nat): nat {
    if n == 0 then a else Push(Falses(a, n - 1), false)
  }

  lemma {:induction false} FalsesAdd(a: nat, m: nat, n: nat)
    ensures Falses(Falses(a, m), n) == Falses(a, m + n)
    decreases n
  {
    if n > 0 {
      FalsesAdd(a, m, n - 1);
    }
  }

  /** The run of true entries popped off the top: the stack below it and
      the length of the run. */
  function PopMarks(s: nat): (r: (nat, nat))
    ensures !Top(r.0) && r.0 <= s
    decreases s
  {
    if Top(s) then var p := PopMarks(Pop(s)); (p.0, p.1 + 1) else (s, 0)
  }

  /** Popping the marks of a k-deep array finds exactly k of them. */
  lemma {:induction false} PopMarksOfMarks(a: nat, k: nat)
    ensures PopMarks(Marks(a, k)) == (Push(a, false), k)
  {
    if k > 0 {
      PopMarksOfMarks(a, k - 1);
      PushThenPop(Marks(a, k - 1), true);
    }
  }

  // ---------------------------------------------------------------------
  // The visitor

  /** Which revision of endType and visitTypeVariable: the code as written,
      or with the array stack popped once more after the run of array marks
      and the pending separator printed before a type variable. */
  datatype Edition = AsWritten | Corrected

  datatype Visitor = Visitor(
    declaration: string,
    isInterface: bool,
    seenFormalParameter: bool,
    seenInterfaceBound: bool,
    seenParameter: bool,
    seenInterface: bool,
    returnType: Option<string>,
    exceptions: Option<string>,
    argCount: int,
    argumentStack: nat,
    arrayStack: nat,
    separator: string)

  /** The public constructor: only the interface flag of the access word
      is kept. */
  function New(access: bv32): Visitor {
    Visitor("", HasFlag(access, ACC_INTERFACE), false, false, false, false, None, None, 0, 0, 0, "")
  }

  /** The private constructor behind visitReturnType and visitExceptionType:
      a fresh visitor appending to the given buffer. */
  function Child(buffer: string): Visitor {
    Visitor(buffer, false, false, false, false, false, None, None, 0, 0, 0, "")
  }

  const OBJECT: string := "java/lang/Object"
  const EXTENDS: char := '+'
  const SUPER: char := '-'
  const INSTANCEOF: char := '='

  /** endFormals: closes the formal type parameters with ">" if any are
      open. */
  function EndFormals(v: Visitor): (w: Visitor)
    ensures !w.seenFormalParameter
  {
    if v.seenFormalParameter then v.(declaration := v.declaration + ">", seenFormalParameter := false) else v
  }

  /** ">" is appended at most once: closing twice is closing once. */
  lemma EndFormalsOnce(v: Visitor)
    ensures EndFormals(EndFormals(v)) == EndFormals(v)
    ensures EndFormals(v).declaration == v.declaration + (if v.seenFormalParameter then ">" else "")
  {
  }

  /** startType: a false entry on the array stack. */
  function StartType(v: Visitor): Visitor {
    v.(arrayStack := Push(v.arrayStack, false))
  }

  function Brackets(n: nat): (r: string)
    ensures |r| == 2 * n
  {
    if n == 0 then "" else "[]" + Brackets(n - 1)
  }

  /** The parameter name endType appends at the end of a top-level
      parameter type. */
  function ArgName(v: Visitor): string {
    if v.seenParameter && v.argumentStack == 0 then " arg" + IntToString(v.argCount) else ""
  }

  /** endType: one "[]" per true entry on top of the array stack, each
      popped. As written the false entry below them stays when there was
      at least one; corrected, it is always popped. */
  function EndType(v: Visitor, e: Edition): (w: Visitor)
    ensures w == v.(declaration := w.declaration, arrayStack := w.arrayStack)
    ensures IsPrefix(v.declaration, w.declaration)
    ensures w.arrayStack <= v.arrayStack && (e == Corrected && v.arrayStack > 0 ==> w.arrayStack < v.arrayStack)
  {
    var p := PopMarks(v.arrayStack);
    var stack := if e == Corrected || p.1 == 0 then Pop(p.0) else p.0;
    var w := v.(arrayStack := stack, declaration := v.declaration + Brackets(p.1));
    w.(declaration := w.declaration + ArgName(w))
  }

  /** visitFormalTypeParameter: "<" before the first formal, ", " before
      each later one, then its name; a fresh formal has seen no interface
      bound. */
  function VisitFormalTypeParameter(v: Visitor, name: string): (w: Visitor)
    ensures w == v.(declaration := w.declaration, seenFormalParameter := true, seenInterfaceBound := false)
    ensures IsPrefix(v.declaration, w.declaration)
    ensures IsPrefix(v.declaration + (if v.seenFormalParameter then ", " else "<"), w.declaration)
    ensures IsSuffix(name, w.declaration)
  {
    v.(declaration := v.declaration + (if v.seenFormalParameter then ", " else "<") + name,
       seenFormalParameter := true, seenInterfaceBound := false)
  }

  function VisitClassBound(v: Visitor): Visitor {
    StartType(v.(separator := " extends "))
  }

  function VisitInterfaceBound(v: Visitor): Visitor {
    StartType(v.(separator := if v.seenInterfaceBound then ", " else " extends ", seenInterfaceBound := true))
  }

  function VisitSuperclass(v: Visitor): Visitor {
    StartType(EndFormals(v).(separator := " extends "))
  }

  function VisitInterface(v: Visitor): Visitor {
    StartType(v.(separator := if v.seenInterface then ", " else if v.isInterface then " extends " else " implements ",
                 seenInterface := true))
  }

  /** visitParameterType: "(" before the first parameter, ", " and the next
      argument number before each later one. */
  function VisitParameterType(v: Visitor): (w: Visitor)
    ensures w.seenParameter && !w.seenFormalParameter
    ensures w.argCount == v.argCount + (if v.seenParameter then 1 else 0)
    ensures Pop(w.arrayStack) == v.arrayStack && !Top(w.arrayStack)
    ensures IsPrefix(EndFormals(v).declaration + (if v.seenParameter then ", " else "("), w.declaration)
    ensures w.argumentStack == v.argumentStack && w.separator == v.separator
  {
    var w := EndFormals(v);
    var w' := if w.seenParameter then w.(declaration := w.declaration + ", ", argCount := w.argCount + 1)
              else w.(seenParameter := true, declaration := w.declaration + "(");
    StartType(w')
  }

  /** The parent's part of visitReturnType: the parameter list is closed
      with ")", opened first when there were no parameters. */
  function ReturnTypeOpen(v: Visitor): Visitor {
    var w := EndFormals(v);
    var w' := if w.seenParameter then w.(seenParameter := false) else w.(declaration := w.declaration + "(");
    w'.(declaration := w'.declaration + ")", returnType := Some(""))
  }

  function BaseTypeName(c: char): string {
    match c
    case 'V' => "void"
    case 'B' => "byte"
    case 'J' => "long"
    case 'Z' => "boolean"
    case 'I' => "int"
    case 'S' => "short"
    case 'C' => "char"
    case 'F' => "float"
    case _ => "double"
  }

  /** The descriptor letter of a primitive type name: the inverse of
      BaseTypeName on the base type letters of section 4.3.2. */
  function BaseTypeDescriptor(name: string): Option<char> {
    if name == "void" then Some('V')
    else if name == "byte" then Some('B')
    else if name == "long" then Some('J')
    else if name == "boolean" then Some('Z')
    else if name == "int" then Some('I')
    else if name == "short" then Some('S')
    else if name == "char" then Some('C')
    else if name == "float" then Some('F')
    else if name == "double" then Some('D')
    else None
  }

  /** visitBaseType names each base type letter; any other letter prints
      as double. */
  lemma BaseTypeRoundTrip(c: char)
    ensures c in "VBJZISCFD" ==> BaseTypeDescriptor(BaseTypeName(c)) == Some(c)
    ensures c !in "VBJZISCF" ==> BaseTypeName(c) == "double"
  {
  }

  function VisitBaseType(v: Visitor, c: char, e: Edition): (w: Visitor)
    ensures IsPrefix(v.declaration + BaseTypeName(c), w.declaration)
    ensures w == v.(declaration := w.declaration, arrayStack := w.arrayStack)
  {
    EndType(v.(declaration := v.declaration + BaseTypeName(c)), e)
  }

  function VisitTypeVariable(v: Visitor, name: string, e: Edition): (w: Visitor)
    ensures IsPrefix(v.declaration + (if e == Corrected then v.separator else "") + name, w.declaration)
  {
    if e == Corrected then EndType(v.(declaration := v.declaration + v.separator + name, separator := ""), e)
    else EndType(v.(declaration := v.declaration + name), e)
  }

  /** visitArrayType: startType, then the new top entry set to true. */
  function VisitArrayType(v: Visitor): (w: Visitor)
    ensures w == v.(arrayStack := w.arrayStack)
    ensures Top(w.arrayStack) && Pop(w.arrayStack) == v.arrayStack
  {
    var w := StartType(v);
    w.(arrayStack := Push(Pop(w.arrayStack), true))
  }

  /** The text visitClassType prints for a class name: the pending
      separator and the dotted name, except that java/lang/Object is left
      out when show is false. */
  function ClassName(n: string, show: bool, sep: string): string {
    if n != OBJECT || show then sep + Dotted(n) else ""
  }

  /** Whether java/lang/Object is printed at the visitor's position: inside
      type arguments or in a parameter list. */
  predicate Shows(v: Visitor) {
    Top(v.argumentStack) || v.seenParameter
  }

  /** visitClassType: the class name, then a false entry on the argument
      stack. */
  function VisitClassType(v: Visitor, name: string): (w: Visitor)
    ensures w == v.(declaration := w.declaration, separator := "", argumentStack := w.argumentStack)
    ensures !Top(w.argumentStack) && Pop(w.argumentStack) == v.argumentStack
    ensures IsPrefix(v.declaration, w.declaration)
    ensures name != OBJECT || Shows(v) ==> IsSuffix(Dotted(name), w.declaration)
    ensures name == OBJECT && !Shows(v) ==> w.declaration == v.declaration
  {
    v.(declaration := v.declaration + ClassName(name, Shows(v), v.separator),
       separator := "", argumentStack := Push(v.argumentStack, false))
  }

  /** The common start of both visitTypeArgument forms: the first argument
      opens "<" and sets the top entry, a later one is preceded by ", ". */
  function OpenArgument(v: Visitor): Visitor {
    if !Top(v.argumentStack) then v.(argumentStack := Push(Pop(v.argumentStack), true), declaration := v.declaration + "<")
    else v.(declaration := v.declaration + ", ")
  }

  /** visitTypeArgument(): "<" for the first argument, ", " for a later
      one, then "?". */
  function VisitUnboundedArgument(v: Visitor): (w: Visitor)
    ensures IsPrefix(v.declaration, w.declaration)
    ensures w.declaration == v.declaration + (if Top(v.argumentStack) then ", " else "<") + "?"
    ensures Top(w.argumentStack) && Pop(w.argumentStack) == Pop(v.argumentStack)
    ensures w == v.(declaration := w.declaration, argumentStack := w.argumentStack)
  {
    var w := OpenArgument(v);
    w.(declaration := w.declaration + "?")
  }

  function WildcardPrefix(tag: char): string {
    if tag == EXTENDS then "? extends " else if tag == SUPER then "? super " else ""
  }

  function VisitTypeArgument(v: Visitor, tag: char): (w: Visitor)
    ensures Top(w.argumentStack) && Pop(w.argumentStack) == Pop(v.argumentStack)
    ensures Pop(w.arrayStack) == v.arrayStack && !Top(w.arrayStack)
    ensures IsPrefix(v.declaration, w.declaration)
    ensures IsPrefix(v.declaration + (if Top(v.argumentStack) then ", " else "<"), w.declaration)
    ensures IsSuffix(WildcardPrefix(tag), w.declaration)
    ensures w.separator == v.separator && w.seenParameter == v.seenParameter
  {
    var w := OpenArgument(v);
    StartType(w.(declaration := w.declaration + WildcardPrefix(tag)))
  }

  /** visitEnd: ">" exactly when the class type had arguments, the entry
      popped, then endType. */
  function VisitEnd(v: Visitor, e: Edition): (w: Visitor)
    ensures w.argumentStack == Pop(v.argumentStack)
    ensures IsPrefix(v.declaration + (if Top(v.argumentStack) then ">" else ""), w.declaration)
    ensures w.separator == v.separator && w.seenParameter == v.seenParameter
  {
    EndType(v.(declaration := v.declaration + (if Top(v.argumentStack) then ">" else ""),
               argumentStack := Pop(v.argumentStack)), e)
  }

  // ---------------------------------------------------------------------
  // Driving the visitor over a type

  /** A Java type signature: a base type letter, a type variable, an array,
      or a class type with its type arguments (inner class types are not
      part of this model). */
  datatype TypeSig =
    | Base(code: char)
    | TypeVariable(name: string)
    | ArrayOf(elem: TypeSig)
    | ClassType(name: string, args: seq<TypeArg>)

  datatype TypeArg = Unbounded | Bounded(tag: char, sig: TypeSig)

  /** The events a signature reader sends for one type, applied in order. */
  function Drive(v: Visitor, t: TypeSig, e: Edition): (w: Visitor)
    ensures IsPrefix(v.declaration, w.declaration)
    decreases t, 2
  {
    match t
    case Base(c) => VisitBaseType(v, c, e)
    case TypeVariable(n) => VisitTypeVariable(v, n, e)
    case ArrayOf(elem) =>
      var u := VisitArrayType(v);
      var w := Drive(u, elem, e);
      PrefixTrans(v.declaration, u.declaration, w.declaration);
      w
    case ClassType(n, _) =>
      var u := VisitClassType(v, n);
      var x := DriveArgs(u, t, 0, e);
      PrefixTrans(v.declaration, u.declaration, x.declaration);
      var w := VisitEnd(x, e);
      PrefixTrans(v.declaration, x.declaration, w.declaration);
      w
  }

  function DriveArgs(v: Visitor, t: TypeSig, i: nat, e: Edition): (w: Visitor)
    requires t.ClassType? && i <= |t.args|
    ensures IsPrefix(v.declaration, w.declaration)
    decreases t, 1, |t.args| - i
  {
    if i == |t.args| then v else DriveArgs(DriveArg(v, t.args[i], e), t, i + 1, e)
  }

  /** The events of one type argument: an unbounded one, or the argument
      form with its tag followed by the events of its type. */
  function DriveArg(v: Visitor, a: TypeArg, e: Edition): (w: Visitor)
    ensures IsPrefix(v.declaration, w.declaration)
    decreases a, 0
  {
    match a
    case Unbounded => VisitUnboundedArgument(v)
    case Bounded(tag, s) =>
      var u := VisitTypeArgument(v, tag);
      var w := Drive(u, s, e);
      PrefixTrans(v.declaration, u.declaration, w.declaration);
      w
  }

  /** The Java text of a type, independent of the visitor: show says
      whether java/lang/Object is printed, sep is the text before the first
      class or type variable name. */
  function Render(t: TypeSig, show: bool, sep: string): string
    decreases t, 2
  {
    match t
    case Base(c) => BaseTypeName(c)
    case TypeVariable(n) => sep + n
    case ArrayOf(elem) => Render(elem, show, sep) + "[]"
    case ClassType(n, args) => ClassName(n, show, sep) + OpenArguments(t) + (if args == [] then "" else ">")
  }

  /** The type arguments without the closing ">": "<" and the argument
      texts joined by ", ", nothing when there are none. */
  function OpenArguments(t: TypeSig): string
    requires t.ClassType?
    decreases t, 1, |t.args| + 1
  {
    if t.args == [] then "" else "<" + Join(RenderedArgs(t, 0), ", ")
  }

  function ArgText(a: TypeArg): string
    decreases a
  {
    match a
    case Unbounded => "?"
    case Bounded(tag, s) => WildcardPrefix(tag) + Render(s, true, "")
  }

  function RenderedArgs(t: TypeSig, i: nat): (r: seq<string>)
    requires t.ClassType? && i <= |t.args|
    ensures |r| == |t.args| - i
    decreases t, 1, |t.args| - i
  {
    if i == |t.args| then [] else [ArgText(t.args[i])] + RenderedArgs(t, i + 1)
  }

  /** Entry j of the rendered arguments from i is the text of argument
      i + j. */
  lemma {:induction false} RenderedArgsAt(t: TypeSig, i: nat, j: nat)
    requires t.ClassType? && i + j < |t.args|
    ensures RenderedArgs(t, i)[j] == ArgText(t.args[i + j])
    decreases j
  {
    var r := RenderedArgs(t, i);
    assert r == [ArgText(t.args[i])] + RenderedArgs(t, i + 1);
    if j > 0 {
      RenderedArgsAt(t, i + 1, j - 1);
      assert r[j] == RenderedArgs(t, i + 1)[j - 1];
    }
  }

  /** Whether the type ends in a base type, which leaves the pending
      separator in place. */
  predicate KeepsSeparator(t: TypeSig) {
    t.Base? || (t.ArrayOf? && KeepsSeparator(t.elem))
  }

  /** The corrected visitor prints exactly Render: a type nested in k
      arrays on array stack a is printed with its k brackets (and the
      parameter name at the top level of a parameter) and leaves the array
      stack at a; the argument stack and every other field are as before. */
  lemma {:induction false} DriveRenders(v: Visitor, t: TypeSig, a: nat, k: nat)
    requires v.arrayStack == Marks(a, k)
    ensures Drive(v, t, Corrected)
         == v.(arrayStack := a,
               separator := if KeepsSeparator(t) then v.separator else "",
               declaration := v.declaration + Render(t, Shows(v), v.separator) + Brackets(k) + ArgName(v))
    decreases t, 2
  {
    match t
    case Base(c) =>
      BaseRenders(v, c, a, k);
    case TypeVariable(n) =>
      VariableRenders(v, n, a, k);
    case ArrayOf(elem) =>
      ArrayRenders(v, elem, a, k);
    case ClassType(n, args) =>
      ClassRenders(v, t, a, k);
  }

  /** endType on a type nested in k arrays pops its k marks and prints one
      "[]" per mark, then the parameter name, in both editions. Corrected,
      it also pops the type's own entry; as written, only when there were
      no marks. */
  lemma EndTypeMarks(v: Visitor, a: nat, k: nat)
    requires v.arrayStack == Marks(a, k)
    ensures EndType(v, Corrected) == v.(arrayStack := a, declaration := v.declaration + Brackets(k) + ArgName(v))
    ensures EndType(v, AsWritten)
         == v.(arrayStack := if k == 0 then a else Push(a, false), declaration := v.declaration + Brackets(k) + ArgName(v))
  {
    PopMarksOfMarks(a, k);
    PushThenPop(a, false);
  }

  lemma BaseRenders(v: Visitor, c: char, a: nat, k: nat)
    requires v.arrayStack == Marks(a, k)
    ensures Drive(v, Base(c), Corrected)
         == v.(arrayStack := a, declaration := v.declaration + BaseTypeName(c) + Brackets(k) + ArgName(v))
  {
    EndTypeMarks(v.(declaration := v.declaration + BaseTypeName(c)), a, k);
  }

  lemma VariableRenders(v: Visitor, n: string, a: nat, k: nat)
    requires v.arrayStack == Marks(a, k)
    ensures Drive(v, TypeVariable(n), Corrected)
         == v.(arrayStack := a, separator := "", declaration := v.declaration + (v.separator + n) + Brackets(k) + ArgName(v))
  {
    var x := v.(declaration := v.declaration + v.separator + n, separator := "");
    assert Drive(v, TypeVariable(n), Corrected) == EndType(x, Corrected);
    EndTypeMarks(x, a, k);
    assert ArgName(x) == ArgName(v);
    Regroup(v.declaration, v.separator, n, Brackets(k), ArgName(v));
  }

  lemma Regroup(d: string, x: string, y: string, b: string, g: string)
    ensures d + x + y + b + g == d + (x + y) + b + g
  {
  }

  /** visitArrayType sets a mark on top of the array stack. */
  lemma ArrayStep(v: Visitor, elem: TypeSig, a: nat, k: nat)
    requires v.arrayStack == Marks(a, k)
    ensures Drive(v, ArrayOf(elem), Corrected) == Drive(v.(arrayStack := Marks(a, k + 1)), elem, Corrected)
  {
    PushThenPop(Marks(a, k), false);
  }

  lemma BracketsRegroup(d: string, r: string, k: nat, g: string)
    ensures d + r + Brackets(k + 1) + g == d + (r + "[]") + Brackets(k) + g
  {
    assert Brackets(k + 1) == "[]" + Brackets(k);
  }

  lemma {:induction false} ArrayRenders(v: Visitor, elem: TypeSig, a: nat, k: nat)
    requires v.arrayStack == Marks(a, k)
    ensures Drive(v, ArrayOf(elem), Corrected)
         == v.(arrayStack := a,
               separator := if KeepsSeparator(elem) then v.separator else "",
               declaration := v.declaration + (Render(elem, Shows(v), v.separator) + "[]") + Brackets(k) + ArgName(v))
    decreases ArrayOf(elem), 1
  {
    ArrayStep(v, elem, a, k);
    var u := v.(arrayStack := Marks(a, k + 1));
    DriveRenders(u, elem, a, k + 1);
    ArrayClose(v, u, elem, a, k, Drive(u, elem, Corrected));
  }

  /** The element printed one array deeper is the array printed here: its
      text, then "[]" and the outer brackets. */
  lemma ArrayClose(v: Visitor, u: Visitor, elem: TypeSig, a: nat, k: nat, w: Visitor)
    requires u == v.(arrayStack := Marks(a, k + 1))
    requires w == u.(arrayStack := a,
                     separator := if KeepsSeparator(elem) then u.separator else "",
                     declaration := u.declaration + Render(elem, Shows(u), u.separator) + Brackets(k + 1) + ArgName(u))
    ensures w == v.(arrayStack := a,
                    separator := if KeepsSeparator(elem) then v.separator else "",
                    declaration := v.declaration + (Render(elem, Shows(v), v.separator) + "[]") + Brackets(k) + ArgName(v))
  {
    assert Shows(u) == Shows(v) && ArgName(u) == ArgName(v);
    BracketsRegroup(v.declaration, Render(elem, Shows(v), v.separator), k, ArgName(v));
  }

  lemma ClassRegroup(d: string, n: string, o: string, c: string, b: string, g: string)
    ensures d + n + o + c + b + g == d + (n + o + c) + b + g
  {
  }

  /** A class type without its closing endType: the name, the arguments
      and ">" when there are any, with the argument stack restored. */
  lemma {:induction false} ClassStep(v: Visitor, t: TypeSig)
    requires t.ClassType?
    ensures Drive(v, t, Corrected)
         == EndType(v.(separator := "",
                       declaration := v.declaration + ClassName(t.name, Shows(v), v.separator) + OpenArguments(t)
                                      + (if t.args == [] then "" else ">")), Corrected)
    decreases t, 1, |t.args| + 1
  {
    var b := v.argumentStack;
    var u := VisitClassType(v, t.name);
    DriveArgsRender(u, t, 0, b, u.declaration);
    PushThenPop(b, t.args != []);
  }

  lemma {:induction false} ClassRenders(v: Visitor, t: TypeSig, a: nat, k: nat)
    requires t.ClassType? && v.arrayStack == Marks(a, k)
    ensures Drive(v, t, Corrected)
         == v.(arrayStack := a, separator := "",
               declaration := v.declaration + Render(t, Shows(v), v.separator) + Brackets(k) + ArgName(v))
    decreases t, 1, |t.args| + 2
  {
    ClassStep(v, t);
    ClassEnd(v, t, a, k);
  }

  /** Closing a class type: the name and arguments printed, the dimensions
      and the argument name follow. */
  lemma ClassEnd(v: Visitor, t: TypeSig, a: nat, k: nat)
    requires t.ClassType? && v.arrayStack == Marks(a, k)
    ensures EndType(v.(separator := "",
                       declaration := v.declaration + ClassName(t.name, Shows(v), v.separator) + OpenArguments(t)
                                      + (if t.args == [] then "" else ">")), Corrected)
         == v.(arrayStack := a, separator := "",
               declaration := v.declaration + Render(t, Shows(v), v.separator) + Brackets(k) + ArgName(v))
  {
    var name := ClassName(t.name, Shows(v), v.separator);
    var close := if t.args == [] then "" else ">";
    var x := v.(separator := "", declaration := v.declaration + name + OpenArguments(t) + close);
    EndTypeMarks(x, a, k);
    ClassText(v, t, x, a, k, EndType(x, Corrected));
  }

  lemma ClassText(v: Visitor, t: TypeSig, x: Visitor, a: nat, k: nat, w: Visitor)
    requires t.ClassType?
    requires x == v.(separator := "",
                     declaration := v.declaration + ClassName(t.name, Shows(v), v.separator) + OpenArguments(t)
                                    + (if t.args == [] then "" else ">"))
    requires w == x.(arrayStack := a, declaration := x.declaration + Brackets(k) + ArgName(x))
    ensures w == v.(arrayStack := a, separator := "",
                    declaration := v.declaration + Render(t, Shows(v), v.separator) + Brackets(k) + ArgName(v))
  {
    var name := ClassName(t.name, Shows(v), v.separator);
    var close := if t.args == [] then "" else ">";
    assert Render(t, Shows(v), v.separator) == name + OpenArguments(t) + close;
    assert ArgName(x) == ArgName(v);
    ClassRegroup(v.declaration, name, OpenArguments(t), close, Brackets(k), ArgName(v));
  }

  /** A type argument is printed by ArgText, after "<" if it is the first
      and after ", " otherwise, and sets the top entry of the argument
      stack. */
  lemma {:induction false} ArgumentRenders(v: Visitor, x: TypeArg, first: bool, b: nat)
    requires v.argumentStack == Push(b, !first) && v.separator == ""
    ensures DriveArg(v, x, Corrected)
         == v.(argumentStack := Push(b, true), declaration := v.declaration + (if first then "<" else ", ") + ArgText(x))
    decreases x, 1
  {
    match x {
      case Unbounded =>
        ArgumentOpens(v, first, b);
      case Bounded(tag, s) =>
        var u := VisitTypeArgument(v, tag);
        BoundedOpens(v, tag, first, b);
        DriveRenders(u, s, v.arrayStack, 0);
        BoundedCloses(v, u, tag, s, first, b, Drive(u, s, Corrected));
    }
  }

  /** The opening of an argument: "<" for the first, ", " after another,
      with the top entry of the argument stack set. */
  lemma ArgumentOpens(v: Visitor, first: bool, b: nat)
    requires v.argumentStack == Push(b, !first)
    ensures OpenArgument(v) == v.(argumentStack := Push(b, true), declaration := v.declaration + (if first then "<" else ", "))
  {
    PushThenPop(b, !first);
  }

  /** A bounded argument opens, prints its wildcard and starts its type at
      array depth 0. */
  lemma BoundedOpens(v: Visitor, tag: char, first: bool, b: nat)
    requires v.argumentStack == Push(b, !first)
    ensures VisitTypeArgument(v, tag)
         == v.(argumentStack := Push(b, true), declaration := v.declaration + (if first then "<" else ", ") + WildcardPrefix(tag),
               arrayStack := Marks(v.arrayStack, 0))
  {
    ArgumentOpens(v, first, b);
  }

  /** The bound's type printed inside the argument: the argument text. */
  lemma BoundedCloses(v: Visitor, u: Visitor, tag: char, s: TypeSig, first: bool, b: nat, w: Visitor)
    requires v.separator == ""
    requires u == v.(argumentStack := Push(b, true), declaration := v.declaration + (if first then "<" else ", ") + WildcardPrefix(tag),
                     arrayStack := Marks(v.arrayStack, 0))
    requires w == u.(arrayStack := v.arrayStack,
                     separator := if KeepsSeparator(s) then u.separator else "",
                     declaration := u.declaration + Render(s, Shows(u), u.separator) + Brackets(0) + ArgName(u))
    ensures w == v.(argumentStack := Push(b, true), declaration := v.declaration + (if first then "<" else ", ") + ArgText(Bounded(tag, s)))
  {
    assert Shows(u) && ArgName(u) == "";
    ArgumentRegroup(v.declaration + (if first then "<" else ", "), WildcardPrefix(tag), Render(s, true, ""));
  }

  lemma ArgumentRegroup(d: string, w: string, r: string)
    ensures d + w + r + Brackets(0) + "" == d + (w + r)
  {
  }

  /** Appending entry i to the list joined so far. */
  lemma JoinedStep(all: seq<string>, i: nat, d: string, cur: string)
    requires i < |all|
    requires i == 0 ==> cur == d
    requires i > 0 ==> cur == d + "<" + Join(all[..i], ", ")
    ensures cur + (if i == 0 then "<" else ", ") + all[i] == d + "<" + Join(all[..i + 1], ", ")
  {
    if i > 0 {
      assert all[..i + 1] == all[..i] + [all[i]];
      JoinSnoc(all[..i], all[i], ", ");
    } else {
      assert all[..1] == [all[0]];
    }
  }

  /** The type arguments from i on: each is printed by ArgText, the first
      after "<" and the others after ", ", so that the whole list is the
      arguments joined by ", "; both stacks come back to where they were. */
  lemma {:induction false} DriveArgsRender(v: Visitor, t: TypeSig, i: nat, b: nat, d: string)
    requires t.ClassType? && i <= |t.args|
    requires v.argumentStack == Push(b, i > 0) && v.separator == ""
    requires i == 0 ==> v.declaration == d
    requires i > 0 ==> v.declaration == d + "<" + Join(RenderedArgs(t, 0)[..i], ", ")
    ensures DriveArgs(v, t, i, Corrected)
         == v.(argumentStack := Push(b, |t.args| > 0), declaration := d + OpenArguments(t))
    decreases t, 1, |t.args| - i, 1
  {
    if i == |t.args| {
      ArgsDone(v, t, b, d);
    } else {
      var w := ArgsStep(v, t, i, b, d);
      DriveArgsRender(w, t, i + 1, b, d);
    }
  }

  /** Past the last type argument the visitor holds the whole list. */
  lemma ArgsDone(v: Visitor, t: TypeSig, b: nat, d: string)
    requires t.ClassType?
    requires v.argumentStack == Push(b, |t.args| > 0)
    requires |t.args| == 0 ==> v.declaration == d
    requires |t.args| > 0 ==> v.declaration == d + "<" + Join(RenderedArgs(t, 0)[..|t.args|], ", ")
    ensures v == v.(argumentStack := Push(b, |t.args| > 0), declaration := d + OpenArguments(t))
  {
    var all := RenderedArgs(t, 0);
    if |t.args| > 0 {
      assert all[..|t.args|] == all;
    } else {
      assert d + "" == d;
    }
  }

  /** One type argument more: the visitor after entry i has the list up to
      and including entry i printed. */
  lemma {:induction false} ArgsStep(v: Visitor, t: TypeSig, i: nat, b: nat, d: string) returns (w: Visitor)
    requires t.ClassType? && i < |t.args|
    requires v.argumentStack == Push(b, i > 0) && v.separator == ""
    requires i == 0 ==> v.declaration == d
    requires i > 0 ==> v.declaration == d + "<" + Join(RenderedArgs(t, 0)[..i], ", ")
    ensures DriveArgs(v, t, i, Corrected) == DriveArgs(w, t, i + 1, Corrected)
    ensures w == v.(argumentStack := Push(b, true), declaration := d + "<" + Join(RenderedArgs(t, 0)[..i + 1], ", "))
    decreases t, 1, |t.args| - i, 0
  {
    var all := RenderedArgs(t, 0);
    ArgumentRenders(v, t.args[i], i == 0, b);
    RenderedArgsAt(t, 0, i);
    JoinedStep(all, i, d, v.declaration);
    w := v.(argumentStack := Push(b, true),
            declaration := v.declaration + (if i == 0 then "<" else ", ") + ArgText(t.args[i]));
  }

  /** As written, endType leaves the false entry of a type nested in at
      least one array on the stack. */
  lemma EndTypeLeaks(v: Visitor, a: nat, k: nat)
    requires v.arrayStack == Marks(a, k) && k >= 1
    ensures EndType(v, AsWritten).arrayStack == Push(a, false)
    ensures EndType(v, Corrected).arrayStack == a
  {
    PopMarksOfMarks(a, k);
  }

  /** The leaked entry is popped by the enclosing class type's endType in
      place of its own: an array of a generic class whose argument is an
      array, such as the return type of ()[Ljava/util/List<[I>;, loses its
      outer brackets. */
  lemma LeakLosesBrackets(n: string)
    requires n != OBJECT
    ensures var t := ArrayOf(ClassType(n, [Bounded(INSTANCEOF, ArrayOf(Base('I')))]));
      && Drive(Child(""), t, AsWritten).declaration == Dotted(n) + "<int[]>"
      && Render(t, false, "") == Dotted(n) + "<int[]>[]"
  {
    LeakTrace(n);
    LeakRender(n);
  }

  lemma LeakTrace(n: string)
    requires n != OBJECT
    ensures Drive(Child(""), ArrayOf(ClassType(n, [Bounded(INSTANCEOF, ArrayOf(Base('I')))])), AsWritten).declaration
         == Dotted(n) + "<int[]>"
  {
    var ct := ClassType(n, [Bounded(INSTANCEOF, ArrayOf(Base('I')))]);
    var v2 := VisitClassType(VisitArrayType(Child("")), n);
    LeakOpen(n);
    LeakArgs(v2, ct, Dotted(n));
    var v5 := v2.(argumentStack := 1, arrayStack := 2, declaration := Dotted(n) + "<int[]");
    LeakEnd(v5, Dotted(n));
    assert Drive(Child(""), ArrayOf(ct), AsWritten) == VisitEnd(DriveArgs(v2, ct, 0, AsWritten), AsWritten);
  }

  /** The start of the trace: the array's entry, then the class name. */
  lemma LeakOpen(n: string)
    requires n != OBJECT
    ensures VisitClassType(VisitArrayType(Child("")), n) == Child("").(arrayStack := 1, declaration := Dotted(n))
  {
    var v1 := VisitArrayType(Child(""));
    assert v1 == Child("").(arrayStack := 1);
    assert !Shows(v1) && Push(0, false) == 0;
    NamePrinted(n);
  }

  lemma NamePrinted(n: string)
    requires n != OBJECT
    ensures ClassName(n, false, "") == Dotted(n)
  {
    assert "" + Dotted(n) == Dotted(n);
  }

  /** The one type argument of the trace. */
  lemma LeakArgs(v2: Visitor, ct: TypeSig, d: string)
    requires ct.ClassType? && ct.args == [Bounded(INSTANCEOF, ArrayOf(Base('I')))]
    requires v2.argumentStack == 0 && v2.arrayStack == 1 && v2.declaration == d
    ensures DriveArgs(v2, ct, 0, AsWritten) == v2.(argumentStack := 1, arrayStack := 2, declaration := d + "<int[]")
  {
    LeakArgument(v2, d);
    var v5 := v2.(argumentStack := 1, arrayStack := 2, declaration := d + "<int[]");
    assert DriveArgs(v2, ct, 0, AsWritten) == DriveArgs(v5, ct, 1, AsWritten);
  }

  /** The argument int[] of the trace: it is printed with its brackets and,
      as written, its start entry stays on the array stack. */
  lemma LeakArgument(v2: Visitor, d: string)
    requires v2.argumentStack == 0 && v2.arrayStack == 1 && v2.declaration == d
    ensures DriveArg(v2, Bounded(INSTANCEOF, ArrayOf(Base('I'))), AsWritten)
         == v2.(argumentStack := 1, arrayStack := 2, declaration := d + "<int[]")
  {
    var o := OpenArgument(v2);
    assert o == v2.(argumentStack := 1, declaration := d + "<");
    assert WildcardPrefix(INSTANCEOF) == "";
    assert o.declaration + "" == o.declaration;
    var v3 := VisitTypeArgument(v2, INSTANCEOF);
    assert v3 == o.(arrayStack := 2);
    var v4 := VisitArrayType(v3);
    assert v4 == o.(arrayStack := 5);
    LeakBase(v4, d);
  }

  /** The element int of the trace: "int" and one "[]", and as written the
      array stack keeps the element's start entry. */
  lemma LeakBase(v4: Visitor, d: string)
    requires v4.arrayStack == 5 && v4.argumentStack == 1 && v4.declaration == d + "<"
    ensures VisitBaseType(v4, 'I', AsWritten) == v4.(arrayStack := 2, declaration := d + "<int[]")
  {
    assert PopMarks(5) == (2, 1) by {
      assert PopMarks(2) == (2, 0);
    }
    assert BaseTypeName('I') == "int";
    assert Brackets(1) == "[]";
    var u := v4.(arrayStack := 2, declaration := d + "<" + "int" + "[]");
    assert ArgName(u) == "";
    assert u.declaration + "" == d + "<int[]";
  }

  /** The end of the class type of the trace: ">" and, since the leaked
      entry is popped as if it were the class type's own, no "[]". */
  lemma LeakEnd(v5: Visitor, d: string)
    requires v5.argumentStack == 1 && v5.arrayStack == 2 && v5.declaration == d + "<int[]"
    requires !v5.seenParameter
    ensures VisitEnd(v5, AsWritten).declaration == d + "<int[]>"
  {
    assert PopMarks(2) == (2, 0);
    assert Brackets(0) == "";
    var u := v5.(declaration := d + "<int[]" + ">", argumentStack := 0, arrayStack := 1);
    assert ArgName(u) == "";
    assert u.declaration + "" + "" == d + "<int[]>";
  }

  lemma LeakRender(n: string)
    requires n != OBJECT
    ensures Render(ArrayOf(ClassType(n, [Bounded(INSTANCEOF, ArrayOf(Base('I')))])), false, "")
         == Dotted(n) + "<int[]>[]"
  {
    var ct := ClassType(n, [Bounded(INSTANCEOF, ArrayOf(Base('I')))]);
    assert ArgText(ct.args[0]) == "int[]";
    assert RenderedArgs(ct, 0) == ["int[]"];
    assert OpenArguments(ct) == "<int[]";
  }

  // ----- the code as written on the types it prints right -----

  /** Whether an array occurs anywhere in a type, its type arguments
      included. */
  predicate HasArray(t: TypeSig) {
    match t
    case Base(_) => false
    case TypeVariable(_) => false
    case ArrayOf(_) => true
    case ClassType(_, args) => exists i :: 0 <= i < |args| && args[i].Bounded? && HasArray(args[i].sig)
  }

  /** Whether no class type inside an array (the type itself, when inArray)
      has an array among its type arguments, at any depth. On such a type
      the entry endType leaves behind is never popped in place of a mark. */
  predicate LeakFree(t: TypeSig, inArray: bool) {
    match t
    case Base(_) => true
    case TypeVariable(_) => true
    case ArrayOf(elem) => LeakFree(elem, true)
    case ClassType(_, args) =>
      forall i :: 0 <= i < |args| && args[i].Bounded? ==>
        LeakFree(args[i].sig, false) && !(inArray && HasArray(args[i].sig))
  }

  /** The number of false entries the code as written leaves on top of the
      stack below a type nested in k arrays. */
  function Leaks(t: TypeSig, k: nat): nat
    decreases t, 1
  {
    match t
    case Base(_) => if k == 0 then 0 else 1
    case TypeVariable(_) => if k == 0 then 0 else 1
    case ArrayOf(elem) => Leaks(elem, k + 1)
    case ClassType(_, _) =>
      var m := ArgsLeaks(t, 0);
      if m > 0 then m else if k == 0 then 0 else 1
  }

  function ArgsLeaks(t: TypeSig, i: nat): nat
    requires t.ClassType? && i <= |t.args|
    decreases t, 0, |t.args| - i
  {
    if i == |t.args| then 0 else ArgLeaks(t.args[i]) + ArgsLeaks(t, i + 1)
  }

  function ArgLeaks(x: TypeArg): nat
    decreases x
  {
    match x
    case Unbounded => 0
    case Bounded(_, s) => Leaks(s, 0)
  }

  /** A type without arrays leaves nothing behind. */
  lemma {:induction false} NoArrayNoLeak(t: TypeSig)
    requires !HasArray(t)
    ensures Leaks(t, 0) == 0
    decreases t, 1
  {
    if t.ClassType? {
      NoArrayArgsNoLeak(t, 0);
    }
  }

  lemma {:induction false} NoArrayArgsNoLeak(t: TypeSig, i: nat)
    requires t.ClassType? && i <= |t.args| && !HasArray(t)
    ensures ArgsLeaks(t, i) == 0
    decreases t, 0, |t.args| - i
  {
    if i < |t.args| {
      if t.args[i].Bounded? {
        NoArrayNoLeak(t.args[i].sig);
      }
      NoArrayArgsNoLeak(t, i + 1);
    }
  }

  /** Every bounded type argument from i on is leak-free outside an array. */
  predicate ArgsLeakFree(t: TypeSig, i: nat)
    requires t.ClassType?
  {
    forall j :: i <= j < |t.args| && t.args[j].Bounded? ==> LeakFree(t.args[j].sig, false)
  }

  /** The code as written on a leak-free type nested in k arrays over the
      array stack a, with no separator pending: it prints Render, the k
      "[]" and the parameter name, and leaves Leaks(t, k) false entries on
      top of a where the corrected visitor leaves a itself. */
  lemma {:induction false} WrittenRenders(v: Visitor, t: TypeSig, a: nat, k: nat)
    requires v.arrayStack == Marks(a, k) && v.separator == "" && LeakFree(t, k > 0)
    ensures Drive(v, t, AsWritten)
         == v.(arrayStack := Falses(a, Leaks(t, k)),
               declaration := v.declaration + Render(t, Shows(v), "") + Brackets(k) + ArgName(v))
    decreases t, 2
  {
    match t
    case Base(c) =>
      EndTypeMarks(v.(declaration := v.declaration + BaseTypeName(c)), a, k);
    case TypeVariable(n) =>
      WrittenVariable(v, n, a, k);
    case ArrayOf(elem) =>
      WrittenArray(v, elem, a, k);
    case ClassType(_, _) =>
      WrittenClass(v, t, a, k);
  }

  /** The endType of a type nested in k arrays once m false entries were
      left over its own: they are what the stack below is left with when
      there are any, and otherwise the type's own entry stays exactly when
      there were marks. */
  lemma EndWritten(y: Visitor, a: nat, k: nat, m: nat)
    requires y.arrayStack == Falses(Marks(a, k), m) && (k > 0 ==> m == 0)
    ensures EndType(y, AsWritten)
         == y.(arrayStack := Falses(a, if m > 0 then m else if k == 0 then 0 else 1),
               declaration := y.declaration + Brackets(k) + ArgName(y))
  {
    if m == 0 {
      EndTypeMarks(y, a, k);
    } else {
      var s := Falses(Push(a, false), m - 1);
      PushThenPop(s, false);
      assert PopMarks(Push(s, false)) == (Push(s, false), 0);
      FalsesAdd(a, 1, m - 1);
    }
  }

  lemma WrittenVariable(v: Visitor, n: string, a: nat, k: nat)
    requires v.arrayStack == Marks(a, k) && v.separator == ""
    ensures Drive(v, TypeVariable(n), AsWritten)
         == v.(arrayStack := Falses(a, Leaks(TypeVariable(n), k)),
               declaration := v.declaration + Render(TypeVariable(n), Shows(v), "") + Brackets(k) + ArgName(v))
  {
    assert "" + n == n;
    EndTypeMarks(v.(declaration := v.declaration + n), a, k);
  }

  lemma {:induction false} WrittenArray(v: Visitor, elem: TypeSig, a: nat, k: nat)
    requires v.arrayStack == Marks(a, k) && v.separator == "" && LeakFree(elem, true)
    ensures Drive(v, ArrayOf(elem), AsWritten)
         == v.(arrayStack := Falses(a, Leaks(elem, k + 1)),
               declaration := v.declaration + Render(ArrayOf(elem), Shows(v), "") + Brackets(k) + ArgName(v))
    decreases ArrayOf(elem), 1
  {
    PushThenPop(Marks(a, k), false);
    var u := v.(arrayStack := Marks(a, k + 1));
    assert VisitArrayType(v) == u;
    WrittenRenders(u, elem, a, k + 1);
    assert Shows(u) == Shows(v) && ArgName(u) == ArgName(v);
    BracketsRegroup(v.declaration, Render(elem, Shows(v), ""), k, ArgName(v));
  }

  /** A class type: its name, its arguments, which leave ArgsLeaks(t, 0)
      entries, and the closing visitEnd. */
  lemma {:induction false} WrittenClass(v: Visitor, t: TypeSig, a: nat, k: nat)
    requires t.ClassType? && v.arrayStack == Marks(a, k) && v.separator == "" && LeakFree(t, k > 0)
    ensures Drive(v, t, AsWritten)
         == v.(arrayStack := Falses(a, Leaks(t, k)),
               declaration := v.declaration + Render(t, Shows(v), "") + Brackets(k) + ArgName(v))
    decreases t, 1, |t.args| + 1
  {
    var b := v.argumentStack;
    var u := VisitClassType(v, t.name);
    assert ArgsLeakFree(t, 0);
    WrittenArgs(u, t, 0, b, u.declaration);
    if k > 0 {
      NoArrayArgsNoLeak(t, 0);
    }
    PushThenPop(b, t.args != []);
    WrittenClassEnd(v, t, DriveArgs(u, t, 0, AsWritten), a, k);
  }

  lemma WrittenClassEnd(v: Visitor, t: TypeSig, x: Visitor, a: nat, k: nat)
    requires t.ClassType? && v.arrayStack == Marks(a, k) && v.separator == ""
    requires k > 0 ==> ArgsLeaks(t, 0) == 0
    requires Top(x.argumentStack) == (t.args != []) && Pop(x.argumentStack) == v.argumentStack
    requires x == v.(argumentStack := x.argumentStack,
                     declaration := v.declaration + ClassName(t.name, Shows(v), "") + OpenArguments(t),
                     arrayStack := Falses(Marks(a, k), ArgsLeaks(t, 0)))
    ensures VisitEnd(x, AsWritten)
         == v.(arrayStack := Falses(a, Leaks(t, k)),
               declaration := v.declaration + Render(t, Shows(v), "") + Brackets(k) + ArgName(v))
  {
    var y := v.(declaration := x.declaration + (if t.args == [] then "" else ">"), arrayStack := x.arrayStack);
    assert VisitEnd(x, AsWritten) == EndType(y, AsWritten);
    WrittenClassClose(v, t, y, a, k);
  }

  /** The closing endType of a class type, its name and arguments printed
      and ArgsLeaks(t, 0) entries left over its own. */
  lemma WrittenClassClose(v: Visitor, t: TypeSig, y: Visitor, a: nat, k: nat)
    requires t.ClassType? && v.separator == ""
    requires k > 0 ==> ArgsLeaks(t, 0) == 0
    requires y == v.(declaration := v.declaration + ClassName(t.name, Shows(v), "") + OpenArguments(t)
                                    + (if t.args == [] then "" else ">"),
                     arrayStack := Falses(Marks(a, k), ArgsLeaks(t, 0)))
    ensures EndType(y, AsWritten)
         == v.(arrayStack := Falses(a, Leaks(t, k)),
               declaration := v.declaration + Render(t, Shows(v), "") + Brackets(k) + ArgName(v))
  {
    var m := ArgsLeaks(t, 0);
    EndWritten(y, a, k, m);
    assert Leaks(t, k) == if m > 0 then m else if k == 0 then 0 else 1;
    WrittenClassText(v, t, y, k);
  }

  lemma WrittenClassText(v: Visitor, t: TypeSig, y: Visitor, k: nat)
    requires t.ClassType?
    requires y == v.(declaration := v.declaration + ClassName(t.name, Shows(v), "") + OpenArguments(t)
                                    + (if t.args == [] then "" else ">"),
                     arrayStack := y.arrayStack)
    ensures y.declaration + Brackets(k) + ArgName(y) == v.declaration + Render(t, Shows(v), "") + Brackets(k) + ArgName(v)
  {
    var name := ClassName(t.name, Shows(v), "");
    var close := if t.args == [] then "" else ">";
    assert Render(t, Shows(v), "") == name + OpenArguments(t) + close;
    assert ArgName(y) == ArgName(v);
    ClassRegroup(v.declaration, name, OpenArguments(t), close, Brackets(k), ArgName(v));
  }

  /** The type arguments from i on: printed as the corrected visitor
      prints them, leaving ArgsLeaks(t, i) false entries on the array
      stack. */
  lemma {:induction false} WrittenArgs(v: Visitor, t: TypeSig, i: nat, b: nat, d: string)
    requires t.ClassType? && i <= |t.args| && ArgsLeakFree(t, i)
    requires v.argumentStack == Push(b, i > 0) && v.separator == ""
    requires i == 0 ==> v.declaration == d
    requires i > 0 ==> v.declaration == d + "<" + Join(RenderedArgs(t, 0)[..i], ", ")
    ensures DriveArgs(v, t, i, AsWritten)
         == v.(argumentStack := Push(b, |t.args| > 0), declaration := d + OpenArguments(t),
               arrayStack := Falses(v.arrayStack, ArgsLeaks(t, i)))
    decreases t, 1, |t.args| - i, 1
  {
    if i == |t.args| {
      ArgsDone(v, t, b, d);
    } else {
      ArgsLeakFreeNext(t, i);
      var w := WrittenArgsStep(v, t, i, b, d);
      WrittenArgs(w, t, i + 1, b, d);
      WrittenArgsJoin(v, w, t, i, b, d, DriveArgs(w, t, i + 1, AsWritten));
    }
  }

  lemma ArgsLeakFreeNext(t: TypeSig, i: nat)
    requires t.ClassType? && i < |t.args| && ArgsLeakFree(t, i)
    ensures ArgsLeakFree(t, i + 1) && (t.args[i].Bounded? ==> LeakFree(t.args[i].sig, false))
  {
  }

  /** The arguments after entry i, printed from the visitor after it, are
      the arguments from i on; the entries left add up. */
  lemma WrittenArgsJoin(v: Visitor, w: Visitor, t: TypeSig, i: nat, b: nat, d: string, z: Visitor)
    requires t.ClassType? && i < |t.args|
    requires w.arrayStack == Falses(v.arrayStack, ArgLeaks(t.args[i]))
    requires w == v.(argumentStack := w.argumentStack, declaration := w.declaration, arrayStack := w.arrayStack)
    requires z == w.(argumentStack := Push(b, |t.args| > 0), declaration := d + OpenArguments(t),
                     arrayStack := Falses(w.arrayStack, ArgsLeaks(t, i + 1)))
    ensures z == v.(argumentStack := Push(b, |t.args| > 0), declaration := d + OpenArguments(t),
                    arrayStack := Falses(v.arrayStack, ArgsLeaks(t, i)))
  {
    FalsesAdd(v.arrayStack, ArgLeaks(t.args[i]), ArgsLeaks(t, i + 1));
  }

  lemma {:induction false} WrittenArgsStep(v: Visitor, t: TypeSig, i: nat, b: nat, d: string) returns (w: Visitor)
    requires t.ClassType? && i < |t.args| && (t.args[i].Bounded? ==> LeakFree(t.args[i].sig, false))
    requires v.argumentStack == Push(b, i > 0) && v.separator == ""
    requires i == 0 ==> v.declaration == d
    requires i > 0 ==> v.declaration == d + "<" + Join(RenderedArgs(t, 0)[..i], ", ")
    ensures DriveArgs(v, t, i, AsWritten) == DriveArgs(w, t, i + 1, AsWritten)
    ensures w == v.(argumentStack := Push(b, true), declaration := d + "<" + Join(RenderedArgs(t, 0)[..i + 1], ", "),
                    arrayStack := Falses(v.arrayStack, ArgLeaks(t.args[i])))
    decreases t, 1, |t.args| - i, 0
  {
    var x := t.args[i];
    WrittenArgument(v, x, i == 0, b);
    RenderedArgsAt(t, 0, i);
    JoinedStep(RenderedArgs(t, 0), i, d, v.declaration);
    w := v.(argumentStack := Push(b, true),
            declaration := v.declaration + (if i == 0 then "<" else ", ") + ArgText(x),
            arrayStack := Falses(v.arrayStack, ArgLeaks(x)));
  }

  /** One type argument as written: its text, and the entries its bound's
      type leaves. */
  lemma {:induction false} WrittenArgument(v: Visitor, x: TypeArg, first: bool, b: nat)
    requires v.argumentStack == Push(b, !first) && v.separator == ""
    requires x.Bounded? ==> LeakFree(x.sig, false)
    ensures DriveArg(v, x, AsWritten)
         == v.(argumentStack := Push(b, true), declaration := v.declaration + (if first then "<" else ", ") + ArgText(x),
               arrayStack := Falses(v.arrayStack, ArgLeaks(x)))
    decreases x, 1
  {
    match x {
      case Unbounded =>
        ArgumentOpens(v, first, b);
      case Bounded(tag, sig) =>
        var u := VisitTypeArgument(v, tag);
        BoundedOpens(v, tag, first, b);
        WrittenRenders(u, sig, v.arrayStack, 0);
        BoundedCloses(v, u, tag, sig, first, b, Drive(u, sig, AsWritten).(arrayStack := v.arrayStack));
    }
  }

  /** On a leak-free type the code as written prints the type's Render,
      its k "[]" and the parameter name, exactly as the corrected visitor
      does; only the array stack differs, by the false entries left on top
      of the stack below the type. */
  lemma AsWrittenRenders(v: Visitor, t: TypeSig, a: nat, k: nat)
    requires v.arrayStack == Marks(a, k) && v.separator == "" && LeakFree(t, k > 0)
    ensures Drive(v, t, AsWritten) == Drive(v, t, Corrected).(arrayStack := Falses(a, Leaks(t, k)))
    ensures Drive(v, t, AsWritten).declaration == v.declaration + Render(t, Shows(v), "") + Brackets(k) + ArgName(v)
  {
    WrittenRenders(v, t, a, k);
    DriveRenders(v, t, a, k);
  }

  /** A plain two-dimensional array prints right as written. */
  lemma AsWrittenArrayExample()
    ensures Drive(Child(""), ArrayOf(ArrayOf(Base('I'))), AsWritten).declaration == "int[][]"
  {
    AsWrittenRenders(Child(""), ArrayOf(ArrayOf(Base('I'))), 0, 0);
    assert Render(ArrayOf(ArrayOf(Base('I'))), false, "") == "int[][]";
  }

  /** As written, a type variable drops the pending separator: the bound of
      U in <T:Ljava/lang/Object;U:TT;> is printed "<T, UT", where the
      corrected visitor prints "<T, U extends T". */
  lemma TypeVariableDropsSeparator(access: bv32)
    ensures var f := [Formal("T", Some(ClassType(OBJECT, [])), []), Formal("U", Some(TypeVariable("T")), [])];
      && DriveFormals(New(access), f, AsWritten).declaration == "<T, UT"
      && DriveFormals(New(access), f, Corrected).declaration == "<T, U extends T"
  {
    TwoFormalsTrace(access, AsWritten);
    TwoFormalsTrace(access, Corrected);
    TwoFormalsTexts();
  }

  lemma TwoFormalsTexts()
    ensures "<T, U" + "" + "T" == "<T, UT"
    ensures "<T, U" + " extends " + "T" == "<T, U extends T"
  {
  }

  /** T:Ljava/lang/Object; prints "<T": the class bound Object is hidden,
      and its separator is consumed with it. */
  lemma ObjectBoundTrace(access: bv32, e: Edition)
    ensures DriveFormal(New(access), Formal("T", Some(ClassType(OBJECT, [])), []), e)
         == New(access).(declaration := "<T", seenFormalParameter := true)
  {
    var v := New(access);
    var t := ClassType(OBJECT, []);
    var w := VisitFormalTypeParameter(v, "T");
    var u := VisitClassBound(w);
    assert u == w.(separator := " extends ");
    assert !Shows(u);
    var c := VisitClassType(u, OBJECT);
    assert c == w;
    assert DriveArgs(c, t, 0, e) == c;
    assert PopMarks(0) == (0, 0);
    assert VisitEnd(c, e) == w;
    assert Drive(u, t, e) == w;
  }

  lemma TwoFormalsTrace(access: bv32, e: Edition)
    ensures DriveFormals(New(access), [Formal("T", Some(ClassType(OBJECT, [])), []), Formal("U", Some(TypeVariable("T")), [])], e).declaration
         == "<T, U" + (if e == Corrected then " extends " else "") + "T"
  {
    var f := [Formal("T", Some(ClassType(OBJECT, [])), []), Formal("U", Some(TypeVariable("T")), [])];
    var v := New(access);
    ObjectBoundTrace(access, e);
    var w := DriveFormal(v, f[0], e);
    assert w == v.(declaration := "<T", seenFormalParameter := true);
    var u := VisitClassBound(VisitFormalTypeParameter(w, "U"));
    assert u == w.(declaration := "<T, U", separator := " extends ");
    assert PopMarks(0) == (0, 0);
    var x := Drive(u, TypeVariable("T"), e);
    assert x.declaration == "<T, U" + (if e == Corrected then " extends " else "") + "T" + Brackets(0) + "";
    assert DriveFormal(w, f[1], e) == x;
    assert f[1..][0] == f[1] && f[1..][1..] == [];
    assert DriveFormals(w, f[1..], e) == DriveFormals(x, [], e) == x;
    assert DriveFormals(v, f, e) == DriveFormals(w, f[1..], e);
  }

  // ---------------------------------------------------------------------
  // Formal type parameters

  /** A formal type parameter with its optional class bound and its
      interface bounds. */
  datatype Formal = Formal(name: string, classBound: Option<TypeSig>, interfaceBounds: seq<TypeSig>)

  function DriveFormal(v: Visitor, f: Formal, e: Edition): Visitor {
    var w := VisitFormalTypeParameter(v, f.name);
    var w' := if f.classBound.Some? then Drive(VisitClassBound(w), f.classBound.value, e) else w;
    DriveInterfaceBounds(w', f.interfaceBounds, e)
  }

  function DriveInterfaceBounds(v: Visitor, bounds: seq<TypeSig>, e: Edition): Visitor
    decreases |bounds|
  {
    if bounds == [] then v else DriveInterfaceBounds(Drive(VisitInterfaceBound(v), bounds[0], e), bounds[1..], e)
  }

  function DriveFormals(v: Visitor, formals: seq<Formal>, e: Edition): Visitor
    decreases |formals|
  {
    if formals == [] then v else DriveFormals(DriveFormal(v, formals[0], e), formals[1..], e)
  }

  /** The Java text of a formal: its name, " extends " before the class
      bound and before the first interface bound, ", " before the others. */
  function FormalText(f: Formal, show: bool): string {
    f.name
    + (if f.classBound.Some? then Render(f.classBound.value, show, " extends ") else "")
    + InterfaceBoundsText(f.interfaceBounds, show, false)
  }

  function InterfaceBoundsText(bounds: seq<TypeSig>, show: bool, seen: bool): string
    decreases |bounds|
  {
    if bounds == [] then ""
    else Render(bounds[0], show, if seen then ", " else " extends ") + InterfaceBoundsText(bounds[1..], show, true)
  }

  /** No bound is an array of a base type. A bound in Java source is a
      type variable or a class or interface type (section 4.4 of the Java
      Language Specification), so javac emits no other; a signature such
      as T:[I is well-formed under section 4.7.9.1 of the Java Virtual
      Machine Specification, but its bound prints without " extends ", as
      ArrayBoundLosesSeparator shows. */
  predicate ReferenceBounds(f: Formal) {
    && (f.classBound.Some? ==> !KeepsSeparator(f.classBound.value))
    && (forall j :: 0 <= j < |f.interfaceBounds| ==> !KeepsSeparator(f.interfaceBounds[j]))
  }

  /** In both editions the formal T:[I prints "<Tint[]": a base type never
      prints the pending separator. */
  lemma ArrayBoundLosesSeparator(access: bv32, e: Edition)
    ensures DriveFormal(New(access), Formal("T", Some(ArrayOf(Base('I'))), []), e).declaration == "<Tint[]"
  {
    var w := VisitFormalTypeParameter(New(access), "T");
    var u := VisitClassBound(w);
    assert u.arrayStack == Marks(0, 0);
    PushThenPop(Marks(0, 0), false);
    var x := u.(arrayStack := Marks(0, 1));
    assert VisitArrayType(u) == x;
    var y := x.(declaration := x.declaration + "int");
    EndTypeMarks(y, 0, 1);
    assert ArgName(y) == "" && Brackets(1) == "[]";
    assert Drive(u, ArrayOf(Base('I')), e).declaration == "<Tint[]";
  }

  lemma EmptyTail(d: string, r: string)
    ensures d + r + Brackets(0) + "" == d + r
  {
  }

  /** One bound: the separator set by the bound event, then the type. */
  lemma BoundStep(v: Visitor, sep: string, t: TypeSig)
    requires v.separator == sep && !v.seenParameter && !KeepsSeparator(t)
    requires v.arrayStack == Marks(Pop(v.arrayStack), 0)
    ensures Drive(v, t, Corrected)
         == v.(arrayStack := Pop(v.arrayStack), separator := "", declaration := v.declaration + Render(t, Shows(v), sep))
  {
    DriveRenders(v, t, Pop(v.arrayStack), 0);
    assert ArgName(v) == "";
    EmptyTail(v.declaration, Render(t, Shows(v), sep));
  }

  lemma Regroup2(d: string, x: string, y: string)
    ensures d + x + y == d + (x + y)
  {
  }

  /** The interface bounds: " extends " before the first of a formal, ", "
      before each later one. */
  lemma {:induction false} InterfaceBoundsRender(v: Visitor, bounds: seq<TypeSig>)
    requires v.separator == "" && !v.seenParameter
    requires forall j :: 0 <= j < |bounds| ==> !KeepsSeparator(bounds[j])
    ensures DriveInterfaceBounds(v, bounds, Corrected)
         == v.(seenInterfaceBound := v.seenInterfaceBound || bounds != [],
               declaration := v.declaration + InterfaceBoundsText(bounds, Shows(v), v.seenInterfaceBound))
    decreases |bounds|
  {
    if bounds == [] {
      assert v.declaration + "" == v.declaration;
    } else {
      var sep := if v.seenInterfaceBound then ", " else " extends ";
      var u := VisitInterfaceBound(v);
      PushThenPop(v.arrayStack, false);
      BoundStep(u, sep, bounds[0]);
      var r := Render(bounds[0], Shows(v), sep);
      var w := v.(seenInterfaceBound := true, declaration := v.declaration + r);
      assert Drive(u, bounds[0], Corrected) == w;
      InterfaceBoundsRender(w, bounds[1..]);
      Regroup2(v.declaration, r, InterfaceBoundsText(bounds[1..], Shows(v), true));
    }
  }

  /** The corrected visitor prints a formal as "<" (first) or ", " (later)
      and its text. */
  lemma FormalRenders(v: Visitor, f: Formal)
    requires v.separator == "" && !v.seenParameter && ReferenceBounds(f)
    ensures DriveFormal(v, f, Corrected)
         == v.(seenFormalParameter := true,
               seenInterfaceBound := f.interfaceBounds != [],
               declaration := v.declaration + (if v.seenFormalParameter then ", " else "<") + FormalText(f, Shows(v)))
  {
    var p := if v.seenFormalParameter then ", " else "<";
    var w := VisitFormalTypeParameter(v, f.name);
    var cb := if f.classBound.Some? then Render(f.classBound.value, Shows(v), " extends ") else "";
    var w' := w.(declaration := w.declaration + cb);
    if f.classBound.Some? {
      var u := VisitClassBound(w);
      PushThenPop(v.arrayStack, false);
      BoundStep(u, " extends ", f.classBound.value);
      assert Drive(u, f.classBound.value, Corrected) == w';
    } else {
      assert w.declaration + "" == w.declaration;
    }
    InterfaceBoundsRender(w', f.interfaceBounds);
    var ib := InterfaceBoundsText(f.interfaceBounds, Shows(v), false);
    FormalRegroup(v.declaration, p, f.name, cb, ib);
  }

  lemma FormalRegroup(d: string, p: string, n: string, c: string, b: string)
    ensures d + p + n + c + b == d + p + (n + c + b)
  {
  }

  /** The formal type parameters open with "<" and are separated by ", ";
      endFormals later closes them with ">". */
  lemma {:induction false} FormalsRender(v: Visitor, formals: seq<Formal>, texts: seq<string>)
    requires v.separator == "" && !v.seenParameter
    requires forall j :: 0 <= j < |formals| ==> ReferenceBounds(formals[j])
    requires |texts| == |formals|
    requires forall j :: 0 <= j < |formals| ==> texts[j] == FormalText(formals[j], Shows(v))
    ensures DriveFormals(v, formals, Corrected).declaration
         == v.declaration + (if formals == [] then "" else (if v.seenFormalParameter then ", " else "<") + Join(texts, ", "))
    ensures DriveFormals(v, formals, Corrected).seenFormalParameter == (v.seenFormalParameter || formals != [])
    ensures DriveFormals(v, formals, Corrected).separator == ""
    ensures DriveFormals(v, formals, Corrected).argumentStack == v.argumentStack
    ensures DriveFormals(v, formals, Corrected).arrayStack == v.arrayStack
    ensures DriveFormals(v, formals, Corrected).seenParameter == v.seenParameter
    ensures DriveFormals(v, formals, Corrected).argCount == v.argCount
    ensures DriveFormals(v, formals, Corrected).exceptions == v.exceptions
    decreases |formals|
  {
    if formals == [] {
      assert v.declaration + "" == v.declaration;
    } else {
      FormalRenders(v, formals[0]);
      var w := DriveFormal(v, formals[0], Corrected);
      assert Shows(w) == Shows(v);
      FormalsRender(w, formals[1..], texts[1..]);
      JoinedRegroup(v.declaration, if v.seenFormalParameter then ", " else "<", texts[0], texts[1..]);
      assert [texts[0]] + texts[1..] == texts;
    }
  }

  // ---------------------------------------------------------------------
  // Method signatures

  /** visitReturnType with the return type driven through its child
      visitor, which appends to a fresh return type buffer. */
  function VisitReturnType(v: Visitor, t: TypeSig, e: Edition): (w: Visitor)
    ensures w.declaration == ReturnTypeOpen(v).declaration && IsSuffix(")", w.declaration)
    ensures !w.seenParameter && !w.seenFormalParameter && w.returnType.Some?
    ensures w.exceptions == v.exceptions
  {
    ReturnTypeOpen(v).(returnType := Some(Drive(Child(""), t, e).declaration))
  }

  /** visitExceptionType with the exception type driven through a child
      visitor that appends to the shared exceptions buffer. */
  function VisitExceptionType(v: Visitor, t: TypeSig, e: Edition): (w: Visitor)
    ensures w == v.(exceptions := w.exceptions) && w.exceptions.Some?
    ensures v.exceptions.Some? ==> IsPrefix(v.exceptions.value + ", ", w.exceptions.value)
  {
    var buffer := if v.exceptions.None? then "" else v.exceptions.value + ", ";
    v.(exceptions := Some(Drive(Child(buffer), t, e).declaration))
  }

  function DriveParameters(v: Visitor, params: seq<TypeSig>, e: Edition): Visitor
    decreases |params|
  {
    if params == [] then v else DriveParameters(Drive(VisitParameterType(v), params[0], e), params[1..], e)
  }

  function DriveExceptions(v: Visitor, exceptions: seq<TypeSig>, e: Edition): Visitor
    decreases |exceptions|
  {
    if exceptions == [] then v else DriveExceptions(VisitExceptionType(v, exceptions[0], e), exceptions[1..], e)
  }

  /** A method signature: type parameters, parameter types, return type,
      exception types. */
  datatype MethodSig = MethodSig(formals: seq<Formal>, params: seq<TypeSig>, result: TypeSig, throws: seq<TypeSig>)

  function DriveMethod(v: Visitor, m: MethodSig, e: Edition): Visitor {
    DriveExceptions(VisitReturnType(DriveParameters(DriveFormals(v, m.formals, e), m.params, e), m.result, e), m.throws, e)
  }

  /** The text of parameter i: its type, then " arg" and its number. */
  function ParameterText(t: TypeSig, i: nat): string {
    Render(t, true, "") + " arg" + IntToString(i)
  }

  lemma ParameterRegroup(d: string, p: string, r: string, n: string)
    ensures d + p + r + Brackets(0) + (" arg" + n) == d + p + (r + " arg" + n)
  {
  }

  /** One parameter: "(" before the first and ", " before the others, its
      type and its name, the argument counter on its number. */
  lemma ParameterStep(v: Visitor, t: TypeSig, first: nat)
    requires v.separator == "" && v.argumentStack == 0 && v.arrayStack == 0 && !v.seenFormalParameter
    requires v.seenParameter <==> first > 0
    requires v.argCount == if first == 0 then 0 else first - 1
    ensures Drive(VisitParameterType(v), t, Corrected)
         == v.(seenParameter := true, argCount := first,
               declaration := v.declaration + (if first == 0 then "(" else ", ") + ParameterText(t, first))
  {
    var p := if first == 0 then "(" else ", ";
    var u := VisitParameterType(v);
    assert u == v.(seenParameter := true, argCount := first, declaration := v.declaration + p);
    DriveRenders(u, t, 0, 0);
    ParameterRegroup(v.declaration, p, Render(t, true, ""), IntToString(first));
  }

  /** Appending the next element to a ", "-joined list. */
  lemma JoinedRegroup(d: string, p: string, t0: string, rest: seq<string>)
    ensures d + p + t0 + (if rest == [] then "" else ", " + Join(rest, ", ")) == d + (p + Join([t0] + rest, ", "))
  {
    if rest == [] {
      assert Join([t0], ", ") == t0;
    } else {
      JoinCons(t0, rest, ", ");
    }
  }

  /** The parameters from number first on: "(" before the first of the
      method, ", " between them, each printed by ParameterText with its own
      number. */
  lemma {:induction false} ParametersRender(v: Visitor, params: seq<TypeSig>, first: nat, texts: seq<string>)
    requires v.separator == "" && v.argumentStack == 0 && v.arrayStack == 0 && !v.seenFormalParameter
    requires v.seenParameter <==> first > 0
    requires v.argCount == if first == 0 then 0 else first - 1
    requires |texts| == |params|
    requires forall j :: 0 <= j < |params| ==> texts[j] == ParameterText(params[j], first + j)
    ensures var w := DriveParameters(v, params, Corrected);
      && w.declaration == v.declaration + (if params == [] then "" else (if first == 0 then "(" else ", ") + Join(texts, ", "))
      && w.seenParameter == (first + |params| > 0)
      && w.argCount == (if first + |params| == 0 then 0 else first + |params| - 1)
      && w.separator == "" && w.argumentStack == 0 && w.arrayStack == 0 && !w.seenFormalParameter
      && w.exceptions == v.exceptions
    decreases |params|
  {
    if params == [] {
      assert v.declaration + "" == v.declaration;
    } else {
      ParameterStep(v, params[0], first);
      var w := Drive(VisitParameterType(v), params[0], Corrected);
      ParametersRender(w, params[1..], first + 1, texts[1..]);
      JoinedRegroup(v.declaration, if first == 0 then "(" else ", ", texts[0], texts[1..]);
      assert [texts[0]] + texts[1..] == texts;
    }
  }

  /** The first parameter closes the type parameters itself. */
  lemma ParametersEndFormals(v: Visitor, params: seq<TypeSig>, e: Edition)
    requires params != []
    ensures DriveParameters(v, params, e) == DriveParameters(EndFormals(v), params, e)
  {
    EndFormalsOnce(v);
  }

  /** One exception type, printed through a child visitor on the shared
      buffer: ", " before all but the first. */
  lemma ExceptionStep(v: Visitor, t: TypeSig)
    ensures VisitExceptionType(v, t, Corrected)
         == v.(exceptions := Some((if v.exceptions.None? then "" else v.exceptions.value + ", ") + Render(t, false, "")))
  {
    var buffer := if v.exceptions.None? then "" else v.exceptions.value + ", ";
    DriveRenders(Child(buffer), t, 0, 0);
    EmptyTail(buffer, Render(t, false, ""));
  }

  lemma ExceptionsRegroup(b: string, t0: string, rest: seq<string>)
    ensures (if rest == [] then b + t0 else b + t0 + ", " + Join(rest, ", ")) == b + Join([t0] + rest, ", ")
  {
    if rest == [] {
      assert Join([t0], ", ") == t0;
    } else {
      JoinCons(t0, rest, ", ");
    }
  }

  /** The buffer after the first exception type and the rest: the first
      text and the rest joined by ", " after what the buffer held. */
  lemma ExceptionsCons(v: Visitor, w: Visitor, buffer: string, texts: seq<string>, out: Visitor)
    requires texts != [] && w == v.(exceptions := Some(buffer + texts[0]))
    requires out == if texts[1..] == [] then w else w.(exceptions := Some(buffer + texts[0] + ", " + Join(texts[1..], ", ")))
    ensures out == v.(exceptions := Some(buffer + Join(texts, ", ")))
  {
    ExceptionsRegroup(buffer, texts[0], texts[1..]);
    assert [texts[0]] + texts[1..] == texts;
  }

  /** The exception types: each printed as Render shows a top-level type,
      joined by ", " after whatever the buffer held. */
  lemma {:induction false} ExceptionsRender(v: Visitor, exceptions: seq<TypeSig>, texts: seq<string>)
    requires |texts| == |exceptions|
    requires forall j :: 0 <= j < |exceptions| ==> texts[j] == Render(exceptions[j], false, "")
    ensures DriveExceptions(v, exceptions, Corrected)
         == if exceptions == [] then v
            else v.(exceptions := Some((if v.exceptions.None? then "" else v.exceptions.value + ", ") + Join(texts, ", ")))
    decreases |exceptions|
  {
    if exceptions != [] {
      var buffer := if v.exceptions.None? then "" else v.exceptions.value + ", ";
      ExceptionStep(v, exceptions[0]);
      var w := v.(exceptions := Some(buffer + texts[0]));
      ExceptionsRender(w, exceptions[1..], texts[1..]);
      ExceptionsCons(v, w, buffer, texts, DriveExceptions(w, exceptions[1..], Corrected));
    }
  }

  /** The formals of a method, closed: "<", the ", "-joined formal texts
      and ">", or nothing; the visitor is otherwise as constructed. */
  lemma FormalsHead(access: bv32, fs: seq<Formal>, formals: seq<string>)
    requires forall j :: 0 <= j < |fs| ==> ReferenceBounds(fs[j])
    requires |formals| == |fs| && forall j :: 0 <= j < |formals| ==> formals[j] == FormalText(fs[j], false)
    ensures var g := EndFormals(DriveFormals(New(access), fs, Corrected));
      && g.declaration == (if fs == [] then "" else "<" + Join(formals, ", ") + ">")
      && g.separator == "" && g.argumentStack == 0 && g.arrayStack == 0 && !g.seenFormalParameter
      && !g.seenParameter && g.argCount == 0 && g.exceptions.None?
  {
    FormalsRender(New(access), fs, formals);
    if fs != [] {
      assert "" + ("<" + Join(formals, ", ")) == "<" + Join(formals, ", ");
    }
  }

  /** The parameters closed by visitReturnType: "(", the ", "-joined
      parameter texts, ")". */
  lemma ParametersClose(g: Visitor, ps: seq<TypeSig>, params: seq<string>)
    requires g.separator == "" && g.argumentStack == 0 && g.arrayStack == 0 && !g.seenFormalParameter
    requires !g.seenParameter && g.argCount == 0
    requires |params| == |ps| && forall j :: 0 <= j < |params| ==> params[j] == ParameterText(ps[j], j)
    ensures var r := ReturnTypeOpen(DriveParameters(g, ps, Corrected));
      && r.declaration == g.declaration + "(" + Join(params, ", ") + ")"
      && r.exceptions == g.exceptions
  {
    ParametersFromStart(g, ps, params);
    ReturnTypeCloses(g, DriveParameters(g, ps, Corrected), |ps|, Join(params, ", "));
  }

  /** All the parameters of a method, numbered from 0. */
  lemma ParametersFromStart(g: Visitor, ps: seq<TypeSig>, params: seq<string>)
    requires g.separator == "" && g.argumentStack == 0 && g.arrayStack == 0 && !g.seenFormalParameter
    requires !g.seenParameter && g.argCount == 0
    requires |params| == |ps| && forall j :: 0 <= j < |params| ==> params[j] == ParameterText(ps[j], j)
    ensures var w := DriveParameters(g, ps, Corrected);
      && w.declaration == g.declaration + (if ps == [] then "" else "(" + Join(params, ", "))
      && w.seenParameter == (|ps| > 0) && !w.seenFormalParameter && w.exceptions == g.exceptions
    ensures ps == [] ==> Join(params, ", ") == ""
  {
    forall j | 0 <= j < |ps| ensures params[j] == ParameterText(ps[j], 0 + j) {
      assert 0 + j == j;
    }
    ParametersRender(g, ps, 0, params);
  }

  /** visitReturnType after n parameters: "(" when none was printed, then
      ")". */
  lemma ReturnTypeCloses(g: Visitor, w: Visitor, n: nat, joined: string)
    requires !w.seenFormalParameter && w.exceptions == g.exceptions
    requires w.seenParameter == (n > 0)
    requires w.declaration == g.declaration + (if n == 0 then "" else "(" + joined)
    requires n == 0 ==> joined == ""
    ensures ReturnTypeOpen(w).declaration == g.declaration + "(" + joined + ")"
    ensures ReturnTypeOpen(w).exceptions == g.exceptions
  {
    if n > 0 {
      Regroup2(g.declaration, "(", joined);
    } else {
      assert g.declaration + "" == g.declaration;
      assert g.declaration + "(" + "" == g.declaration + "(";
    }
  }

  /** Closing the type parameters early changes nothing once the return
      type opens. */
  lemma ReturnTypeAfterEndFormals(v: Visitor, ps: seq<TypeSig>)
    ensures ReturnTypeOpen(DriveParameters(v, ps, Corrected)) == ReturnTypeOpen(DriveParameters(EndFormals(v), ps, Corrected))
  {
    EndFormalsOnce(v);
    if ps != [] {
      ParametersEndFormals(v, ps, Corrected);
    }
  }

  /** The declaration part: the type parameters in angle brackets when
      there are any, then the parentheses around the ", "-joined
      parameters. */
  lemma MethodDeclarationRenders(access: bv32, m: MethodSig, formals: seq<string>, params: seq<string>)
    requires forall j :: 0 <= j < |m.formals| ==> ReferenceBounds(m.formals[j])
    requires |formals| == |m.formals| && forall j :: 0 <= j < |formals| ==> formals[j] == FormalText(m.formals[j], false)
    requires |params| == |m.params| && forall j :: 0 <= j < |params| ==> params[j] == ParameterText(m.params[j], j)
    ensures var r := ReturnTypeOpen(DriveParameters(DriveFormals(New(access), m.formals, Corrected), m.params, Corrected));
      && r.declaration == (if m.formals == [] then "" else "<" + Join(formals, ", ") + ">") + "(" + Join(params, ", ") + ")"
      && r.exceptions.None?
  {
    var f := DriveFormals(New(access), m.formals, Corrected);
    FormalsHead(access, m.formals, formals);
    ParametersClose(EndFormals(f), m.params, params);
    ReturnTypeAfterEndFormals(f, m.params);
  }

  /** The corrected visitor prints a method signature as its type
      parameters, "(" + the parameters, each "T argI", joined by ", " + ")";
      the return type goes to its own buffer (java.lang.Object left out, as
      at any top-level position outside a parameter list) and the
      ", "-joined exception types to theirs, absent when there are none. */
  lemma MethodRenders(access: bv32, m: MethodSig, formals: seq<string>, params: seq<string>, throws: seq<string>)
    requires forall j :: 0 <= j < |m.formals| ==> ReferenceBounds(m.formals[j])
    requires |formals| == |m.formals| && forall j :: 0 <= j < |formals| ==> formals[j] == FormalText(m.formals[j], false)
    requires |params| == |m.params| && forall j :: 0 <= j < |params| ==> params[j] == ParameterText(m.params[j], j)
    requires |throws| == |m.throws| && forall j :: 0 <= j < |throws| ==> throws[j] == Render(m.throws[j], false, "")
    ensures var w := DriveMethod(New(access), m, Corrected);
      && w.declaration == (if m.formals == [] then "" else "<" + Join(formals, ", ") + ">") + "(" + Join(params, ", ") + ")"
      && w.returnType == Some(Render(m.result, false, ""))
      && w.exceptions == (if m.throws == [] then None else Some(Join(throws, ", ")))
  {
    MethodDeclarationRenders(access, m, formals, params);
    var p := DriveParameters(DriveFormals(New(access), m.formals, Corrected), m.params, Corrected);
    DriveRenders(Child(""), m.result, 0, 0);
    EmptyTail("", Render(m.result, false, ""));
    assert "" + Render(m.result, false, "") == Render(m.result, false, "");
    var r := VisitReturnType(p, m.result, Corrected);
    ExceptionsRender(r, m.throws, throws);
    assert "" + Join(throws, ", ") == Join(throws, ", ");
  }
}
