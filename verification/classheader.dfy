/** The class header of com.thesis.file.TextMaker.visit: the deprecation
    mark, the modifiers, the kind of type, the name, the superclass and the
    interfaces, then " {\n". */
module ClassHeader {

  import opened Wrappers
  import opened Text
  import opened Access
  import opened Modifiers

  // ---------------------------------------------------------------------
  // The header

  /** javaObjectName: the internal name with every '/' replaced by '.'. */
  function ObjectName(internalName: string): (r: string)
    ensures |r| == |internalName|
    ensures '/' !in r
  {
    var r := Dotted(internalName);
    assert forall i | 0 <= i < |r| :: r[i] != '/' by {
      forall i | 0 <= i < |r| ensures r[i] != '/' {
        DottedAt(internalName, i);
      }
    }
    r
  }

  /** appendSuperClass: " extends " and the dotted name, then a space,
      unless there is no superclass or it is java/lang/Object. */
  function SuperClass(superName: Option<string>): (r: string)
    ensures r == "" <==> superName.None? || superName.value == "java/lang/Object"
    ensures r != "" ==> r == " extends " + ObjectName(superName.value) + " "
  {
    if superName.Some? && superName.value != "java/lang/Object" then " extends " + ObjectName(superName.value) + " "
    else ""
  }

  /** The loop of appendInterfaces from entry i: each dotted name, followed
      by ", " unless it is the last. */
  function InterfaceList(interfaces: seq<string>, i: nat): string
    requires i <= |interfaces|
    decreases |interfaces| - i
  {
    if i == |interfaces| then ""
    else ObjectName(interfaces[i]) + (if i < |interfaces| - 1 then ", " else "") + InterfaceList(interfaces, i + 1)
  }

  /** appendInterfaces: " implements " and the list, only for a non-empty
      list. */
  function Interfaces(interfaces: Option<seq<string>>): (r: string)
    ensures r == "" <==> interfaces.None? || interfaces.value == []
  {
    if interfaces.Some? && |interfaces.value| > 0 then " implements " + InterfaceList(interfaces.value, 0) else ""
  }

  function ObjectNames(xs: seq<string>): (r: seq<string>)
    ensures |r| == |xs| && forall i :: 0 <= i < |xs| ==> r[i] == ObjectName(xs[i])
  {
    seq(|xs|, i requires 0 <= i < |xs| => ObjectName(xs[i]))
  }

  /** The interface list is the dotted names joined by ", ", with no
      separator before the first or after the last. */
  lemma {:induction false} InterfaceListIsJoin(interfaces: seq<string>, i: nat)
    requires i <= |interfaces|
    ensures InterfaceList(interfaces, i) == Join(ObjectNames(interfaces[i..]), ", ")
    decreases |interfaces| - i
  {
    if i < |interfaces| {
      InterfaceListIsJoin(interfaces, i + 1);
      var rest := ObjectNames(interfaces[i + 1..]);
      assert ObjectNames(interfaces[i..]) == [ObjectName(interfaces[i])] + rest;
      if i < |interfaces| - 1 {
        JoinCons(ObjectName(interfaces[i]), rest, ", ");
      } else {
        assert rest == [];
      }
    }
  }

  /** The kinds of type a class file declares. */
  datatype Kind = AnnotationKind | InterfaceKind | ClassKind | EnumKind

  /** The kind, decided in the source's order: annotation, interface, any
      non-enum class, enum. */
  function KindOf(access: bv32): (k: Kind)
    ensures k == AnnotationKind <==> HasFlag(access, ACC_ANNOTATION)
    ensures k == InterfaceKind <==> !HasFlag(access, ACC_ANNOTATION) && HasFlag(access, ACC_INTERFACE)
    ensures k == EnumKind <==> !HasFlag(access, ACC_ANNOTATION) && !HasFlag(access, ACC_INTERFACE) && HasFlag(access, ACC_ENUM)
  {
    if HasFlag(access, ACC_ANNOTATION) then AnnotationKind
    else if HasFlag(access, ACC_INTERFACE) then InterfaceKind
    else if !HasFlag(access, ACC_ENUM) then ClassKind
    else EnumKind
  }

  /** The buffer before the kind: "@Deprecated\n" when deprecated, then the
      modifiers of the access word with ACC_SUPER cleared. */
  function Front(access: bv32): string {
    (if HasFlag(access, ACC_DEPRECATED) then "@Deprecated\n" else "") + AppendAccess(Clear(access, ACC_SUPER))
  }

  /** The kind as written: an annotation or interface removes the first
      "abstract " after adding its keyword, an enum removes the first
      "final ". The removal fails (None) when the text is absent. */
  function KindTextAsWritten(front: string, kind: Kind): (r: Option<string>)
  {
    match kind
    case AnnotationKind => RemoveFirst(front + "@interface ", "abstract ")
    case InterfaceKind => RemoveFirst(front + "interface ", "abstract ")
    case ClassKind => Some(front + "class ")
    case EnumKind => RemoveFirst(front, "final ")
  }

  /** The kind with the enum removal made conditional: an enum that is not
      final keeps its text. */
  function KindText(front: string, kind: Kind): (r: Option<string>)
    ensures kind != EnumKind ==> r == KindTextAsWritten(front, kind)
    ensures kind == EnumKind ==> r.Some?
    ensures kind == EnumKind && IndexOf(front, "final ") == -1 ==> r == Some(front)
  {
    if kind == EnumKind && IndexOf(front, "final ") == -1 then Some(front) else KindTextAsWritten(front, kind)
  }

  /** The rest of the header after the kind: the name, the superclass
      (not for an enum), the interfaces (only for a class or an enum) and
      the block opening. */
  function Finish(kinded: Option<string>, kind: Kind, name: string, superName: Option<string>,
                  interfaces: Option<seq<string>>): (r: Option<string>)
    ensures r.Some? <==> kinded.Some?
    ensures r.Some? ==> IsPrefix(kinded.value + name, r.value) && IsSuffix(" {\n", r.value)
  {
    if kinded.None? then None
    else Some(kinded.value + name
              + (if kind != EnumKind then SuperClass(superName) else "")
              + (if kind == ClassKind || kind == EnumKind then Interfaces(interfaces) else "")
              + " {\n")
  }

  /** TextMaker.visit as written. */
  function VisitAsWritten(access: bv32, name: string, superName: Option<string>,
                          interfaces: Option<seq<string>>): (r: Option<string>)
    ensures KindOf(access) == ClassKind ==> r.Some?
    ensures KindOf(access) == EnumKind ==> (r.None? <==> IndexOf(Front(access), "final ") == -1)
    ensures r.Some? ==> IsSuffix(" {\n", r.value)
  {
    Finish(KindTextAsWritten(Front(access), KindOf(access)), KindOf(access), name, superName, interfaces)
  }

  /** TextMaker.visit with the enum case corrected. */
  function Visit(access: bv32, name: string, superName: Option<string>,
                 interfaces: Option<seq<string>>): (r: Option<string>)
    ensures KindOf(access) != EnumKind ==> r == VisitAsWritten(access, name, superName, interfaces)
    ensures KindOf(access) == ClassKind || KindOf(access) == EnumKind ==> r.Some?
    ensures r.Some? ==> IsSuffix(" {\n", r.value)
  {
    Finish(KindText(Front(access), KindOf(access)), KindOf(access), name, superName, interfaces)
  }

  /** An enum whose class is not final (one with constant bodies is
      compiled abstract, not final) has no "final " to remove: the header
      as written fails on public enum E. */
  lemma EnumWithoutFinalFails(name: string, superName: Option<string>, interfaces: Option<seq<string>>)
    ensures VisitAsWritten(ACC_PUBLIC | ACC_SUPER | ACC_ENUM, name, superName, interfaces).None?
  {
    var access := ACC_PUBLIC | ACC_SUPER | ACC_ENUM;
    assert KindOf(access) == EnumKind;
    assert !HasFlag(access, ACC_DEPRECATED);
    assert Front(access) == AppendAccess(Clear(access, ACC_SUPER));
    NoFinalWithoutFlag(Clear(access, ACC_SUPER));
  }

  /** The corrected header is produced for every access word section 4.1
      of the Java Virtual Machine Specification admits: an interface is
      abstract and an annotation is an interface, so "abstract " is there
      to remove. */
  lemma VisitTotal(access: bv32, name: string, superName: Option<string>, interfaces: Option<seq<string>>)
    requires HasFlag(access, ACC_INTERFACE) ==> HasFlag(access, ACC_ABSTRACT)
    requires HasFlag(access, ACC_ANNOTATION) ==> HasFlag(access, ACC_INTERFACE)
    ensures Visit(access, name, superName, interfaces).Some?
  {
    var kind := KindOf(access);
    if kind == AnnotationKind || kind == InterfaceKind {
      AbstractRemovable(access, if kind == AnnotationKind then "@interface " else "interface ");
    }
  }

  /** With ACC_INTERFACE (and so ACC_ABSTRACT) set, "abstract " occurs in
      the buffer before the kind keyword is appended. */
  lemma AbstractRemovable(access: bv32, tail: string)
    requires HasFlag(access, ACC_ABSTRACT)
    ensures IndexOf(Front(access) + tail, "abstract ") != -1
  {
    var a := Clear(access, ACC_SUPER);
    ClearKeeps(access, ACC_SUPER, ACC_ABSTRACT);
    AbstractPrinted(a);
    var k :| OccursAt(AppendAccess(a), "abstract ", k);
    var dep := if HasFlag(access, ACC_DEPRECATED) then "@Deprecated\n" else "";
    OccursWithin(dep, AppendAccess(a), tail, "abstract ", k);
    assert Front(access) + tail == dep + AppendAccess(a) + tail;
  }

  /** The header of a plain class: deprecation mark, modifiers, "class ",
      the name, the superclass clause, the interfaces clause, " {\n". */
  lemma ClassHeaderShape(access: bv32, name: string, superName: Option<string>, interfaces: Option<seq<string>>)
    requires !HasFlag(access, ACC_ANNOTATION) && !HasFlag(access, ACC_INTERFACE) && !HasFlag(access, ACC_ENUM)
    ensures Visit(access, name, superName, interfaces)
         == Some((if HasFlag(access, ACC_DEPRECATED) then "@Deprecated\n" else "")
                 + AppendAccess(Clear(access, ACC_SUPER)) + "class " + name
                 + SuperClass(superName) + Interfaces(interfaces) + " {\n")
  {
  }
}
