/** Labels, semantic types and variables (com.thesis.Variable,
    com.thesis.GlobalVariable and the local-variable records built on them). */
module Values {

  import opened Wrappers
  import Text

  /** A position marker. Labels are compared by identity, which the model
      represents as a number. */
  datatype Label = Label(identity: nat)

  /** A semantic type. DataType's own class is not part of this model: a type
      is known here only by its toString text and by its print form. */
  datatype DataType = DataType(text: string, printed: string)

  /** The type named by a dotted class or primitive name; both forms of its
      text are taken to be that name. */
  function TypeFromName(name: string): DataType {
    DataType(name, name)
  }

  const UNKNOWN: DataType := TypeFromName("unknown")
  const BOOLEAN: DataType := TypeFromName("boolean")
  const INT: DataType := TypeFromName("int")
  const SHORT: DataType := TypeFromName("short")
  const LONG: DataType := TypeFromName("long")
  const FLOAT: DataType := TypeFromName("float")
  const DOUBLE: DataType := TypeFromName("double")
  const STRING: DataType := TypeFromName("java.lang.String")
  const CLASS: DataType := TypeFromName("java.lang.Class")

  /** A type slot holds a usable type: present, with non-empty text, and not
      the UNKNOWN placeholder. Expression.hasType and Variable.hasType both
      test exactly this. */
  predicate IsKnown(t: Option<DataType>) {
    t.Some? && t.value.text != "" && t.value != UNKNOWN
  }

  /** com.thesis.Variable: a name (null before one is given), a type and
      whether that type came from debug information. */
  datatype Variable = Variable(name: Option<string>, typ: Option<DataType>, debugType: bool)

  /** The no-argument constructor. */
  function NewVariable(): (v: Variable)
    ensures v.typ == Some(UNKNOWN) && !v.debugType && v.name.None?
    ensures !HasType(v) && !HasDebugType(v)
  {
    Variable(None, Some(UNKNOWN), false)
  }

  /** The two-argument constructor: a missing type becomes UNKNOWN. */
  function NamedVariable(name: Option<string>, t: Option<DataType>): (v: Variable)
    ensures v.name == name && !v.debugType
    ensures v.typ.Some? && v.typ.value == (if t.Some? then t.value else UNKNOWN)
    ensures !HasDebugType(v)
    ensures HasType(v) <==> IsKnown(t)
  {
    Variable(name, Some(if t.Some? then t.value else UNKNOWN), false)
  }

  predicate HasType(v: Variable) {
    IsKnown(v.typ)
  }

  predicate HasDebugType(v: Variable) {
    v.debugType
  }

  function SetType(v: Variable, t: Option<DataType>): (r: Variable)
    ensures r.typ == t && r.name == v.name && r.debugType == v.debugType
    ensures HasType(r) <==> IsKnown(t)
  {
    v.(typ := t)
  }

  function SetName(v: Variable, n: Option<string>): (r: Variable)
    ensures r.name == n && r.typ == v.typ && r.debugType == v.debugType
    ensures HasType(r) == HasType(v)
  {
    v.(name := n)
  }

  /** The text Java prints when concatenating a possibly-null name. */
  function NameText(name: Option<string>): string {
    if name.Some? then name.value else "null"
  }

  /** A local variable of a method: the variable, its slot, and whether it
      is a method argument (arguments are never declared in the body). The
      LocalVariable class itself is not part of this model; its toString is
      taken to be the name. */
  datatype LocalVariable = LocalVariable(v: Variable, index: int, isArgument: bool)

  /** A local built without debug information. */
  function PlainLocal(name: string, t: Option<DataType>, index: int): (l: LocalVariable)
    ensures l.v.name == Some(name) && l.index == index && !l.isArgument
    ensures !HasDebugType(l.v)
  {
    LocalVariable(NamedVariable(Some(name), t), index, false)
  }

  /** A local built from a debug-information entry: its type is a debug type. */
  function DebugLocal(name: string, t: DataType, index: int): (l: LocalVariable)
    ensures l.v.name == Some(name) && l.v.typ == Some(t) && l.index == index
    ensures HasDebugType(l.v) && !l.isArgument
  {
    LocalVariable(Variable(Some(name), Some(t), true), index, false)
  }

  /** com.thesis.GlobalVariable: a field with an optional owning type. */
  datatype GlobalVariable = GlobalVariable(v: Variable, owner: Option<DataType>)

  function NewGlobal(name: Option<string>, t: Option<DataType>, owner: Option<DataType>): (g: GlobalVariable)
    ensures g.owner == owner && g.v.name == name
    ensures g.v.typ.Some? && (t.None? ==> g.v.typ == Some(UNKNOWN))
    ensures t.Some? ==> g.v.typ == t
    ensures !HasDebugType(g.v)
  {
    GlobalVariable(NamedVariable(name, t), owner)
  }

  function GetOwner(g: GlobalVariable): Option<DataType> {
    g.owner
  }

  function SetOwner(g: GlobalVariable, owner: Option<DataType>): (r: GlobalVariable)
    ensures GetOwner(r) == owner && r.v == g.v
  {
    g.(owner := owner)
  }

  /** Owner's print form, a dot and the name; just the name (possibly null)
      when there is no owner. */
  function GlobalToString(g: GlobalVariable): (r: Option<string>)
    ensures g.owner.None? ==> r == g.v.name
    ensures g.owner.Some? ==> r.Some? && var p := g.owner.value.printed + ".";
      |r.value| == |p| + |NameText(g.v.name)| && r.value[..|p|] == p && r.value[|p|..] == NameText(g.v.name)
  {
    if g.owner.Some? then Some(g.owner.value.printed + "." + NameText(g.v.name)) else g.v.name
  }
}
