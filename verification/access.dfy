/** Access and property flags of class files and their members (section 4.1,
    Table 4.1-B, and section 4.6, Table 4.6-A, of the Java Virtual Machine
    Specification), as the 32-bit int the disassembler receives from ASM.
    Several flags share a bit: a class's ACC_SUPER is a method's
    ACC_SYNCHRONIZED, a method's ACC_BRIDGE is a field's ACC_VOLATILE, a
    method's ACC_VARARGS is a field's ACC_TRANSIENT. ACC_DEPRECATED is ASM's
    pseudo flag for the Deprecated attribute. */
module Access {

  const ACC_PUBLIC: bv32 := 0x0001
  const ACC_PRIVATE: bv32 := 0x0002
  const ACC_PROTECTED: bv32 := 0x0004
  const ACC_STATIC: bv32 := 0x0008
  const ACC_FINAL: bv32 := 0x0010
  const ACC_SUPER: bv32 := 0x0020
  const ACC_SYNCHRONIZED: bv32 := 0x0020
  const ACC_VOLATILE: bv32 := 0x0040
  const ACC_BRIDGE: bv32 := 0x0040
  const ACC_TRANSIENT: bv32 := 0x0080
  const ACC_VARARGS: bv32 := 0x0080
  const ACC_NATIVE: bv32 := 0x0100
  const ACC_INTERFACE: bv32 := 0x0200
  const ACC_ABSTRACT: bv32 := 0x0400
  const ACC_STRICT: bv32 := 0x0800
  const ACC_SYNTHETIC: bv32 := 0x1000
  const ACC_ANNOTATION: bv32 := 0x2000
  const ACC_ENUM: bv32 := 0x4000
  const ACC_MANDATED: bv32 := 0x8000
  const ACC_DEPRECATED: bv32 := 0x20000

  /** containsFlag: some bit of flag is set in value. */
  predicate HasFlag(value: bv32, flag: bv32) {
    value & flag != 0
  }

  /** value with the bits of flag cleared (value & ~flag). */
  function Clear(value: bv32, flag: bv32): (r: bv32)
    ensures !HasFlag(r, flag)
  {
    value & !flag
  }

  /** Clearing one set of bits leaves every disjoint flag as it was. */
  lemma ClearKeeps(value: bv32, flag: bv32, f: bv32)
    requires f & flag == 0
    ensures HasFlag(Clear(value, flag), f) <==> HasFlag(value, f)
  {
  }
}
