/** The method header of com.thesis.block.MethodBlock: the arguments seeded
    from the descriptor (and the debug information), the descriptor split
    into argument types, and the header text "modifiers return name(args)
    throws ..." with its abstract ending. The helpers of Util and of the
    Block base class, which are not part of this model, are passed in. */
module Methods {

  import opened Wrappers
  import opened Values
  import opened Text
  import opened Access

  /** The Util and Block helpers the header uses:
      typeOf          Util.getType of a type descriptor
      typeIndicator   getTypeIndicator: the type descriptor heading a string
      argumentNameBase Util.ARGUMENT_NAME_BASE
      objectName      Util.javaObjectName
      deprecation     addDeprecatedAnnotationIfNeeded
      modifiers       addAccess
      comment         addComment
      comma           addComma(i), the separator before the i-th list entry
      statementEnd    addStatementEnd */
  datatype Helpers = Helpers(
    typeOf: string -> DataType,
    typeIndicator: string -> string,
    argumentNameBase: string,
    objectName: string -> string,
    deprecation: bv32 -> string,
    modifiers: bv32 -> string,
    comment: string -> string,
    comma: nat -> string,
    statementEnd: string)

  /** What the header reads from ASM's MethodNode. exceptions are internal
      names; annotationDefault is the rendered default value; debug maps a
      slot to the local its debug entry describes (Util.variableAtIndex). */
  datatype MethodNode = MethodNode(access: bv32, name: string, desc: string, exceptions: seq<string>,
                                   annotationDefault: Option<string>, debug: map<int, LocalVariable>)

  /** What the generic-signature visitor of com.thesis.common (not part of
      this model) hands back for a method with a Signature attribute. */
  datatype SignatureText = SignatureText(decl: string, returnType: string, exceptions: string,
                                         arguments: map<int, LocalVariable>)

  /** Which slot each descriptor argument is given: the source's one slot
      per argument, or the widths of section 2.6.1 of the Java Virtual
      Machine Specification (long and double take two). */
  datatype Layout = AsWritten | JvmWidths

  // ---------------------------------------------------------------------
  // Descriptor pieces

  /** The text after the last ')' of a method descriptor (the whole
      descriptor when there is none). */
  function ReturnDescriptor(desc: string): (r: string)
    ensures forall j :: 0 <= j < |r| ==> r[j] != ')'
    ensures |r| <= |desc| && r == desc[|desc| - |r|..]
    ensures |r| < |desc| ==> desc[|desc| - |r| - 1] == ')'
  {
    desc[LastIndexOf(desc, ')') + 1..]
  }

  /** The text between the leading '(' and the last ')': substring(1,
      lastIndexOf(')')), which throws when there is no ')' after index 0. */
  function ArgumentDescriptors(desc: string): (r: Option<string>)
    ensures r.Some? <==> LastIndexOf(desc, ')') >= 1
    ensures r.Some? ==> r.value == desc[1..LastIndexOf(desc, ')')]
  {
    var k := LastIndexOf(desc, ')');
    if k < 1 then None else Some(desc[1..k])
  }

  /** A well-formed method descriptor "(" args ")" ret comes apart into
      exactly its argument text and its return descriptor. */
  lemma DescriptorParts(args: string, ret: string)
    requires forall j :: 0 <= j < |ret| ==> ret[j] != ')'
    ensures ArgumentDescriptors("(" + args + ")" + ret) == Some(args)
    ensures ReturnDescriptor("(" + args + ")" + ret) == ret
  {
    var d := "(" + args + ")" + ret;
    var p := |args| + 1;
    assert d[p] == ')';
    assert LastIndexOf(d, ')') == p;
    assert d[1..p] == args;
    assert d[p + 1..] == ret;
  }

  // ---------------------------------------------------------------------
  // splitMethodArguments

  /** The end of the run of '[' starting at i: the first index at or after
      i that is not '['. None when the run reaches the end of the string,
      where the source's charAt throws. */
  function BracketEnd(args: string, i: nat): (r: Option<nat>)
    requires i <= |args|
    ensures r.Some? ==> i <= r.value < |args| && args[r.value] != '['
    ensures r.Some? ==> forall k :: i <= k < r.value ==> args[k] == '['
    decreases |args| - i
  {
    if i == |args| then None
    else if args[i] != '[' then Some(i)
    else BracketEnd(args, i + 1)
  }

  /** The run of '[' has no end exactly when it reaches the end of the
      text. */
  lemma {:induction false} BracketEndNone(args: string, i: nat)
    requires i <= |args|
    ensures BracketEnd(args, i).None? <==> forall k :: i <= k < |args| ==> args[k] == '['
    decreases |args| - i
  {
    if i < |args| && args[i] == '[' {
      BracketEndNone(args, i + 1);
    }
  }

  /** A text that does not end in '[' ends every run of '['. */
  lemma BracketEndFound(args: string, i: nat)
    requires i < |args| && args[|args| - 1] != '['
    ensures BracketEnd(args, i).Some?
  {
    BracketEndNone(args, i);
    assert !(args[|args| - 1] == '[');
  }

  /** The loop of splitMethodArguments from index i: each element is the
      run of '[' at i followed by the type indicator of the rest. None
      where the source throws (a trailing run of '[') or never ends (an
      empty element leaves i where it was). */
  function SplitFrom(args: string, i: nat, typeIndicator: string -> string): (r: Option<seq<string>>)
    ensures i >= |args| ==> r == Some([])
    decreases |args| - i
  {
    if i >= |args| then Some([])
    else
      match Element(args, i, typeIndicator)
      case None => None
      case Some(arg) =>
        if arg == [] then None
        else
          match SplitFrom(args, i + |arg|, typeIndicator)
          case None => None
          case Some(rest) => Some([arg] + rest)
  }

  /** The element starting at i: the run of '[' there and the type
      indicator's answer for the text after it. None when the run reaches
      the end of the text. */
  function Element(args: string, i: nat, typeIndicator: string -> string): Option<string>
    requires i < |args|
  {
    match BracketEnd(args, i)
    case None => None
    case Some(b) => Some(args[i..b] + typeIndicator(args[b..]))
  }

  /** splitMethodArguments: the argument text split into type descriptors. */
  function Split(args: string, typeIndicator: string -> string): (r: Option<seq<string>>)
    ensures args == "" ==> r == Some([])
  {
    if args == "" then Some([]) else SplitFrom(args, 0, typeIndicator)
  }

  /** A type indicator that always answers a non-empty prefix of its
      (non-empty) input. */
  ghost predicate PrefixIndicator(typeIndicator: string -> string) {
    forall s :: PrefixAnswer(typeIndicator, s)
  }

  /** The indicator's answer for s is a non-empty prefix of s (when s is
      not empty). */
  predicate PrefixAnswer(typeIndicator: string -> string, s: string) {
    s != "" ==> 0 < |typeIndicator(s)| <= |s| && typeIndicator(s) == s[..|typeIndicator(s)|]
  }

  /** The number of '[' heading s. */
  function LeadingBrackets(s: string): (n: nat)
    ensures n <= |s|
    ensures forall k :: 0 <= k < n ==> s[k] == '['
    ensures n < |s| ==> s[n] != '['
  {
    if s != [] && s[0] == '[' then 1 + LeadingBrackets(s[1..]) else 0
  }

  /** Every element holds more than its leading run of '[': a type follows
      the brackets. */
  predicate Headed(xs: seq<string>) {
    xs == [] || (LeadingBrackets(xs[0]) < |xs[0]| && Headed(xs[1..]))
  }

  lemma {:induction false} HeadedAll(xs: seq<string>)
    requires Headed(xs)
    ensures forall e :: e in xs ==> LeadingBrackets(e) < |e|
  {
    if xs != [] {
      HeadedAll(xs[1..]);
      assert forall e :: e in xs ==> e == xs[0] || e in xs[1..];
    }
  }

  /** With a prefix-answering type indicator, splitting an argument text
      that does not end in '[' succeeds, the elements concatenate back to
      the input, and each element holds the whole run of '[' at its start
      followed by a type (it is never brackets alone). */
  lemma SplitRoundTrip(args: string, typeIndicator: string -> string)
    requires PrefixIndicator(typeIndicator)
    requires args == "" || args[|args| - 1] != '['
    ensures Split(args, typeIndicator).Some?
    ensures Concat(Split(args, typeIndicator).value) == args
    ensures forall e :: e in Split(args, typeIndicator).value ==> LeadingBrackets(e) < |e|
  {
    if args != "" {
      var parts := SplitFromRoundTrip(args, 0, typeIndicator);
      HeadedAll(parts);
    }
  }

  /** From i on the split succeeds, gives back the text, and every element
      has a type after its leading '['. */
  lemma {:induction false} SplitFromRoundTrip(args: string, i: nat, typeIndicator: string -> string)
      returns (parts: seq<string>)
    requires PrefixIndicator(typeIndicator)
    requires i <= |args|
    requires args == "" || args[|args| - 1] != '['
    ensures SplitFrom(args, i, typeIndicator) == Some(parts)
    ensures Concat(parts) == args[i..]
    ensures Headed(parts)
    decreases |args| - i
  {
    if i < |args| {
      var n := ElementAt(args, i, typeIndicator);
      var rest := SplitFromRoundTrip(args, i + n, typeIndicator);
      SplitCons(args, i, typeIndicator, n, rest);
      ConsText(args, i, n, rest);
      parts := [args[i..i + n]] + rest;
    } else {
      assert args[i..] == "";
      parts := [];
    }
  }

  /** A non-empty element at i, then a split of the rest that loses
      nothing: the split at i is the element before the rest. */
  lemma SplitCons(args: string, i: nat, typeIndicator: string -> string, n: nat, rest: seq<string>)
    requires 0 < n <= |args| - i && Element(args, i, typeIndicator) == Some(args[i..i + n])
    requires SplitFrom(args, i + n, typeIndicator) == Some(rest)
    ensures SplitFrom(args, i, typeIndicator) == Some([args[i..i + n]] + rest)
  {
    SplitFromUnfold(args, i, typeIndicator, args[i..i + n]);
  }

  /** The element, then the rest, gives back the text from i. */
  lemma ConsText(args: string, i: nat, n: nat, rest: seq<string>)
    requires 0 < n <= |args| - i && LeadingBrackets(args[i..i + n]) < n
    requires Concat(rest) == args[i + n..] && Headed(rest)
    ensures Concat([args[i..i + n]] + rest) == args[i..]
    ensures Headed([args[i..i + n]] + rest)
  {
    ConsHeaded(args[i..i + n], rest, args[i + n..]);
    SliceJoin(args, i, n);
  }

  lemma SliceJoin(s: string, i: nat, n: nat)
    requires i + n <= |s|
    ensures s[i..i + n] + s[i + n..] == s[i..]
  {
  }

  lemma ConsHeaded(arg: string, rest: seq<string>, tail: string)
    requires LeadingBrackets(arg) < |arg| && Headed(rest) && Concat(rest) == tail
    ensures Headed([arg] + rest) && Concat([arg] + rest) == arg + tail
  {
    assert ([arg] + rest)[1..] == rest;
  }

  /** One unfolding of the split at i, once the run of '[' ends before the
      end of the text and the element is not empty. */
  lemma SplitFromUnfold(args: string, i: nat, typeIndicator: string -> string, arg: string)
    requires i < |args| && Element(args, i, typeIndicator) == Some(arg) && arg != []
    ensures SplitFrom(args, i, typeIndicator)
         == if SplitFrom(args, i + |arg|, typeIndicator).None? then None
            else Some([arg] + SplitFrom(args, i + |arg|, typeIndicator).value)
  {
  }

  /** The element at i is the next n characters, n > 0, with the run of
      '[' at i as its leading brackets. */
  lemma ElementAt(args: string, i: nat, typeIndicator: string -> string) returns (n: nat)
    requires PrefixIndicator(typeIndicator)
    requires i < |args| && args[|args| - 1] != '['
    ensures 0 < n <= |args| - i
    ensures Element(args, i, typeIndicator) == Some(args[i..i + n])
    ensures LeadingBrackets(args[i..i + n]) < n
  {
    BracketEndFound(args, i);
    var b := BracketEnd(args, i).value;
    var t := typeIndicator(args[b..]);
    assert PrefixAnswer(typeIndicator, args[b..]);
    assert 0 < |t| <= |args[b..]| && t == args[b..][..|t|];
    assert t == args[b..b + |t|];
    n := b - i + |t|;
    assert args[i..b] + t == args[i..i + n];
    LeadingBracketsOfElement(args, i, b, t);
  }

  /** An element built from the maximal run of '[' at i and a non-empty
      prefix of what follows has exactly that run as its leading brackets. */
  lemma LeadingBracketsOfElement(args: string, i: nat, b: nat, t: string)
    requires i <= b < |args| && args[b] != '['
    requires forall k :: i <= k < b ==> args[k] == '['
    requires 0 < |t| <= |args| - b && t == args[b..b + |t|]
    ensures LeadingBrackets(args[i..b] + t) == b - i
    ensures LeadingBrackets(args[i..b] + t) < |args[i..b] + t|
    decreases b - i
  {
    var e := args[i..b] + t;
    if i < b {
      assert e[0] == '[';
      assert e[1..] == args[i + 1..b] + t;
      LeadingBracketsOfElement(args, i + 1, b, t);
    } else {
      assert e == t && e[0] == args[b];
    }
  }

  /** The field-type grammar of section 4.3.2 of the Java Virtual Machine
      Specification, as a reference type indicator: an object type runs to
      its ';', every other descriptor is one character. */
  function FieldTypeIndicator(s: string): (r: string)
  {
    if s == "" then ""
    else if s[0] == 'L' then
      var k := IndexOf(s, ";");
      if k < 0 then s else s[..k + 1]
    else s[..1]
  }

  /** The reference indicator always answers a non-empty prefix. */
  lemma FieldTypeIndicatorIsPrefix()
    ensures PrefixIndicator(FieldTypeIndicator)
  {
    forall s
      ensures PrefixAnswer(FieldTypeIndicator, s)
    {
    }
  }

  /** A descriptor's argument text splits into its field types. */
  lemma SplitExample(s: string, t: string)
    requires s == "I[JLjava/lang/String;" && t == "Ljava/lang/String;"
    ensures Split(s, FieldTypeIndicator) == Some(["I", "[J", t])
  {
    SplitExampleMiddle(s, t);
    OneCharIndicator(s[0..]);
    assert s[0..0] + FieldTypeIndicator(s[0..]) == "I";
    SplitFromCons(s, 0, FieldTypeIndicator, 0, "I", ["[J", t]);
    assert ["I"] + ["[J", t] == ["I", "[J", t];
  }

  lemma SplitExampleMiddle(s: string, t: string)
    requires s == "I[JLjava/lang/String;" && t == "Ljava/lang/String;"
    ensures SplitFrom(s, 1, FieldTypeIndicator) == Some(["[J", t])
  {
    SplitExampleTail(s, t);
    MiddleElement(s);
    SplitFromCons(s, 1, FieldTypeIndicator, 2, "[J", [t]);
    assert ["[J"] + [t] == ["[J", t];
  }

  lemma MiddleElement(s: string)
    requires s == "I[JLjava/lang/String;"
    ensures |s| == 21 && s[1] == '[' && s[2] == 'J'
    ensures s[1..2] + FieldTypeIndicator(s[2..]) == "[J"
  {
    assert s[1] == '[' && s[2] == 'J' && |s| == 21;
    OneCharIndicator(s[2..]);
    assert s[1..2] == "[";
  }

  lemma SplitExampleTail(s: string, t: string)
    requires s == "I[JLjava/lang/String;" && t == "Ljava/lang/String;"
    ensures SplitFrom(s, 3, FieldTypeIndicator) == Some([t])
  {
    ObjectTypeIndicator(t);
    assert |s| == 21 && |t| == 18;
    assert s[3..] == t && s[3..3] + t == t;
    SplitFromCons(s, 3, FieldTypeIndicator, 3, t, []);
    assert [t] + [] == [t];
  }

  lemma ObjectTypeIndicator(t: string)
    requires t == "Ljava/lang/String;"
    ensures FieldTypeIndicator(t) == t
  {
    assert OccursAt(t, ";", 17);
    forall k | 0 <= k < 17 ensures !OccursAt(t, ";", k) {
      assert t[k..k + 1][0] == t[k];
    }
    assert IndexOf(t, ";") == 17;
  }

  lemma OneCharIndicator(x: string)
    requires x != "" && x[0] != 'L'
    ensures FieldTypeIndicator(x) == [x[0]]
  {
  }

  /** One unfolding of the split: a non-empty element, then the rest. */
  lemma SplitFromCons(args: string, i: nat, typeIndicator: string -> string, b: nat, arg: string, rest: seq<string>)
    requires i <= b < |args| && args[b] != '['
    requires forall k :: i <= k < b ==> args[k] == '['
    requires arg == args[i..b] + typeIndicator(args[b..]) && arg != []
    requires SplitFrom(args, i + |arg|, typeIndicator) == Some(rest)
    ensures SplitFrom(args, i, typeIndicator) == Some([arg] + rest)
  {
    BracketEndAt(args, i, b);
    SplitFromUnfold(args, i, typeIndicator, arg);
  }

  /** The run of '[' at i ends exactly at the first non-'['. */
  lemma {:induction false} BracketEndAt(args: string, i: nat, b: nat)
    requires i <= b < |args| && args[b] != '['
    requires forall k :: i <= k < b ==> args[k] == '['
    ensures BracketEnd(args, i) == Some(b)
    decreases b - i
  {
    if i < b {
      BracketEndAt(args, i + 1, b);
    }
  }

  // ---------------------------------------------------------------------
  // Argument seeding

  /** The source's slot for the i-th argument: i for a static method, i + 1
      when slot 0 holds "this". */
  function ArgumentSlot(isStatic: bool, i: nat): nat {
    if isStatic then i else i + 1
  }

  function AsWrittenSlots(isStatic: bool, n: nat): (r: seq<nat>)
    ensures |r| == n
    ensures forall i :: 0 <= i < n ==> r[i] == ArgumentSlot(isStatic, i)
  {
    seq(n, i requires 0 <= i < n => ArgumentSlot(isStatic, i))
  }

  /** Slots taken by a value of a type: two for long and double. */
  function Width(t: string): nat {
    if t == "J" || t == "D" then 2 else 1
  }

  function TotalWidth(ts: seq<string>): nat {
    if ts == [] then 0 else TotalWidth(ts[..|ts| - 1]) + Width(ts[|ts| - 1])
  }

  /** The slot of each argument as the Java Virtual Machine assigns it: the
      first after "this" (if any), each next one past the previous one's
      width. */
  function JvmSlots(split: seq<string>, isStatic: bool): (r: seq<nat>)
    ensures |r| == |split|
  {
    seq(|split|, i requires 0 <= i < |split| => (if isStatic then 0 else 1) + TotalWidth(split[..i]))
  }

  /** The layout of the corrected slots: they start after "this" and each
      lies exactly the width of its predecessor further on. */
  lemma JvmSlotsFollowWidths(split: seq<string>, isStatic: bool)
    ensures |split| > 0 ==> JvmSlots(split, isStatic)[0] == (if isStatic then 0 else 1)
    ensures forall i :: 0 <= i < |split| - 1 ==>
      JvmSlots(split, isStatic)[i + 1] == JvmSlots(split, isStatic)[i] + Width(split[i])
  {
    forall i | 0 <= i < |split| - 1
      ensures JvmSlots(split, isStatic)[i + 1] == JvmSlots(split, isStatic)[i] + Width(split[i])
    {
      assert split[..i + 1][..i] == split[..i];
    }
    if |split| > 0 {
      assert split[..0] == [];
    }
  }

  /** Without long or double arguments the source's slots are the JVM's. */
  lemma {:induction false} SlotsAgreeWithoutWideTypes(split: seq<string>, isStatic: bool)
    requires forall i :: 0 <= i < |split| ==> Width(split[i]) == 1
    ensures JvmSlots(split, isStatic) == AsWrittenSlots(isStatic, |split|)
  {
    forall i | 0 <= i < |split| ensures TotalWidth(split[..i]) == i {
      WidthOfNarrow(split[..i]);
    }
  }

  lemma {:induction false} WidthOfNarrow(ts: seq<string>)
    requires forall i :: 0 <= i < |ts| ==> Width(ts[i]) == 1
    ensures TotalWidth(ts) == |ts|
  {
    if ts != [] {
      WidthOfNarrow(ts[..|ts| - 1]);
    }
  }

  /** The source gives the int argument of a static (JI)V method slot 1,
      which is the second half of the long; the JVM passes it in slot 2. */
  lemma WideArgumentMisplaced()
    ensures AsWrittenSlots(true, 2)[1] == 1
    ensures JvmSlots(["J", "I"], true)[1] == 2
  {
    assert ["J", "I"][..1] == ["J"];
    assert ["J"][..0] == [];
  }

  predicate Distinct(slots: seq<nat>) {
    forall i, j :: 0 <= i < j < |slots| ==> slots[i] != slots[j]
  }

  /** Both layouts give distinct slots, all past slot 0 for an instance
      method. */
  lemma SlotsDistinct(split: seq<string>, isStatic: bool, layout: Layout)
    ensures var slots := if layout == AsWritten then AsWrittenSlots(isStatic, |split|) else JvmSlots(split, isStatic);
      && Distinct(slots)
      && (!isStatic ==> forall i :: 0 <= i < |slots| ==> slots[i] >= 1)
  {
    if layout == JvmWidths {
      var slots := JvmSlots(split, isStatic);
      forall i, j | 0 <= i < j < |slots| ensures slots[i] < slots[j] {
        TotalWidthGrows(split, i, j);
      }
    }
  }

  lemma {:induction false} TotalWidthGrows(split: seq<string>, i: nat, j: nat)
    requires i < j <= |split|
    ensures TotalWidth(split[..i]) < TotalWidth(split[..j])
    decreases j - i
  {
    assert split[..j][..j - 1] == split[..j - 1];
    if i < j - 1 {
      TotalWidthGrows(split, i, j - 1);
    }
  }

  /** Debug entries are keyed by their own slot. */
  predicate WellIndexed(debug: map<int, LocalVariable>) {
    forall k :: k in debug ==> debug[k].index == k
  }

  /** addArgument: the debug entry of the slot when there is one, otherwise
      a local named ARGUMENT_NAME_BASE + i typed from the descriptor; either
      way marked as an argument. */
  function Argument(typeCode: string, i: nat, slot: nat, debug: map<int, LocalVariable>, h: Helpers): (r: LocalVariable)
    ensures r.isArgument
    ensures slot in debug ==> r.v == debug[slot].v && r.index == debug[slot].index
    ensures slot !in debug ==>
      && r.index == slot
      && r.v.name == Some(h.argumentNameBase + IntToString(i))
      && r.v.typ == Some(h.typeOf(typeCode))
  {
    if slot in debug then debug[slot].(isArgument := true)
    else LocalVariable(NamedVariable(Some(h.argumentNameBase + IntToString(i)), Some(h.typeOf(typeCode))), slot, true)
  }

  /** The slots seeded from element k on. */
  function Seeded(split: seq<string>, slots: seq<nat>, k: nat): set<int>
    requires |slots| == |split|
  {
    set j | k <= j < |split| && split[j] != "" :: slots[j]
  }

  /** The loop of generateMethodArgumentsFromDescriptor from element k:
      each non-empty element is put under its argument's index. */
  function Seed(m: map<int, LocalVariable>, split: seq<string>, slots: seq<nat>, k: nat,
                debug: map<int, LocalVariable>, h: Helpers): (r: map<int, LocalVariable>)
    requires |slots| == |split| && k <= |split|
    ensures m.Keys <= r.Keys
    decreases |split| - k
  {
    if k == |split| then m
    else
      var next := if split[k] == "" then m
                  else var a := Argument(split[k], k, slots[k], debug, h); m[a.index := a];
      Seed(next, split, slots, k + 1, debug, h)
  }

  /** What the loop leaves: the keys it started with plus the seeded slots,
      every other entry untouched. */
  lemma {:induction false} SeedKeeps(m: map<int, LocalVariable>, split: seq<string>, slots: seq<nat>, k: nat,
                                     debug: map<int, LocalVariable>, h: Helpers)
    requires |slots| == |split| && k <= |split|
    requires WellIndexed(debug)
    ensures Seed(m, split, slots, k, debug, h).Keys == m.Keys + Seeded(split, slots, k)
    ensures forall key :: key in m && key !in Seeded(split, slots, k) ==> Seed(m, split, slots, k, debug, h)[key] == m[key]
    decreases |split| - k
  {
    if k < |split| {
      var next := if split[k] == "" then m
                  else var a := Argument(split[k], k, slots[k], debug, h); m[a.index := a];
      SeedKeeps(next, split, slots, k + 1, debug, h);
      SeededStep(split, slots, k);
      if split[k] != "" {
        assert Argument(split[k], k, slots[k], debug, h).index == slots[k];
      }
    }
  }

  /** With distinct slots, every seeded slot ends up holding its argument. */
  lemma {:induction false} SeedPlaces(m: map<int, LocalVariable>, split: seq<string>, slots: seq<nat>, k: nat,
                                      debug: map<int, LocalVariable>, h: Helpers)
    requires |slots| == |split| && k <= |split|
    requires WellIndexed(debug) && Distinct(slots)
    ensures forall j :: k <= j < |split| && split[j] != "" ==>
      && slots[j] in Seed(m, split, slots, k, debug, h)
      && Seed(m, split, slots, k, debug, h)[slots[j]] == Argument(split[j], j, slots[j], debug, h)
    decreases |split| - k
  {
    if k < |split| {
      var next := if split[k] == "" then m
                  else var a := Argument(split[k], k, slots[k], debug, h); m[a.index := a];
      SeedPlaces(next, split, slots, k + 1, debug, h);
      if split[k] != "" {
        SeedPlacesHere(m, split, slots, k, debug, h);
      }
    }
  }

  /** The element seeded at k is not overwritten by the later ones. */
  lemma SeedPlacesHere(m: map<int, LocalVariable>, split: seq<string>, slots: seq<nat>, k: nat,
                       debug: map<int, LocalVariable>, h: Helpers)
    requires |slots| == |split| && k < |split| && split[k] != ""
    requires WellIndexed(debug) && Distinct(slots)
    ensures slots[k] in Seed(m, split, slots, k, debug, h)
    ensures Seed(m, split, slots, k, debug, h)[slots[k]] == Argument(split[k], k, slots[k], debug, h)
  {
    var a := Argument(split[k], k, slots[k], debug, h);
    assert a.index == slots[k];
    SeedKeeps(m[a.index := a], split, slots, k + 1, debug, h);
    LaterSlots(split, slots, k);
  }

  lemma LaterSlots(split: seq<string>, slots: seq<nat>, k: nat)
    requires |slots| == |split| && k < |split| && Distinct(slots)
    ensures slots[k] !in Seeded(split, slots, k + 1)
  {
  }

  lemma SeededStep(split: seq<string>, slots: seq<nat>, k: nat)
    requires |slots| == |split| && k < |split|
    ensures Seeded(split, slots, k) == Seeded(split, slots, k + 1) + (if split[k] == "" then {} else {slots[k]})
  {
  }

  /** The "this" argument of an instance method: slot 0, the class's type. */
  function This(className: string): (r: LocalVariable)
    ensures r.index == 0 && r.isArgument && r.v.name == Some("this")
    ensures r.v.typ == Some(TypeFromName(className))
  {
    LocalVariable(NamedVariable(Some("this"), Some(TypeFromName(className))), 0, true)
  }

  /** generateArguments: "this" at slot 0 for an instance method, then the
      descriptor's arguments, over what the signature visitor supplied. */
  function GenerateArguments(initial: map<int, LocalVariable>, isStatic: bool, className: string,
                             split: seq<string>, slots: seq<nat>,
                             debug: map<int, LocalVariable>, h: Helpers): (r: map<int, LocalVariable>)
    requires |slots| == |split|
  {
    Seed(if isStatic then initial else initial[0 := This(className)], split, slots, 0, debug, h)
  }

  /** What the seeded argument map holds, under either layout: every
      descriptor argument at its slot, marked as an argument and named
      ARGUMENT_NAME_BASE + i unless debug information names it, "this" at
      slot 0 of an instance method, and the signature's other entries. */
  lemma ArgumentsSeeded(initial: map<int, LocalVariable>, isStatic: bool, className: string,
                        split: seq<string>, layout: Layout, debug: map<int, LocalVariable>, h: Helpers)
    requires WellIndexed(debug)
    ensures var slots := if layout == AsWritten then AsWrittenSlots(isStatic, |split|) else JvmSlots(split, isStatic);
      var r := GenerateArguments(initial, isStatic, className, split, slots, debug, h);
      && (!isStatic ==> 0 in r && r[0] == This(className))
      && (forall j :: 0 <= j < |split| && split[j] != "" ==>
            && slots[j] in r && r[slots[j]].isArgument
            && (slots[j] !in debug ==> r[slots[j]].v.name == Some(h.argumentNameBase + IntToString(j))))
      && (forall key :: key in initial && key !in Seeded(split, slots, 0) && (isStatic || key != 0) ==> r[key] == initial[key])
  {
    var slots := if layout == AsWritten then AsWrittenSlots(isStatic, |split|) else JvmSlots(split, isStatic);
    SlotsDistinct(split, isStatic, layout);
    var start := if isStatic then initial else initial[0 := This(className)];
    SeedKeeps(start, split, slots, 0, debug, h);
    SeedPlaces(start, split, slots, 0, debug, h);
    if !isStatic {
      assert 0 !in Seeded(split, slots, 0);
    }
  }

  // ---------------------------------------------------------------------
  // The header text

  /** parseSignature's last step: a declaration starting with "<" hands its
      type parameters, through the first ">", to the front of the return
      type, followed by a space. Answers (declaration, return type). */
  function HoistTypeParameters(decl: string, ret: string): (r: (string, string))
    ensures IndexOf(decl, "<") != 0 ==> r == (decl, ret)
  {
    if IndexOf(decl, "<") != 0 then (decl, ret)
    else
      var gt := IndexOf(decl, ">") + 1;
      (decl[gt..], decl[..gt] + " " + ret)
  }

  /** A declaration "<formals>rest" becomes "rest", and the return type is
      prefixed by "<formals> ": nothing is lost or duplicated. */
  lemma HoistRoundTrip(formals: string, rest: string, ret: string)
    requires '>' !in formals
    ensures HoistTypeParameters("<" + formals + ">" + rest, ret) == (rest, "<" + formals + "> " + ret)
  {
    var d := "<" + formals + ">" + rest;
    assert OccursAt(d, "<", 0) by { assert d[0..1] == "<"; }
    var p := |formals| + 1;
    assert OccursAt(d, ">", p) by { assert d[p..p + 1] == ">"; }
    forall k | 0 <= k < p ensures !OccursAt(d, ">", k) {
      assert d[k..k + 1] == [d[k]];
      if k > 0 {
        assert d[k] == formals[k - 1];
      }
    }
    assert IndexOf(d, ">") == p;
    assert d[..p + 1] == "<" + formals + ">";
    assert d[p + 1..] == rest;
    assert ("<" + formals + ">") + " " + ret == "<" + formals + "> " + ret;
  }

  /** Without the type parameters, a declaration keeps its text. */
  lemma HoistWithoutTypeParameters(decl: string, ret: string)
    requires decl == "" || decl[0] != '<'
    ensures HoistTypeParameters(decl, ret) == (decl, ret)
  {
    if decl != "" {
      assert decl[0..1][0] == decl[0];
    }
    assert !OccursAt(decl, "<", 0);
    assert IndexOf(decl, "<") != 0;
  }

  /** getReturnType: the generic return type when there is one, otherwise
      the type of the descriptor's return part. */
  function ReturnType(desc: string, genericReturn: string, h: Helpers): (r: string)
    ensures genericReturn != "" ==> r == genericReturn
    ensures genericReturn == "" ==> r == h.typeOf(ReturnDescriptor(desc)).printed
  {
    if genericReturn != "" then genericReturn else h.typeOf(ReturnDescriptor(desc)).printed
  }

  /** The text before the "default " keyword: the deprecation mark, the
      modifiers (with the volatile/bridge bit cleared, since it means
      bridge on a method), the synthetic and bridge comments, "native ". */
  function Lead(access: bv32, h: Helpers): string {
    h.deprecation(access) + h.modifiers(Clear(access, ACC_VOLATILE))
    + (if HasFlag(access, ACC_SYNTHETIC) then h.comment("synthetic") else "")
    + (if HasFlag(access, ACC_BRIDGE) then h.comment("bridge") else "")
    + (if HasFlag(access, ACC_NATIVE) then "native " else "")
  }

  /** "default " for a method of an interface that is neither abstract nor
      static. */
  function DefaultKeyword(classAccess: bv32, access: bv32): (r: string)
    ensures r == "default " <==>
      HasFlag(classAccess, ACC_INTERFACE) && !HasFlag(access, ACC_ABSTRACT) && !HasFlag(access, ACC_STATIC)
    ensures r == "default " || r == ""
  {
    if HasFlag(classAccess, ACC_INTERFACE) && !HasFlag(access, ACC_ABSTRACT) && !HasFlag(access, ACC_STATIC)
    then "default " else ""
  }

  /** addMethodAccessAndName: a constructor prints the class name alone;
      any other method prints its return type, a space and its name. */
  function AccessAndName(access: bv32, classAccess: bv32, className: string, name: string,
                         desc: string, genericReturn: string, h: Helpers): (r: string)
    ensures name == "<init>" ==> r == Lead(access, h) + DefaultKeyword(classAccess, access) + className
    ensures name != "<init>" ==>
      r == Lead(access, h) + DefaultKeyword(classAccess, access) + ReturnType(desc, genericReturn, h) + " " + name
  {
    Lead(access, h) + DefaultKeyword(classAccess, access)
    + (if name == "<init>" then className else ReturnType(desc, genericReturn, h) + " " + name)
  }

  /** A constructor's header names no return type: it is the same whatever
      the descriptor's return part and the generic return type are. */
  lemma ConstructorHasNoReturnType(access: bv32, classAccess: bv32, className: string,
                                   desc1: string, ret1: string, desc2: string, ret2: string, h: Helpers)
    ensures AccessAndName(access, classAccess, className, "<init>", desc1, ret1, h)
         == AccessAndName(access, classAccess, className, "<init>", desc2, ret2, h)
  {
  }

  /** The i-th entries separated as addComma directs. */
  function Listed(items: seq<string>, comma: nat -> string): string
    decreases |items|
  {
    if items == [] then "" else Listed(items[..|items| - 1], comma) + comma(|items| - 1) + items[|items| - 1]
  }

  /** With addComma's ", " before every entry but the first, a list is the
      entries joined by ", ". */
  lemma {:induction false} ListedIsJoin(items: seq<string>, comma: nat -> string)
    requires forall i: nat :: comma(i) == (if i == 0 then "" else ", ")
    ensures Listed(items, comma) == Join(items, ", ")
    decreases |items|
  {
    if |items| > 1 {
      ListedIsJoin(items[..|items| - 1], comma);
    } else if |items| == 1 {
      assert items[..0] == [];
    }
  }

  /** One printed argument: its type's print form, a space, its name. */
  function Declaration(l: LocalVariable): string
    requires l.v.typ.Some?
  {
    l.v.typ.value.printed + " " + NameText(l.v.name)
  }

  /** Every slot is in the argument map with a type. */
  predicate Typed(args: map<int, LocalVariable>, slots: seq<nat>) {
    forall i :: 0 <= i < |slots| ==> slots[i] in args && args[slots[i]].v.typ.Some?
  }

  /** The printed declaration of each slot, in order. */
  function Declared(args: map<int, LocalVariable>, slots: seq<nat>): (r: seq<string>)
    requires Typed(args, slots)
    ensures |r| == |slots|
    ensures forall i :: 0 <= i < |slots| ==> r[i] == Declaration(args[slots[i]])
  {
    seq(|slots|, i requires 0 <= i < |slots| => Declaration(args[slots[i]]))
  }

  /** The argument list of the given slots, entry by entry as addMethodArgs
      appends them; None where a slot is missing or untyped (the source's
      NullPointerException). */
  function ArgumentList(args: map<int, LocalVariable>, slots: seq<nat>, h: Helpers): Option<string>
    decreases |slots|
  {
    if slots == [] then Some("")
    else
      var last := slots[|slots| - 1];
      var front := ArgumentList(args, slots[..|slots| - 1], h);
      if front.Some? && last in args && args[last].v.typ.Some? then
        Some(front.value + h.comma(|slots| - 1) + Declaration(args[last]))
      else None
  }

  /** The list is produced exactly when every slot is present and typed,
      and it is then the declarations separated as addComma directs. */
  lemma {:induction false} ArgumentListIsListed(args: map<int, LocalVariable>, slots: seq<nat>, h: Helpers)
    ensures ArgumentList(args, slots, h).Some? <==> Typed(args, slots)
    ensures Typed(args, slots) ==> ArgumentList(args, slots, h) == Some(Listed(Declared(args, slots), h.comma))
    decreases |slots|
  {
    if slots == [] {
      assert Declared(args, slots) == [];
    } else {
      var front := slots[..|slots| - 1];
      ArgumentListIsListed(args, front, h);
      TypedSnoc(args, slots);
      if Typed(args, slots) {
        DeclaredSnoc(args, slots);
      }
    }
  }

  /** A slot list is typed exactly when its front is and its last slot is. */
  lemma TypedSnoc(args: map<int, LocalVariable>, slots: seq<nat>)
    requires slots != []
    ensures Typed(args, slots)
        <==> Typed(args, slots[..|slots| - 1]) && slots[|slots| - 1] in args && args[slots[|slots| - 1]].v.typ.Some?
  {
    var n := |slots| - 1;
    var front := slots[..n];
    if Typed(args, front) && slots[n] in args && args[slots[n]].v.typ.Some? {
      forall i | 0 <= i < |slots| ensures slots[i] in args && args[slots[i]].v.typ.Some? {
        if i < n { assert slots[i] == front[i]; }
      }
    }
    if Typed(args, slots) {
      forall i | 0 <= i < |front| ensures front[i] in args && args[front[i]].v.typ.Some? {
        assert front[i] == slots[i];
      }
    }
  }

  /** The declarations of a typed slot list are those of its front, then
      that of its last slot. */
  lemma DeclaredSnoc(args: map<int, LocalVariable>, slots: seq<nat>)
    requires slots != [] && Typed(args, slots)
    ensures Typed(args, slots[..|slots| - 1])
    ensures Declared(args, slots)[..|slots| - 1] == Declared(args, slots[..|slots| - 1])
    ensures Declared(args, slots)[|slots| - 1] == Declaration(args[slots[|slots| - 1]])
  {
    TypedSnoc(args, slots);
  }

  /** The slots addMethodArgs lists: 0 .. size-1 for a static method,
      1 .. size-1 for an instance method, where size counts the whole
      argument map. */
  function ListedSlots(args: map<int, LocalVariable>, isStatic: bool): (r: seq<nat>)
    ensures isStatic ==> |r| == |args|
    ensures !isStatic && |args| > 0 ==> |r| == |args| - 1
    ensures forall i :: 0 <= i < |r| ==> r[i] == ArgumentSlot(isStatic, i)
  {
    var count := if isStatic then |args| else if |args| > 0 then |args| - 1 else 0;
    AsWrittenSlots(isStatic, count)
  }

  /** The varargs rewrite: the last "[]" of the text becomes "...". None
      when there is no "[]" (StringBuilder.replace from index -1 throws). */
  function ReplaceLastBrackets(s: string): (r: Option<string>)
    ensures r.None? <==> LastIndexOfWord(s, "[]") == -1
    ensures r.Some? ==> |r.value| == |s| + 1
  {
    var k := LastIndexOfWord(s, "[]");
    if k < 0 then None else Some(s[..k] + "..." + s[k + 2..])
  }

  /** The last "[]" is the one rewritten: text before and after it stays. */
  lemma VarargsEllipsis(p: string, q: string)
    requires forall k :: 0 <= k <= |q| - 2 ==> !OccursAt(q, "[]", k)
    ensures ReplaceLastBrackets(p + "[]" + q) == Some(p + "..." + q)
  {
    var s := p + "[]" + q;
    assert OccursAt(s, "[]", |p|) by { assert s[|p|..|p| + 2] == "[]"; }
    forall j | |p| < j <= |s| - 2 ensures !OccursAt(s, "[]", j) {
      if j == |p| + 1 {
        assert s[j] == ']';
        assert s[j..j + 2][0] == s[j];
      } else {
        assert s[j..j + 2] == q[j - |p| - 2..j - |p|];
        assert !OccursAt(q, "[]", j - |p| - 2);
      }
    }
    assert LastIndexOfWord(s, "[]") == |p|;
    assert s[..|p|] == p && s[|p| + 2..] == q;
  }

  /** addMethodArgs: "(" then the generic declaration, or the argument list
      of the listed slots, the varargs rewrite, ")". */
  function AddMethodArgs(buf: string, args: map<int, LocalVariable>, slots: seq<nat>,
                         genericDecl: string, hasVarargs: bool, h: Helpers): (r: Option<string>)
    ensures genericDecl != "" && !hasVarargs ==> r == Some(buf + "(" + genericDecl + ")")
    ensures genericDecl == "" && !hasVarargs ==>
      r == (var l := ArgumentList(args, slots, h); if l.Some? then Some(buf + "(" + l.value + ")") else None)
    ensures hasVarargs ==>
      r == (var l := if genericDecl != "" then Some(genericDecl) else ArgumentList(args, slots, h);
            if l.None? then None
            else var t := ReplaceLastBrackets(buf + "(" + l.value); if t.None? then None else Some(t.value + ")"))
  {
    var inner := if genericDecl != "" then Some(genericDecl) else ArgumentList(args, slots, h);
    if inner.None? then None
    else
      var s := buf + "(" + inner.value;
      if !hasVarargs then Some(s + ")")
      else
        var t := ReplaceLastBrackets(s);
        if t.None? then None else Some(t.value + ")")
  }

  /** addExceptions: the generic exceptions when there are any, otherwise
      " throws " and the dotted exception names, or nothing. */
  function Exceptions(genericExceptions: string, exceptions: seq<string>, h: Helpers): (r: string)
    ensures genericExceptions != "" ==> r == genericExceptions
    ensures genericExceptions == "" && exceptions == [] ==> r == ""
    ensures genericExceptions == "" && exceptions != [] ==>
      r == " throws " + Listed(seq(|exceptions|, i requires 0 <= i < |exceptions| => h.objectName(exceptions[i])), h.comma)
  {
    if genericExceptions != "" then genericExceptions
    else if exceptions == [] then ""
    else " throws " + Listed(seq(|exceptions|, i requires 0 <= i < |exceptions| => h.objectName(exceptions[i])), h.comma)
  }

  /** addAbstractMethodDeclarationEnding: only an abstract method ends its
      header, with its annotation default value if it has one. */
  function AbstractEnding(m: MethodNode, h: Helpers): (r: string)
    ensures !HasFlag(m.access, ACC_ABSTRACT) ==> r == ""
    ensures HasFlag(m.access, ACC_ABSTRACT) && m.annotationDefault.None? ==> r == h.statementEnd
    ensures HasFlag(m.access, ACC_ABSTRACT) && m.annotationDefault.Some? ==>
      r == " default " + m.annotationDefault.value + h.statementEnd
  {
    if !HasFlag(m.access, ACC_ABSTRACT) then ""
    else (if m.annotationDefault.Some? then " default " + m.annotationDefault.value else "") + h.statementEnd
  }

  /** appendMethodNode: the header text and the argument map the body's
      translation starts from. None where the source throws: "transient "
      missing from the modifiers of a varargs method, a descriptor without
      ')', an argument text the type indicator cannot split, a missing or
      untyped listed argument, or varargs without any "[]". */
  function AppendMethodNode(m: MethodNode, className: string, classAccess: bv32, sig: Option<SignatureText>,
                            layout: Layout, h: Helpers): (r: Option<(string, map<int, LocalVariable>)>)
    ensures ArgumentDescriptors(m.desc).None? ==> r.None?
    ensures ArgumentDescriptors(m.desc).Some? && Split(ArgumentDescriptors(m.desc).value, h.typeIndicator).None? ==> r.None?
    ensures HasFlag(m.access, ACC_VARARGS) ==>
      var ret := if sig.Some? then HoistTypeParameters(sig.value.decl, sig.value.returnType).1 else "";
      IndexOf(AccessAndName(m.access, classAccess, className, m.name, m.desc, ret, h), "transient ") == -1 ==> r.None?
  {
    var (decl, ret) := if sig.Some? then HoistTypeParameters(sig.value.decl, sig.value.returnType) else ("", "");
    var genericExceptions := if sig.Some? then sig.value.exceptions else "";
    var initial := if sig.Some? then sig.value.arguments else map[];
    var head := AccessAndName(m.access, classAccess, className, m.name, m.desc, ret, h);
    var varargs := HasFlag(m.access, ACC_VARARGS);
    var head' := if varargs then RemoveFirst(head, "transient ") else Some(head);
    var argText := ArgumentDescriptors(m.desc);
    if head'.None? || argText.None? then None
    else
      var split := Split(argText.value, h.typeIndicator);
      if split.None? then None
      else
        var isStatic := HasFlag(m.access, ACC_STATIC);
        var slots := if layout == AsWritten then AsWrittenSlots(isStatic, |split.value|) else JvmSlots(split.value, isStatic);
        var args := GenerateArguments(initial, isStatic, className, split.value, slots, m.debug, h);
        var listed := if layout == AsWritten then ListedSlots(args, isStatic) else slots;
        var text := AddMethodArgs(head'.value, args, listed, decl, varargs, h);
        if text.None? then None
        else Some((text.value + Exceptions(genericExceptions, m.exceptions, h) + AbstractEnding(m, h), args))
  }

  /** The slots whose arguments a header lists, under either layout. */
  function HeaderSlots(m: MethodNode, className: string, split: seq<string>, layout: Layout, h: Helpers): (r: (map<int, LocalVariable>, seq<nat>))
  {
    var isStatic := HasFlag(m.access, ACC_STATIC);
    var slots := if layout == AsWritten then AsWrittenSlots(isStatic, |split|) else JvmSlots(split, isStatic);
    var args := GenerateArguments(map[], isStatic, className, split, slots, m.debug, h);
    (args, if layout == AsWritten then ListedSlots(args, isStatic) else slots)
  }

  /** addComma as the source defines it: ", " before every entry but the
      first. */
  ghost predicate PlainCommas(h: Helpers) {
    forall i: nat :: h.comma(i) == (if i == 0 then "" else ", ")
  }

  /** appendMethodNode without a Signature attribute, once the descriptor
      has split: the access and name (with "transient " removed for varargs),
      the argument list, the throws clause and the abstract ending. */
  lemma UnsignedHeader(m: MethodNode, className: string, classAccess: bv32, layout: Layout, h: Helpers, split: seq<string>)
    requires ArgumentDescriptors(m.desc).Some? && Split(ArgumentDescriptors(m.desc).value, h.typeIndicator) == Some(split)
    ensures var (args, listed) := HeaderSlots(m, className, split, layout, h);
      var head := AccessAndName(m.access, classAccess, className, m.name, m.desc, "", h);
      var varargs := HasFlag(m.access, ACC_VARARGS);
      var head' := if varargs then RemoveFirst(head, "transient ") else Some(head);
      AppendMethodNode(m, className, classAccess, None, layout, h)
        == if head'.None? then None
           else var text := AddMethodArgs(head'.value, args, listed, "", varargs, h);
             if text.None? then None else Some((text.value + Exceptions("", m.exceptions, h) + AbstractEnding(m, h), args))
  {
  }

  /** The header of a method without a Signature attribute and without
      varargs, whose descriptor splits: it is produced exactly when every
      listed argument is present and typed, and it is then the access and
      name, the argument declarations joined by ", " in parentheses, the
      throws clause and the abstract ending, in that order. */
  lemma PlainHeader(m: MethodNode, className: string, classAccess: bv32, layout: Layout, h: Helpers, split: seq<string>)
    requires !HasFlag(m.access, ACC_VARARGS) && PlainCommas(h)
    requires ArgumentDescriptors(m.desc).Some? && Split(ArgumentDescriptors(m.desc).value, h.typeIndicator) == Some(split)
    ensures var (args, listed) := HeaderSlots(m, className, split, layout, h);
      var r := AppendMethodNode(m, className, classAccess, None, layout, h);
      && (r.Some? <==> Typed(args, listed))
      && (Typed(args, listed) ==>
            r == Some((AccessAndName(m.access, classAccess, className, m.name, m.desc, "", h)
                       + "(" + Join(Declared(args, listed), ", ") + ")"
                       + Exceptions("", m.exceptions, h) + AbstractEnding(m, h), args)))
  {
    var (args, listed) := HeaderSlots(m, className, split, layout, h);
    UnsignedHeader(m, className, classAccess, layout, h, split);
    ArgumentListIsListed(args, listed, h);
    if Typed(args, listed) {
      PlainArgumentList(args, listed, h);
    }
  }

  /** With plain commas, a fully typed argument list is its declarations
      joined by ", ". */
  lemma PlainArgumentList(args: map<int, LocalVariable>, slots: seq<nat>, h: Helpers)
    requires PlainCommas(h) && Typed(args, slots)
    ensures ArgumentList(args, slots, h) == Some(Join(Declared(args, slots), ", "))
  {
    ArgumentListIsListed(args, slots, h);
    ListedIsJoin(Declared(args, slots), h.comma);
  }

  /** The header of a varargs method without a Signature attribute: the
      "transient " the modifiers print for the shared flag bit is removed,
      and the last "[]" of the argument list (the varargs parameter's array
      type) becomes "...". */
  lemma VarargsHeader(m: MethodNode, className: string, classAccess: bv32, layout: Layout, h: Helpers,
                      split: seq<string>, head: string, p: string, q: string)
    requires HasFlag(m.access, ACC_VARARGS) && PlainCommas(h)
    requires ArgumentDescriptors(m.desc).Some? && Split(ArgumentDescriptors(m.desc).value, h.typeIndicator) == Some(split)
    requires RemoveFirst(AccessAndName(m.access, classAccess, className, m.name, m.desc, "", h), "transient ") == Some(head)
    requires var (args, listed) := HeaderSlots(m, className, split, layout, h);
      Typed(args, listed) && Join(Declared(args, listed), ", ") == p + "[]" + q
    requires forall k :: 0 <= k <= |q| - 2 ==> !OccursAt(q, "[]", k)
    ensures AppendMethodNode(m, className, classAccess, None, layout, h)
      == Some((head + "(" + p + "..." + q + ")" + Exceptions("", m.exceptions, h) + AbstractEnding(m, h),
               HeaderSlots(m, className, split, layout, h).0))
  {
    var (args, listed) := HeaderSlots(m, className, split, layout, h);
    PlainArgumentList(args, listed, h);
    VarargsArguments(head, args, listed, h, p, q);
    UnsignedHeader(m, className, classAccess, layout, h, split);
  }

  /** The varargs argument list: its last "[]" printed as "...". */
  lemma VarargsArguments(head: string, args: map<int, LocalVariable>, slots: seq<nat>, h: Helpers, p: string, q: string)
    requires ArgumentList(args, slots, h) == Some(p + "[]" + q)
    requires forall k :: 0 <= k <= |q| - 2 ==> !OccursAt(q, "[]", k)
    ensures AddMethodArgs(head, args, slots, "", true, h) == Some(head + "(" + p + "..." + q + ")")
  {
    var open := head + "(";
    assert open + (p + "[]" + q) == (open + p) + "[]" + q;
    VarargsEllipsis(open + p, q);
  }

  /** A constructor without a Signature attribute, varargs or declared
      exceptions, whose arguments all resolve: the header is the lead, the
      class name and the parenthesised argument list, and nothing of the
      descriptor's return part. */
  lemma ConstructorHeader(m: MethodNode, className: string, classAccess: bv32, layout: Layout, h: Helpers)
    requires m.name == "<init>" && !HasFlag(m.access, ACC_VARARGS) && !HasFlag(m.access, ACC_ABSTRACT)
    requires m.exceptions == []
    requires AppendMethodNode(m, className, classAccess, None, layout, h).Some?
    ensures var text := AppendMethodNode(m, className, classAccess, None, layout, h).value.0;
      var lead := Lead(m.access, h) + DefaultKeyword(classAccess, m.access) + className + "(";
      && IsPrefix(lead, text)
      && text[|text| - 1] == ')'
  {
  }
}
