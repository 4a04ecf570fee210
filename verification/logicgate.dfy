/** Compound conditions: the short-circuit gate built from two conditional
    jumps (LogicGateExpression) and the conditional expression built from a
    condition with two one-value branches (TernaryExpression). */
module LogicGate {

  import opened Wrappers
  import opened Values
  import opened Expr

  /** addAll of one branch onto another as updateBranches does it: a present
      left branch gets the right one's items appended (none when the right one
      is null); a null left branch adopts the right one. */
  function AppendBranch(left: SubStack, right: SubStack): (r: SubStack)
    ensures r.Entries() == left.Entries() + right.Entries()
    ensures r.NullStack? <==> left.NullStack? && right.NullStack?
  {
    if left.StackOf? then StackOf(left.items + right.Entries()) else right
  }

  /** updateBranches: the left operand's jump after it took over the right
      operand's then- and else-items. */
  function UpdateBranches(left: Jump, right: Jump): (r: Jump)
    ensures r.thenBranch.Entries() == left.thenBranch.Entries() + right.thenBranch.Entries()
    ensures r.elseBranch.Entries() == left.elseBranch.Entries() + right.elseBranch.Entries()
    ensures r == left.(thenBranch := r.thenBranch, elseBranch := r.elseBranch)
  {
    left.(thenBranch := AppendBranch(left.thenBranch, right.thenBranch),
          elseBranch := AppendBranch(left.elseBranch, right.elseBranch))
  }

  /** The gate operator: AND when both operands jump to the same place,
      OR otherwise. */
  function GateOperand(left: Jump, right: Jump): (r: Operand)
    ensures r == AND <==> left.dest == right.dest
    ensures r == OR <==> left.dest != right.dest
  {
    if left.dest == right.dest then AND else OR
  }

  /** new LogicGateExpression(left, right): opcode 0, type boolean, the
      right operand's destination. The left operand takes over both
      operands' branch items, which the gate shares; for OR the left operand
      is negated once. Then-start and else-end come from the right operand,
      the start frame from the left. */
  function MakeGate(left: Expr, right: Expr): (r: Expr)
    requires IsConditional(left) && IsConditional(right)
    ensures r.node.Gate? && IsConditional(r)
    ensures r.info == Info(0, Some(BOOLEAN), None, 0) && GetType(r) == Some(BOOLEAN)
    ensures r.node.op == AND <==> JumpOf(left).dest == JumpOf(right).dest
    ensures r.node.op == OR <==> JumpOf(left).dest != JumpOf(right).dest
    ensures var merged := WithJump(left, UpdateBranches(JumpOf(left), JumpOf(right)));
      r.node.gl == (if r.node.op == AND then merged else Negate(merged))
    ensures r.node.gr == right
    ensures r.node.jump.dest == JumpOf(right).dest
    ensures r.node.jump.thenBranch == JumpOf(r.node.gl).thenBranch
    ensures r.node.jump.elseBranch == JumpOf(r.node.gl).elseBranch
    ensures r.node.jump.thenBranch.Entries() == JumpOf(left).thenBranch.Entries() + JumpOf(right).thenBranch.Entries()
    ensures r.node.jump.thenStart == JumpOf(right).thenStart
    ensures r.node.jump.elseEnd == JumpOf(right).elseEnd
    ensures r.node.jump.startFrame == JumpOf(left).startFrame
    ensures forall items :: Prepare(r, items) == (r, items)
  {
    var lj := UpdateBranches(JumpOf(left), JumpOf(right));
    var merged := WithJump(left, lj);
    var op := GateOperand(JumpOf(left), JumpOf(right));
    var l := if op == AND then merged else Negate(merged);
    var j := NewJump(JumpOf(right).dest).(
      thenBranch := lj.thenBranch,
      elseBranch := lj.elseBranch,
      thenStart := JumpOf(right).thenStart,
      elseEnd := JumpOf(right).elseEnd,
      startFrame := lj.startFrame);
    Expr(Info(0, Some(BOOLEAN), None, 0), Gate(op, l, right, j))
  }

  // ----- truth of a condition -----

  /** A condition tree: comparisons by one of the six comparison operators,
      combined by AND and OR gates. */
  predicate CondTree(e: Expr) {
    match e.node
    case Compare(op, _, _, _) => op != AND && op != OR
    case Gate(op, l, r, _) => (op == AND || op == OR) && CondTree(l) && CondTree(r)
    case _ => false
  }

  /** The three comparisons whose complements are the other three. */
  predicate Basic(op: Operand) {
    op == EQ || op == LT || op == GT
  }

  /** The truth of a condition tree, given the truth of each basic
      comparison of two operands: a complemented comparison is the negation
      of its basic one, AND and OR are conjunction and disjunction. */
  function Holds(e: Expr, atom: (Operand, Expr, Expr) -> bool): bool
    requires CondTree(e)
  {
    match e.node
    case Compare(op, l, r, _) =>
      if Basic(op) then atom(op, l, r) else !atom(Neg(op), l, r)
    case Gate(op, l, r, _) =>
      if op == AND then Holds(l, atom) && Holds(r, atom) else Holds(l, atom) || Holds(r, atom)
  }

  /** Negation keeps a condition tree a condition tree. */
  lemma {:induction false} NegateCondTree(e: Expr)
    requires CondTree(e)
    ensures CondTree(Negate(e))
  {
    match e.node
    case Compare(_, _, _, _) =>
    case Gate(op, l, r, _) =>
      NegateCondTree(l);
      NegateCondTree(r);
  }

  /** negate is logical negation: for a comparison by its complementary
      operator, for a gate by De Morgan's laws. */
  lemma {:induction false} NegateHolds(e: Expr, atom: (Operand, Expr, Expr) -> bool)
    requires CondTree(e)
    ensures CondTree(Negate(e))
    ensures Holds(Negate(e), atom) == !Holds(e, atom)
  {
    NegateCondTree(e);
    match e.node
    case Compare(op, l, r, _) =>
      NegInvolution(op);
    case Gate(op, l, r, _) =>
      NegateHolds(l, atom);
      NegateHolds(r, atom);
  }

  /** The gate of two comparisons, read as a condition: AND when both jump to
      the same place, and otherwise OR with the left comparison negated. */
  lemma GateHolds(left: Expr, right: Expr, atom: (Operand, Expr, Expr) -> bool)
    requires CondTree(left) && CondTree(right)
    ensures CondTree(MakeGate(left, right))
    ensures var g := MakeGate(left, right);
      Holds(g, atom) ==
        if JumpOf(left).dest == JumpOf(right).dest
        then Holds(left, atom) && Holds(right, atom)
        else !Holds(left, atom) || Holds(right, atom)
  {
    var merged := WithJump(left, UpdateBranches(JumpOf(left), JumpOf(right)));
    assert Holds(merged, atom) == Holds(left, atom);
    NegateHolds(merged, atom);
  }

  // ----- ternary -----

  /** new TernaryExpression(cond): the condition's opcode, and a jump to the
      condition's conditional destination. */
  function MakeTernary(cond: Expr): (r: Expr)
    requires IsConditional(cond)
    ensures r.node.Ternary? && r.node.cond == cond
    ensures r.info.opCode == cond.info.opCode
    ensures GetType(r) == GetType(cond)
    ensures JumpOf(r).dest == JumpOf(cond).condDest
    ensures forall items :: Prepare(r, items) == (r, items)
  {
    Expr(Info(cond.info.opCode, None, None, 0), Ternary(cond, NewJump(JumpOf(cond).condDest)))
  }

  /** A ternary renders the condition, the first then-item and the first
      else-item; items after the first in either branch make no difference. */
  lemma TernaryWrite(cond: Expr, thenRest: seq<Item>, elseRest: seq<Item>)
    requires IsConditional(cond)
    requires Writable(MakeTernary(cond))
    ensures var j := JumpOf(cond);
      var t := j.thenBranch.items[0].expr;
      var f := j.elseBranch.items[0].expr;
      && Write(MakeTernary(cond)) == Write(cond) + " ? " + Write(t) + " : " + Write(f)
      && var j2 := j.(thenBranch := StackOf([j.thenBranch.items[0]] + thenRest),
                      elseBranch := StackOf([j.elseBranch.items[0]] + elseRest));
         Write(MakeTernary(WithJump(cond, j2))) == Write(MakeTernary(cond))
  {
    var j := JumpOf(cond);
    var j2 := j.(thenBranch := StackOf([j.thenBranch.items[0]] + thenRest),
                 elseBranch := StackOf([j.elseBranch.items[0]] + elseRest));
    var c2 := WithJump(cond, j2);
    assert c2.info == cond.info;
    assert Write(c2) == Write(cond) by {
      match cond.node
      case Compare(_, _, _, _) =>
      case Gate(_, _, _, _) =>
      case Ternary(_, _) =>
    }
  }

  /** A ternary cannot render without a first item in each branch. */
  lemma TernaryNeedsBranches(cond: Expr)
    requires IsConditional(cond)
    requires JumpOf(cond).thenBranch.IsEmptyOrNull() || JumpOf(cond).elseBranch.IsEmptyOrNull()
    ensures !Writable(MakeTernary(cond))
  {
  }
}
