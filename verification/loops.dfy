/** Loop recovery on a finished operand stack (LoopEnhancer): do-while
    detection, which moves the items between a backward jump's target and the
    jump into the jump's then-branch; the loop-end fix-up; and the rewriting
    of unconditional jumps at the end of branches into break and continue. */
module Loops {

  import opened Wrappers
  import opened Values
  import opened Expr

  /** The items of one branch of a jump node: the then-branch (useThen) or the
      else-branch; a null branch has none. */
  function Branch(e: Expr, useThen: bool): seq<Item>
    requires IsJump(e)
  {
    if useThen then JumpOf(e).thenBranch.Entries() else JumpOf(e).elseBranch.Entries()
  }

  // ----- do-while detection -----

  /** The first position below cur whose item carries label id dest, or -1. */
  function FindLabel(items: seq<Item>, dest: int, cur: nat): (p: int)
    requires cur <= |items|
    ensures -1 <= p < cur
    ensures p >= 0 ==> items[p].labelId == dest && forall q :: 0 <= q < p ==> items[q].labelId != dest
    ensures p == -1 ==> forall q :: 0 <= q < cur ==> items[q].labelId != dest
    decreases cur
  {
    if cur == 0 then -1
    else
      var p := FindLabel(items, dest, cur - 1);
      if p >= 0 then p else if items[cur - 1].labelId == dest then cur - 1 else -1
  }

  /** updateDoLoops for the jump at position cur. A jump with a non-empty
      branch is left alone, and so is one whose destination labels no item
      below it. Otherwise, with p the first such item: the jump becomes a
      do-while starting at its destination, the items p .. cur - 1 leave the
      stack and are appended to its then-branch, and its condition is negated
      once. A null then-branch at that point is a null dereference (None). */
  function UpdateDoLoop(items: seq<Item>, cur: nat): (r: Option<seq<Item>>)
    requires cur < |items| && IsJump(items[cur].expr)
    ensures r.Some? ==> |r.value| <= |items|
    ensures var j := JumpOf(items[cur].expr);
      !j.thenBranch.IsEmptyOrNull() || !j.elseBranch.IsEmptyOrNull() ==> r == Some(items)
    ensures FindLabel(items, JumpOf(items[cur].expr).dest, cur) == -1 ==> r == Some(items)
    ensures var e := items[cur].expr;
      var j := JumpOf(e);
      var p := FindLabel(items, j.dest, cur);
      j.thenBranch.IsEmptyOrNull() && j.elseBranch.IsEmptyOrNull() && p >= 0 ==>
        if j.thenBranch.NullStack? then r.None?
        else
          && r.Some? && |r.value| == |items| - (cur - p)
          && r.value[..p] == items[..p]
          && r.value[p + 1..] == items[cur + 1..]
          && r.value[p].labelId == items[cur].labelId && r.value[p].line == items[cur].line
          && IsJump(r.value[p].expr)
          && var j2 := JumpOf(r.value[p].expr);
             && j2.loopType == DoWhile && j2.startFrame == j.dest
             && j2.thenBranch == StackOf(items[p..cur])
             && j2.elseBranch == j.elseBranch && j2.dest == j.dest
             && Negate(r.value[p].expr) == WithJump(e, j2)
  {
    var e := items[cur].expr;
    var j := JumpOf(e);
    if !j.thenBranch.IsEmptyOrNull() || !j.elseBranch.IsEmptyOrNull() then Some(items)
    else
      var p := FindLabel(items, j.dest, cur);
      if p == -1 then Some(items)
      else if j.thenBranch.NullStack? then None
      else
        var j2 := j.(loopType := DoWhile, startFrame := j.dest, thenBranch := StackOf(j.thenBranch.items + items[p..cur]));
        var moved := items[cur].(expr := Negate(WithJump(e, j2)));
        NegateInvolution(WithJump(e, j2));
        Some(items[..p] + [moved] + items[cur + 1..])
  }

  /** The first loop of enhance: every jump position is visited once, in
      increasing order over the stack as it is at that moment; a position
      freed by moved items is not revisited. */
  function DoLoopPass(items: seq<Item>, i: nat): (r: Option<seq<Item>>)
    ensures r.Some? ==> |r.value| <= |items|
    decreases |items| - i
  {
    if i >= |items| then Some(items)
    else if IsJump(items[i].expr) then
      match UpdateDoLoop(items, i)
      case None => None
      case Some(items1) => DoLoopPass(items1, i + 1)
    else DoLoopPass(items, i + 1)
  }

  /** A stack without jumps has no loops to detect. */
  lemma {:induction false} DoLoopPassNoJumps(items: seq<Item>, i: nat)
    requires forall k :: 0 <= k < |items| ==> !IsJump(items[k].expr)
    ensures DoLoopPass(items, i) == Some(items)
    decreases |items| - i
  {
    if i < |items| {
      DoLoopPassNoJumps(items, i + 1);
    }
  }

  // ----- loop-end detection -----

  /** An item whose node is a jump to target. */
  predicate JumpsTo(x: Item, target: int) {
    IsJump(x.expr) && JumpOf(x.expr).dest == target
  }

  /** fixLoopDetection's reach: below a jump node with a non-null then-branch,
      some item of the then-branch, or of a non-null else-branch, jumps to
      target or reaches such a jump itself. */
  predicate Reaches(e: Expr, target: int)
    decreases e, 1
  {
    IsJump(e) && JumpOf(e).thenBranch.StackOf?
    && (ReachesIn(e, true, 0, target) || (JumpOf(e).elseBranch.StackOf? && ReachesIn(e, false, 0, target)))
  }

  predicate ReachesIn(e: Expr, useThen: bool, k: nat, target: int)
    requires IsJump(e)
    decreases e, 0, |Branch(e, useThen)| - k
  {
    var items := Branch(e, useThen);
    k < |items| &&
      assert items[k] in items;
      (Reaches(items[k].expr, target) || JumpsTo(items[k], target) || ReachesIn(e, useThen, k + 1, target))
  }

  /** ReachesIn is an existential over the branch positions from k. */
  lemma {:induction false} ReachesInExists(e: Expr, useThen: bool, k: nat, target: int)
    requires IsJump(e)
    ensures ReachesIn(e, useThen, k, target) <==>
      exists q :: k <= q < |Branch(e, useThen)| && (Reaches(Branch(e, useThen)[q].expr, target) || JumpsTo(Branch(e, useThen)[q], target))
    decreases |Branch(e, useThen)| - k
  {
    if k < |Branch(e, useThen)| {
      ReachesInExists(e, useThen, k + 1, target);
    }
  }

  /** fixLoopDetection as the source walks it: the top-level else-end (end)
      threaded through the then-items and then the else-items, each item
      first walked itself and then, when it jumps to target, setting end to
      target. */
  function FixWalk(e: Expr, target: int, end: int): (r: int)
    ensures r == end || r == target
    decreases e, 1
  {
    if !IsJump(e) || JumpOf(e).thenBranch.NullStack? then end
    else
      var end1 := FixWalkIn(e, true, 0, target, end);
      if JumpOf(e).elseBranch.StackOf? then FixWalkIn(e, false, 0, target, end1) else end1
  }

  function FixWalkIn(e: Expr, useThen: bool, k: nat, target: int, end: int): (r: int)
    requires IsJump(e)
    ensures r == end || r == target
    decreases e, 0, |Branch(e, useThen)| - k
  {
    var items := Branch(e, useThen);
    if k >= |items| then end
    else
      assert items[k] in items;
      var end1 := FixWalk(items[k].expr, target, end);
      var end2 := if JumpsTo(items[k], target) then target else end1;
      FixWalkIn(e, useThen, k + 1, target, end2)
  }

  /** The walk sets the else-end to target exactly when some nested jump
      reaches target, and otherwise leaves it as it was. */
  lemma {:induction false} FixWalkReaches(e: Expr, target: int, end: int)
    ensures FixWalk(e, target, end) == if Reaches(e, target) then target else end
    decreases e, 1
  {
    if IsJump(e) && JumpOf(e).thenBranch.StackOf? {
      FixWalkInReaches(e, true, 0, target, end);
      var end1 := FixWalkIn(e, true, 0, target, end);
      if JumpOf(e).elseBranch.StackOf? {
        FixWalkInReaches(e, false, 0, target, end1);
      }
    }
  }

  lemma {:induction false} FixWalkInReaches(e: Expr, useThen: bool, k: nat, target: int, end: int)
    requires IsJump(e)
    ensures FixWalkIn(e, useThen, k, target, end) == if ReachesIn(e, useThen, k, target) then target else end
    decreases e, 0, |Branch(e, useThen)| - k
  {
    var items := Branch(e, useThen);
    if k < |items| {
      assert items[k] in items;
      FixWalkReaches(items[k].expr, target, end);
      var end1 := FixWalk(items[k].expr, target, end);
      var end2 := if JumpsTo(items[k], target) then target else end1;
      FixWalkInReaches(e, useThen, k + 1, target, end2);
    }
  }

  /** fixLoopDetection on a top-level jump: its else-end becomes the loop
      start label when a nested jump at any depth targets that label. */
  function FixLoopDetection(top: Expr, loopStart: int): (r: Expr)
    requires IsJump(top)
    ensures IsJump(r) && r.info == top.info
    ensures JumpOf(r) == JumpOf(top).(elseEnd := JumpOf(r).elseEnd)
    ensures JumpOf(r).elseEnd == if Reaches(top, loopStart) then loopStart else JumpOf(top).elseEnd
  {
    FixWalkReaches(top, loopStart, JumpOf(top).elseEnd);
    WithJump(top, JumpOf(top).(elseEnd := FixWalk(top, loopStart, JumpOf(top).elseEnd)))
  }

  // ----- break and continue -----

  /** What the rewriting needs to know about the top-level jump: the label
      of the next top-level item, whether the top level is a loop, its start
      frame, and whether its then-branch ends in an unconditional jump (None:
      the then-branch is null or empty, so looking at its last item fails). */
  datatype Ctx = Ctx(next: int, isLoop: bool, startFrame: int, topLast: Option<bool>)

  function TopLast(b: SubStack): (r: Option<bool>)
    ensures r.None? <==> b.IsEmptyOrNull()
  {
    if b.IsEmptyOrNull() then None else Some(b.items[|b.items| - 1].expr.node.Goto?)
  }

  /** new BreakExpression(jump) and new ContinueExpression(jump): the wrapped
      unconditional jump keeps its state. */
  function ToBreak(e: Expr): Expr
    requires e.node.Goto?
  {
    e.(node := Break(e.node.jump))
  }

  function ToContinue(e: Expr): Expr
    requires e.node.Goto?
  {
    e.(node := Continue(e.node.jump))
  }

  /** The last item of a branch is an unconditional jump to target. */
  predicate EndsWithGotoTo(branch: seq<Item>, target: int) {
    branch != [] && branch[|branch| - 1].expr.node.Goto? && branch[|branch| - 1].expr.node.jump.dest == target
  }

  /** addBreak: when the top level is a loop and the branch ends in an
      unconditional jump to the next top-level label, that item becomes a
      break, and the flag asks for the top-level else-end to be reset to its
      start frame. */
  function AddBreak(ctx: Ctx, branch: seq<Item>): (r: (seq<Item>, bool))
    ensures r.1 <==> ctx.isLoop && EndsWithGotoTo(branch, ctx.next)
    ensures !r.1 ==> r.0 == branch
    ensures r.1 ==> var n := |branch|;
      r.0 == branch[..n - 1] + [branch[n - 1].(expr := ToBreak(branch[n - 1].expr))]
  {
    if ctx.isLoop && EndsWithGotoTo(branch, ctx.next) then
      var n := |branch|;
      (branch[..n - 1] + [branch[n - 1].(expr := ToBreak(branch[n - 1].expr))], true)
    else (branch, false)
  }

  /** addContinue for a nested jump: a non-empty branch needs the last item
      of the top-level then-branch (None when there is none); when that item
      and the branch's last item are unconditional jumps, the top level is a
      loop and the branch's jump targets the top-level start frame, the item
      becomes a continue. */
  function AddContinue(ctx: Ctx, branch: seq<Item>): (r: Option<seq<Item>>)
    ensures branch == [] ==> r == Some(branch)
    ensures branch != [] && ctx.topLast.None? ==> r.None?
    ensures r.Some? && !(ctx.isLoop && ctx.topLast == Some(true) && EndsWithGotoTo(branch, ctx.startFrame)) ==> r.value == branch
    ensures r.Some? && ctx.isLoop && ctx.topLast == Some(true) && EndsWithGotoTo(branch, ctx.startFrame) ==>
      var n := |branch|;
      r.value == branch[..n - 1] + [branch[n - 1].(expr := ToContinue(branch[n - 1].expr))]
  {
    if branch == [] then Some(branch)
    else if ctx.topLast.None? then None
    else if ctx.isLoop && ctx.topLast == Some(true) && EndsWithGotoTo(branch, ctx.startFrame) then
      var n := |branch|;
      Some(branch[..n - 1] + [branch[n - 1].(expr := ToContinue(branch[n - 1].expr))])
    else Some(branch)
  }

  /** improveBreakAndContinue for a nested jump node: first every jump node
      of its then-branch, then addBreak and addContinue on that branch, then
      the same for a non-null else-branch. The flag reports whether a break
      was added anywhere. */
  function Nested(e: Expr, ctx: Ctx): (r: Option<(Expr, bool)>)
    requires IsJump(e)
    ensures r.Some? ==> IsJump(r.value.0) && r.value.0.info == e.info
    ensures r.Some? ==> r.value.0.node.Goto? == e.node.Goto? && IsConditional(r.value.0) == IsConditional(e)
    ensures r.Some? ==> var j, j1 := JumpOf(e), JumpOf(r.value.0);
      && j1 == j.(thenBranch := j1.thenBranch, elseBranch := j1.elseBranch)
      && j1.thenBranch.NullStack? == j.thenBranch.NullStack? && j1.elseBranch.NullStack? == j.elseBranch.NullStack?
      && |Branch(r.value.0, true)| == |Branch(e, true)| && |Branch(r.value.0, false)| == |Branch(e, false)|
    decreases e, 1
  {
    var j := JumpOf(e);
    var thenPart: Option<(SubStack, bool)> :=
      if j.thenBranch.NullStack? then Some((NullStack, false))
      else match NestedIn(e, true, 0, ctx)
        case None => None
        case Some((items1, b1)) =>
          var (items2, b2) := AddBreak(ctx, items1);
          match AddContinue(ctx, items2)
          case None => None
          case Some(items3) => Some((StackOf(items3), b1 || b2));
    match thenPart
    case None => None
    case Some((thenB, bt)) =>
      var elsePart: Option<(SubStack, bool)> :=
        if j.elseBranch.NullStack? then Some((NullStack, false))
        else match NestedIn(e, false, 0, ctx)
          case None => None
          case Some((items1, b1)) =>
            var (items2, b2) := AddBreak(ctx, items1);
            match AddContinue(ctx, items2)
            case None => None
            case Some(items3) => Some((StackOf(items3), b1 || b2));
      match elsePart
      case None => None
      case Some((elseB, be)) => Some((WithJump(e, j.(thenBranch := thenB, elseBranch := elseB)), bt || be))
  }

  /** The items of one branch from position k, each jump node rewritten by
      Nested; other items stay as they are. */
  function NestedIn(e: Expr, useThen: bool, k: nat, ctx: Ctx): (r: Option<(seq<Item>, bool)>)
    requires IsJump(e)
    requires k <= |Branch(e, useThen)|
    ensures r.Some? ==> |r.value.0| == |Branch(e, useThen)| - k
    decreases e, 0, |Branch(e, useThen)| - k
  {
    var items := Branch(e, useThen);
    if k == |items| then Some(([], false))
    else
      assert items[k] in items;
      var x := items[k];
      var head: Option<(Item, bool)> := if IsJump(x.expr) then
          match Nested(x.expr, ctx)
          case None => None
          case Some((e1, b)) => Some((x.(expr := e1), b))
        else Some((x, false));
      match head
      case None => None
      case Some((x1, b1)) =>
        match NestedIn(e, useThen, k + 1, ctx)
        case None => None
        case Some((rest, b2)) => Some(([x1] + rest, b1 || b2))
  }

  /** The rewrite of a jump item: the item with its node rewritten by
      Nested; any other item as it is. */
  predicate RewrittenItem(x: Item, y: Item, ctx: Ctx) {
    if IsJump(x.expr) then Nested(x.expr, ctx).Some? && y == x.(expr := Nested(x.expr, ctx).value.0)
    else y == x
  }

  /** Whether the rewrite of an item reports a break. */
  predicate ReportsBreak(x: Item, ctx: Ctx) {
    IsJump(x.expr) && Nested(x.expr, ctx).Some? && Nested(x.expr, ctx).value.1
  }

  /** One step of the branch rewrite: the first item rewritten, in front of
      the rewrite of the rest. */
  lemma NestedInStep(e: Expr, useThen: bool, k: nat, ctx: Ctx)
    requires IsJump(e) && k < |Branch(e, useThen)|
    requires NestedIn(e, useThen, k, ctx).Some?
    ensures NestedIn(e, useThen, k + 1, ctx).Some?
    ensures var x := Branch(e, useThen)[k];
      var out := NestedIn(e, useThen, k, ctx).value;
      var rest := NestedIn(e, useThen, k + 1, ctx).value;
      && out.0 == [out.0[0]] + rest.0
      && RewrittenItem(x, out.0[0], ctx)
      && (out.1 <==> ReportsBreak(x, ctx) || rest.1)
  {
  }

  /** The branch rewrite item by item: a jump node is replaced by its own
      rewrite (which then exists) and any other item is kept; a break is
      reported exactly when one of the rewritten jumps reports one. */
  lemma {:induction false} NestedInPointwise(e: Expr, useThen: bool, k: nat, ctx: Ctx)
    requires IsJump(e) && k <= |Branch(e, useThen)|
    requires NestedIn(e, useThen, k, ctx).Some?
    ensures var items := Branch(e, useThen);
      var out := NestedIn(e, useThen, k, ctx).value;
      && (forall q :: k <= q < |items| ==> RewrittenItem(items[q], out.0[q - k], ctx))
      && (out.1 <==> exists q :: k <= q < |items| && ReportsBreak(items[q], ctx))
    decreases |Branch(e, useThen)| - k
  {
    NestedInItems(e, useThen, k, ctx);
    NestedInBreaks(e, useThen, k, ctx);
  }

  /** Item by item: the rewrite of a branch from k. */
  lemma {:induction false} NestedInItems(e: Expr, useThen: bool, k: nat, ctx: Ctx)
    requires IsJump(e) && k <= |Branch(e, useThen)|
    requires NestedIn(e, useThen, k, ctx).Some?
    ensures var items := Branch(e, useThen);
      var out := NestedIn(e, useThen, k, ctx).value;
      forall q :: k <= q < |items| ==> RewrittenItem(items[q], out.0[q - k], ctx)
    decreases |Branch(e, useThen)| - k
  {
    var items := Branch(e, useThen);
    if k < |items| {
      NestedInStep(e, useThen, k, ctx);
      NestedInItems(e, useThen, k + 1, ctx);
      var out := NestedIn(e, useThen, k, ctx).value;
      var rest := NestedIn(e, useThen, k + 1, ctx).value;
      forall q | k <= q < |items| ensures RewrittenItem(items[q], out.0[q - k], ctx) {
        if q > k {
          assert out.0[q - k] == rest.0[q - (k + 1)];
        }
      }
    }
  }

  /** The break flag of the rewrite of a branch from k. */
  lemma {:induction false} NestedInBreaks(e: Expr, useThen: bool, k: nat, ctx: Ctx)
    requires IsJump(e) && k <= |Branch(e, useThen)|
    requires NestedIn(e, useThen, k, ctx).Some?
    ensures var items := Branch(e, useThen);
      NestedIn(e, useThen, k, ctx).value.1 <==> exists q :: k <= q < |items| && ReportsBreak(items[q], ctx)
    decreases |Branch(e, useThen)| - k
  {
    var items := Branch(e, useThen);
    if k < |items| {
      NestedInStep(e, useThen, k, ctx);
      NestedInBreaks(e, useThen, k + 1, ctx);
      if NestedIn(e, useThen, k, ctx).value.1 && !ReportsBreak(items[k], ctx) {
        var q :| k + 1 <= q < |items| && ReportsBreak(items[q], ctx);
      }
    }
  }

  /** improveBreakAndContinue(top, nextLabel, top): the nested jumps of the
      then-branch, then addBreak on the top-level then-branch (addContinue
      skips the top level's own branches), then the same for the else-branch,
      whose nested jumps see the then-branch as addBreak left it. A break
      anywhere resets the top-level else-end to its start frame. */
  function ImproveBreakAndContinue(top: Expr, next: int): (r: Option<Expr>)
    requires IsJump(top)
    ensures r.Some? ==> IsJump(r.value) && r.value.info == top.info
    ensures r.Some? ==> r.value.node.Goto? == top.node.Goto? && IsConditional(r.value) == IsConditional(top)
    ensures r.Some? ==> var j, j1 := JumpOf(top), JumpOf(r.value);
      && j1 == j.(thenBranch := j1.thenBranch, elseBranch := j1.elseBranch, elseEnd := j1.elseEnd)
      && (j1.elseEnd == j.elseEnd || j1.elseEnd == j.startFrame)
      && j1.thenBranch.NullStack? == j.thenBranch.NullStack? && j1.elseBranch.NullStack? == j.elseBranch.NullStack?
      && |Branch(r.value, true)| == |Branch(top, true)| && |Branch(r.value, false)| == |Branch(top, false)|
  {
    var j := JumpOf(top);
    var ctx := Ctx(next, IsLoop(j), j.startFrame, TopLast(j.thenBranch));
    var thenPart: Option<(SubStack, bool)> :=
      if j.thenBranch.NullStack? then Some((NullStack, false))
      else match NestedIn(top, true, 0, ctx)
        case None => None
        case Some((items1, b1)) =>
          var (items2, b2) := AddBreak(ctx, items1);
          Some((StackOf(items2), b1 || b2));
    match thenPart
    case None => None
    case Some((thenB, bt)) =>
      var ctx2 := ctx.(topLast := TopLast(thenB));
      var elsePart: Option<(SubStack, bool)> :=
        if j.elseBranch.NullStack? then Some((NullStack, false))
        else match NestedIn(top, false, 0, ctx2)
          case None => None
          case Some((items1, b1)) =>
            var (items2, b2) := AddBreak(ctx2, items1);
            Some((StackOf(items2), b1 || b2));
      match elsePart
      case None => None
      case Some((elseB, be)) =>
        var end := if bt || be then j.startFrame else j.elseEnd;
        Some(WithJump(top, j.(thenBranch := thenB, elseBranch := elseB, elseEnd := end)))
  }

  /** The label of the item after position q, or -2 after the last item. */
  function NextLabel(items: seq<Item>, q: nat): int
    requires q < |items|
  {
    if q < |items| - 1 then items[q + 1].labelId else -2
  }

  /** The rewrite of one top-level jump node: the loop-end fix-up with the
      node's own label as loop start, then break/continue rewriting. */
  function PassRewrite(x: Item, next: int): Option<Expr>
    requires IsJump(x.expr)
  {
    ImproveBreakAndContinue(FixLoopDetection(x.expr, x.labelId), next)
  }

  /** Whether the rewrite of a jump node at position q fails. */
  predicate Fails(items: seq<Item>, q: nat)
    requires q < |items|
  {
    IsJump(items[q].expr) && PassRewrite(items[q], NextLabel(items, q)).None?
  }

  /** The second loop of enhance: every top-level jump node from position i
      on is replaced by its rewrite, taken with the next item's label (-2
      after the last item); the pass fails exactly when one of those
      rewrites fails. Labels are never changed, so each rewrite sees the
      labels of the original stack. */
  function BreakContinuePass(items: seq<Item>, i: nat): (r: Option<seq<Item>>)
    ensures r.Some? ==> |r.value| == |items|
    ensures r.Some? ==> forall q :: 0 <= q < |items| ==>
      && r.value[q].labelId == items[q].labelId
      && (IsJump(r.value[q].expr) <==> IsJump(items[q].expr))
      && (q < i || !IsJump(items[q].expr) ==> r.value[q] == items[q])
    ensures r.Some? ==> forall q :: i <= q < |items| && IsJump(items[q].expr) ==>
      && PassRewrite(items[q], NextLabel(items, q)).Some?
      && r.value[q] == items[q].(expr := PassRewrite(items[q], NextLabel(items, q)).value)
    ensures r.None? <==> exists q :: i <= q < |items| && Fails(items, q)
    decreases |items| - i
  {
    if i >= |items| then Some(items)
    else
      var x := items[i];
      if IsJump(x.expr) then
        match PassRewrite(x, NextLabel(items, i))
        case None => assert Fails(items, i); None
        case Some(e1) =>
          var items1 := items[i := x.(expr := e1)];
          assert !Fails(items, i);
          assert forall q :: i < q < |items| ==>
            items1[q] == items[q] && NextLabel(items1, q) == NextLabel(items, q) && (Fails(items1, q) <==> Fails(items, q));
          BreakContinuePass(items1, i + 1)
      else BreakContinuePass(items, i + 1)
  }

  /** enhance: do-while detection over the whole stack, then the loop-end
      fix-up and break/continue rewriting. */
  function Enhance(items: seq<Item>): (r: Option<seq<Item>>)
    ensures r.Some? ==> |r.value| <= |items|
  {
    match DoLoopPass(items, 0)
    case None => None
    case Some(items1) => BreakContinuePass(items1, 0)
  }

  // ----- properties of the rewriting -----

  /** Outside a loop nothing is rewritten: the nested walk either fails on a
      missing top-level then-branch or returns the node unchanged. */
  lemma {:induction false} NestedNotLoop(e: Expr, ctx: Ctx)
    requires IsJump(e) && !ctx.isLoop
    ensures Nested(e, ctx).Some? ==> Nested(e, ctx).value == (e, false)
    decreases e, 1
  {
    var j := JumpOf(e);
    if j.thenBranch.StackOf? {
      NestedInNotLoop(e, true, 0, ctx);
    }
    if j.elseBranch.StackOf? {
      NestedInNotLoop(e, false, 0, ctx);
    }
    if Nested(e, ctx).Some? {
      assert j.(thenBranch := j.thenBranch, elseBranch := j.elseBranch) == j;
      match e.node
      case Compare(_, _, _, _) =>
      case Gate(_, _, _, _) =>
      case Ternary(_, _) =>
      case Goto(_) =>
    }
  }

  lemma {:induction false} NestedInNotLoop(e: Expr, useThen: bool, k: nat, ctx: Ctx)
    requires IsJump(e) && !ctx.isLoop && k <= |Branch(e, useThen)|
    ensures NestedIn(e, useThen, k, ctx).Some? ==> NestedIn(e, useThen, k, ctx).value == (Branch(e, useThen)[k..], false)
    decreases e, 0, |Branch(e, useThen)| - k
  {
    var items := Branch(e, useThen);
    if k < |items| {
      assert items[k] in items;
      var x := items[k];
      if IsJump(x.expr) {
        NestedNotLoop(x.expr, ctx);
        assert x.(expr := x.expr) == x;
      }
      NestedInNotLoop(e, useThen, k + 1, ctx);
      assert [x] + items[k + 1..] == items[k..];
      if NestedIn(e, useThen, k, ctx).Some? {
        assert NestedIn(e, useThen, k + 1, ctx).Some?;
        assert NestedIn(e, useThen, k, ctx).value == ([x] + items[k + 1..], false);
      }
    } else {
      assert items[k..] == [];
    }
  }

  /** Outside a loop the top-level rewriting changes nothing. */
  lemma NotLoopUnchanged(top: Expr, next: int)
    requires IsJump(top) && !IsLoop(JumpOf(top))
    ensures ImproveBreakAndContinue(top, next).Some? ==> ImproveBreakAndContinue(top, next).value == top
  {
    var j := JumpOf(top);
    var ctx := Ctx(next, IsLoop(j), j.startFrame, TopLast(j.thenBranch));
    if j.thenBranch.StackOf? {
      NestedInNotLoop(top, true, 0, ctx);
    }
    if j.elseBranch.StackOf? {
      NestedInNotLoop(top, false, 0, ctx.(topLast := TopLast(j.thenBranch)));
    }
    if ImproveBreakAndContinue(top, next).Some? {
      match top.node
      case Compare(_, _, _, _) =>
      case Gate(_, _, _, _) =>
      case Ternary(_, _) =>
      case Goto(_) =>
    }
  }

  /** Every unconditional jump below a node targets a label id (ids are never
      negative). */
  predicate LabelledGotos(e: Expr)
    decreases e, 1
  {
    IsJump(e) ==> LabelledGotosIn(e, true, 0) && LabelledGotosIn(e, false, 0)
  }

  predicate LabelledGotosIn(e: Expr, useThen: bool, k: nat)
    requires IsJump(e)
    decreases e, 0, |Branch(e, useThen)| - k
  {
    var items := Branch(e, useThen);
    k >= |items| ||
      (assert items[k] in items;
       && (items[k].expr.node.Goto? ==> items[k].expr.node.jump.dest >= 0)
       && LabelledGotos(items[k].expr)
       && LabelledGotosIn(e, useThen, k + 1))
  }

  /** With the next label -2, as after the last top-level item, no break is
      ever added below a node whose unconditional jumps all target labels. */
  lemma {:induction false} NestedNoBreakAtEnd(e: Expr, ctx: Ctx)
    requires IsJump(e) && ctx.next < 0 && LabelledGotos(e)
    ensures Nested(e, ctx).Some? ==> !Nested(e, ctx).value.1
    decreases e, 1
  {
    var j := JumpOf(e);
    if j.thenBranch.StackOf? {
      NestedInNoBreakAtEnd(e, true, 0, ctx);
    }
    if j.elseBranch.StackOf? {
      NestedInNoBreakAtEnd(e, false, 0, ctx);
    }
  }

  lemma {:induction false} NestedInNoBreakAtEnd(e: Expr, useThen: bool, k: nat, ctx: Ctx)
    requires IsJump(e) && ctx.next < 0 && LabelledGotosIn(e, useThen, k) && k <= |Branch(e, useThen)|
    ensures NestedIn(e, useThen, k, ctx).Some? ==> !NestedIn(e, useThen, k, ctx).value.1
    ensures NestedIn(e, useThen, k, ctx).Some? ==>
      forall q :: 0 <= q < |NestedIn(e, useThen, k, ctx).value.0| ==>
        var x := NestedIn(e, useThen, k, ctx).value.0[q];
        x.expr.node.Goto? ==> x.expr.node.jump.dest >= 0
    decreases e, 0, |Branch(e, useThen)| - k
  {
    var items := Branch(e, useThen);
    if k < |items| {
      assert items[k] in items;
      if IsJump(items[k].expr) {
        NestedNoBreakAtEnd(items[k].expr, ctx);
      }
      NestedInNoBreakAtEnd(e, useThen, k + 1, ctx);
    }
  }

  /** The last top-level jump gets next label -2: no break is added anywhere
      below it, and its else-end keeps the value the loop-end fix-up gave it. */
  lemma NoBreakAtEnd(top: Expr)
    requires IsJump(top) && LabelledGotos(top)
    ensures var r := ImproveBreakAndContinue(top, -2);
      r.Some? ==> JumpOf(r.value).elseEnd == JumpOf(top).elseEnd
  {
    var j := JumpOf(top);
    var ctx := Ctx(-2, IsLoop(j), j.startFrame, TopLast(j.thenBranch));
    if j.thenBranch.StackOf? {
      NestedInNoBreakAtEnd(top, true, 0, ctx);
    }
    if j.elseBranch.StackOf? {
      var r := NestedIn(top, true, 0, ctx);
      var thenB := if j.thenBranch.NullStack? || r.None? then NullStack else StackOf(AddBreak(ctx, r.value.0).0);
      NestedInNoBreakAtEnd(top, false, 0, ctx.(topLast := TopLast(thenB)));
    }
  }
}
