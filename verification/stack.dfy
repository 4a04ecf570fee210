/** The operand stack of expressions (com.thesis.expression.stack.ExpressionStack,
    and the older com.thesis.expression.ExpressionStack): the items in push
    order, the current line and label, the cursor of the improve pass and the
    frame bookkeeping. The label registry is shared by every stack of one
    method, so it is a value of its own, threaded through the operations that
    touch it. */
module Stack {

  import opened Wrappers
  import opened Values
  import opened Expr

  // ----- label registry -----

  /** ASM label to dense label id. */
  type Registry = map<Label, nat>

  /** Every id lies below the number of labels and no two labels share one,
      so the ids are exactly 0 .. |reg| - 1. */
  predicate Dense(reg: Registry) {
    && (forall l :: l in reg ==> reg[l] < |reg|)
    && (forall l, m :: l in reg && m in reg && reg[l] == reg[m] ==> l == m)
  }

  /** getLabelId: a known label keeps its id; an unknown one is registered
      under the number of labels registered so far. */
  function GetLabelId(reg: Registry, l: Label): (r: (Registry, nat))
    ensures l in r.0 && r.0[l] == r.1
    ensures l in reg ==> r.0 == reg
    ensures l !in reg ==> r.1 == |reg|
    ensures r.0.Keys == reg.Keys + {l}
    ensures forall m :: m in reg ==> r.0[m] == reg[m]
  {
    if l in reg then (reg, reg[l]) else (reg[l := |reg|], |reg|)
  }

  /** Registering keeps the ids dense and adds at most one entry. */
  lemma GetLabelIdDense(reg: Registry, l: Label)
    requires Dense(reg)
    ensures Dense(GetLabelId(reg, l).0)
    ensures |GetLabelId(reg, l).0| == if l in reg then |reg| else |reg| + 1
  {
    if l !in reg {
      var reg' := reg[l := |reg|];
      assert reg'.Keys == reg.Keys + {l};
      assert |reg'.Keys| == |reg.Keys| + 1;
    }
  }

  /** Asking twice gives the same id and leaves the registry as the first
      request left it. */
  lemma GetLabelIdMemo(reg: Registry, l: Label)
    ensures GetLabelId(GetLabelId(reg, l).0, l) == GetLabelId(reg, l)
  {
  }

  /** Two labels get the same id only when they are the same label. */
  lemma GetLabelIdDistinct(reg: Registry, l: Label, m: Label)
    requires Dense(reg)
    requires l != m
    ensures var (reg1, a) := GetLabelId(reg, l);
            var (reg2, b) := GetLabelId(reg1, m);
            a != b && reg2[l] == a
  {
    GetLabelIdDense(reg, l);
  }

  // ----- the stack -----

  datatype Stack = Stack(
    items: seq<Item>,
    lineNum: int,
    curLabel: int,
    lastImprovement: nat,
    visitedFrame: int,
    frames: map<int, Item>)

  /** A new, empty stack: line 0, label 0, no pending frame. */
  function NewStack(): (s: Stack)
    ensures s.items == [] && s.frames == map[] && s.visitedFrame == NOT_SET
  {
    Stack([], 0, 0, 0, NOT_SET, map[])
  }

  /** getNew: a stack that continues the original's line, label and improve
      cursor but owns a fresh item stack and frame map. */
  function GetNew(s: Stack): (r: Stack)
    ensures r.items == [] && r.frames == map[] && r.visitedFrame == NOT_SET
    ensures r.lineNum == s.lineNum && r.curLabel == s.curLabel && r.lastImprovement == s.lastImprovement
  {
    Stack([], s.lineNum, s.curLabel, s.lastImprovement, NOT_SET, map[])
  }

  /** duplicate: getNew holding the original's items in the same order. */
  function Duplicate(s: Stack): (r: Stack)
    ensures r.items == s.items && r.frames == map[] && r.visitedFrame == NOT_SET
    ensures r.lineNum == s.lineNum && r.curLabel == s.curLabel && r.lastImprovement == s.lastImprovement
  {
    GetNew(s).(items := s.items)
  }

  /** peek: the top node, or null on an empty stack. */
  function Peek(s: Stack): (r: Option<Expr>)
    ensures s.items == [] <==> r.None?
    ensures r.Some? ==> r.value == s.items[|s.items| - 1].expr
  {
    PopItems(s.items).0
  }

  /** pop: the top node and the stack without it; null and no change when
      empty. */
  function Pop(s: Stack): (r: (Option<Expr>, Stack))
    ensures r.0 == Peek(s)
    ensures s.items == [] ==> r.1 == s
    ensures s.items != [] ==> r.1 == s.(items := s.items[..|s.items| - 1])
  {
    var (e, rest) := PopItems(s.items);
    (e, s.(items := rest))
  }

  /** push(e, false): one item stamped with the current label and line is
      appended; no preparation, improvement or frame recording. */
  function RawPush(s: Stack, e: Expr): (r: Stack)
    ensures |r.items| == |s.items| + 1 && r.items[..|s.items|] == s.items
    ensures r.items[|s.items|] == Item(e, s.curLabel, s.lineNum)
    ensures r == s.(items := r.items)
  {
    s.(items := s.items + [Item(e, s.curLabel, s.lineNum)])
  }

  /** Popping what push(e, false) pushed gives back e and the stack before. */
  lemma RawPushPop(s: Stack, e: Expr)
    ensures Pop(RawPush(s, e)) == (Some(e), s)
  {
    assert (s.items + [Item(e, s.curLabel, s.lineNum)])[..|s.items|] == s.items;
  }

  /** get(index): the node at index; an index out of range is an error. */
  function Get(s: Stack, index: int): (r: Option<Expr>)
    ensures r.Some? <==> 0 <= index < |s.items|
    ensures r.Some? ==> r.value == s.items[index].expr
  {
    if 0 <= index < |s.items| then Some(s.items[index].expr) else None
  }

  /** swap: the top two items change places; a stack of fewer than two items
      is an empty-stack error. */
  function Swap(s: Stack): (r: Option<Stack>)
    ensures r.Some? <==> |s.items| >= 2
    ensures r.Some? ==> var n := |s.items|;
      && |r.value.items| == n
      && r.value.items[..n - 2] == s.items[..n - 2]
      && r.value.items[n - 2] == s.items[n - 1]
      && r.value.items[n - 1] == s.items[n - 2]
      && r.value == s.(items := r.value.items)
  {
    var n := |s.items|;
    if n < 2 then None
    else Some(s.(items := s.items[..n - 2] + [s.items[n - 1], s.items[n - 2]]))
  }

  /** Swapping twice restores the stack. */
  lemma SwapInvolution(s: Stack)
    requires |s.items| >= 2
    ensures Swap(Swap(s).value) == Some(s)
  {
    var n := |s.items|;
    var t := Swap(s).value;
    var u := Swap(t).value;
    assert u.items == s.items by {
      assert u.items[..n - 2] == s.items[..n - 2];
      assert forall k :: 0 <= k < n ==> u.items[k] == s.items[k] by {
        forall k | 0 <= k < n
          ensures u.items[k] == s.items[k]
        {
          if k < n - 2 {
            assert u.items[k] == u.items[..n - 2][k];
          }
        }
      }
    }
  }

  /** addAll: null adds nothing; otherwise the other stack's items go on
      top, in their order. */
  function AddAll(s: Stack, other: Option<Stack>): (r: Stack)
    ensures other.None? ==> r == s
    ensures other.Some? ==> r.items == s.items + other.value.items && r == s.(items := r.items)
  {
    if other.None? then s else s.(items := s.items + other.value.items)
  }

  /** remove(index): the stack without the item at index; out of range is an
      error. */
  function Remove(s: Stack, index: int): (r: Option<Stack>)
    ensures r.Some? <==> 0 <= index < |s.items|
    ensures r.Some? ==>
      && |r.value.items| == |s.items| - 1
      && r.value.items[..index] == s.items[..index]
      && r.value.items[index..] == s.items[index + 1..]
      && r.value == s.(items := r.value.items)
  {
    if 0 <= index < |s.items| then Some(s.(items := s.items[..index] + s.items[index + 1..])) else None
  }

  /** substack(start, end): moves end - start items, each taken at index
      start, onto a fresh stack from getNew. Taking at an index the stack no
      longer has is an error. */
  method Substack(s: Stack, start: int, end: int) returns (r: Option<(Stack, Stack)>)
    ensures r.Some? <==> end <= start || (0 <= start && end <= |s.items|)
    ensures r.Some? && end <= start ==> r.value == (GetNew(s), s)
    ensures r.Some? && start < end ==>
      && r.value.0 == GetNew(s).(items := s.items[start..end])
      && r.value.1 == s.(items := s.items[..start] + s.items[end..])
  {
    var sub := GetNew(s);
    var rest := s;
    var i := 0;
    while i < end - start
      invariant 0 <= i && (start < end ==> i <= end - start)
      invariant i > 0 ==> start < end && 0 <= start && start + i <= |s.items|
      invariant sub == GetNew(s).(items := if i == 0 then [] else s.items[start..start + i])
      invariant rest == s.(items := if i == 0 then s.items else s.items[..start] + s.items[start + i..])
    {
      if !(0 <= start < |rest.items|) {
        return None;
      }
      var x := rest.items[start];
      assert x == s.items[start + i];
      sub := sub.(items := sub.items + [x]);
      assert s.items[start..start + i] + [s.items[start + i]] == s.items[start..start + i + 1];
      rest := rest.(items := rest.items[..start] + rest.items[start + 1..]);
      i := i + 1;
    }
    return Some((sub, rest));
  }

  /** Putting a top segment taken by substack back with addAll restores the
      items. */
  lemma SubstackAddAll(s: Stack, start: nat)
    requires start <= |s.items|
    ensures var sub := GetNew(s).(items := s.items[start..]);
            var rest := s.(items := s.items[..start]);
            AddAll(rest, Some(sub)).items == s.items
  {
    assert s.items[..start] + s.items[start..] == s.items;
  }

  // ----- frames -----

  /** addFrame: the next full push records its top item under label. */
  function AddFrame(s: Stack, frameLabel: int): (r: Stack)
    ensures r.visitedFrame == frameLabel && r == s.(visitedFrame := r.visitedFrame)
  {
    s.(visitedFrame := frameLabel)
  }

  /** List.indexOf: the first index holding x, or -1. */
  function FirstIndex(xs: seq<Item>, x: Item): (r: int)
    ensures -1 <= r < |xs|
    ensures r == -1 <==> x !in xs
    ensures r >= 0 ==> xs[r] == x && forall k :: 0 <= k < r ==> xs[k] != x
  {
    if xs == [] then -1
    else if xs[0] == x then 0
    else var k := FirstIndex(xs[1..], x); if k == -1 then -1 else k + 1
  }

  /** getExpressionIndexOfFrame: where the item recorded for label sits now;
      -1 for a label never recorded or an item no longer on the stack. */
  function GetExpressionIndexOfFrame(s: Stack, frameLabel: int): (r: int)
    ensures frameLabel !in s.frames ==> r == -1
    ensures frameLabel in s.frames ==> r == FirstIndex(s.items, s.frames[frameLabel])
  {
    if frameLabel !in s.frames then -1 else FirstIndex(s.items, s.frames[frameLabel])
  }

  // ----- the improve pass -----

  /** An item the improve pass never acts on at its own position. */
  predicate Inert(x: Item) {
    !x.expr.node.Unary? && !x.expr.node.Monitor?
  }

  /** The improve pass passes over the item at index k: it is inert, or it
      is a monitor that no try/catch node directly follows (only the newer
      revision, folds, ever folds such a pair). */
  predicate Passive(items: seq<Item>, k: nat, folds: bool)
    requires k < |items|
  {
    || Inert(items[k])
    || (items[k].expr.node.Monitor? && !(folds && k + 1 < |items| && items[k + 1].expr.node.TryCatch?))
  }

  /** Every item from index from on is passed over, so a pass from there
      changes nothing. */
  predicate Settled(items: seq<Item>, from: nat, folds: bool) {
    forall k :: from <= k < |items| ==> Passive(items, k, folds)
  }

  /** Dropping items from the top keeps the rest passed over. */
  lemma SettledPrefix(items: seq<Item>, m: nat, from: nat, folds: bool)
    requires m <= |items| && Settled(items, from, folds)
    ensures Settled(items[..m], from, folds)
  {
    forall k | from <= k < m ensures Passive(items[..m], k, folds) {
      assert Passive(items, k, folds);
      if k + 1 < m {
        assert items[..m][k + 1] == items[k + 1];
      }
    }
  }

  /** Items appended on top leave the ones below passed over, unless a
      try/catch node lands directly on a monitor the pass still reaches. */
  lemma PassiveBelow(items: seq<Item>, tail: seq<Item>, from: nat, folds: bool)
    requires Settled(items, from, folds)
    requires tail != [] && folds && from < |items| && items[|items| - 1].expr.node.Monitor? ==> !tail[0].expr.node.TryCatch?
    ensures forall k :: from <= k < |items| ==> Passive(items + tail, k, folds)
  {
    var xs := items + tail;
    forall k | from <= k < |items| ensures Passive(xs, k, folds) {
      assert Passive(items, k, folds);
      assert xs[k] == items[k];
      if k + 1 < |items| {
        assert xs[k + 1] == items[k + 1];
      } else if tail != [] {
        assert xs[k + 1] == tail[0];
      }
    }
  }

  /** The scan position the pass resumes from after a postfix unary at index
      i deleted the entry below it. The source resumes at i - 1, where the
      unary itself now sits (asWritten); resuming at i, just past the unary,
      is the corrected rule. */
  function PostfixResume(i: nat, asWritten: bool): nat
    requires i >= 1
  {
    if asWritten then i - 1 else i
  }

  /** improveStack scanning from index i: a postfix unary deletes the entry
      below it, a prefix unary deletes the entry above it when there is one,
      and in the newer revision (folds) a monitor followed by a try/catch node
      adopts its try stack and the try/catch node is deleted. The scan index
      advances by one after every step, a deletion included. The result is the
      items and the new resume position; None is the index error of a postfix
      unary at the bottom. */
  function Improve(items: seq<Item>, i: nat, last: nat, folds: bool, asWritten: bool): (r: Option<(seq<Item>, nat)>)
    ensures Settled(items, i, folds) ==> r == Some((items, last))
    ensures r.Some? ==> |r.value.0| <= |items| && (|items| > 0 ==> |r.value.0| > 0)
    decreases |items| - i
  {
    if i >= |items| then Some((items, last))
    else
      var x := items[i].expr;
      if x.node.Unary? then
        assert !Passive(items, i, folds);
        if x.node.postfix then
          if i == 0 then None
          else Improve(items[..i - 1] + items[i..], i + 1, PostfixResume(i, asWritten), folds, asWritten)
        else if i + 1 < |items| then
          Improve(items[..i + 1] + items[i + 2..], i + 1, i + 1, folds, asWritten)
        else Improve(items, i + 1, last, folds, asWritten)
      else if folds && x.node.Monitor? && i + 1 < |items| && items[i + 1].expr.node.TryCatch? then
        assert !Passive(items, i, folds);
        var m := items[i].(expr := SetSynchronizedBlock(x, items[i + 1].expr));
        Improve(items[..i] + [m] + items[i + 2..], i + 1, i + 1, folds, asWritten)
      else Improve(items, i + 1, last, folds, asWritten)
  }

  /** Scanning over items the pass passes over changes nothing. */
  lemma {:induction false} ImproveSkips(items: seq<Item>, i: nat, j: nat, last: nat, folds: bool, asWritten: bool)
    requires i <= j <= |items|
    requires forall k :: i <= k < j ==> Passive(items, k, folds)
    ensures Improve(items, i, last, folds, asWritten) == Improve(items, j, last, folds, asWritten)
    decreases j - i
  {
    if i < j {
      assert Passive(items, i, folds);
      ImproveSkips(items, i + 1, j, last, folds, asWritten);
    }
  }

  /** Pushing a postfix unary onto a stack settled from the cursor deletes
      exactly the entry below it (the load it increments). */
  lemma ImprovePostfixPush(items: seq<Item>, u: Item, last: nat, folds: bool, asWritten: bool)
    requires |items| >= 1 && last <= |items| && Settled(items, last, folds)
    requires u.expr.node.Unary? && u.expr.node.postfix
    ensures var n := |items|;
      Improve(items + [u], last, last, folds, asWritten)
        == Some((items[..n - 1] + [u], PostfixResume(n, asWritten)))
  {
    var n := |items|;
    var xs := items + [u];
    PassiveBelow(items, [u], last, folds);
    ImproveSkips(xs, last, n, last, folds, asWritten);
    assert xs[..n - 1] + xs[n..] == items[..n - 1] + [u];
  }

  /** Pushing a prefix unary onto a stack settled from the cursor changes
      nothing yet; pushing any inert item after it deletes that item. */
  lemma ImprovePrefixPush(items: seq<Item>, u: Item, x: Item, last: nat, folds: bool, asWritten: bool)
    requires last <= |items| && Settled(items, last, folds)
    requires u.expr.node.Unary? && !u.expr.node.postfix && Inert(x)
    ensures Improve(items + [u], last, last, folds, asWritten) == Some((items + [u], last))
    ensures var n := |items|;
      Improve(items + [u] + [x], last, last, folds, asWritten) == Some((items + [u], n + 1))
  {
    var n := |items|;
    PassiveBelow(items, [u], last, folds);
    ImproveSkips(items + [u], last, n, last, folds, asWritten);
    var ys := items + [u] + [x];
    PassiveBelow(items, [u, x], last, folds);
    assert ys == items + [u, x];
    ImproveSkips(ys, last, n, last, folds, asWritten);
    assert ys[..n + 1] + ys[n + 2..] == items + [u];
  }

  /** The source as written: after a postfix unary folded its load, the next
      push of any inert item scans from the unary again and deletes one more
      entry below it, an entry unrelated to the increment. */
  lemma PostfixRevisitAsWritten(items: seq<Item>, u: Item, x: Item, folds: bool)
    requires |items| >= 2
    requires u.expr.node.Unary? && u.expr.node.postfix && Inert(x)
    ensures var n := |items|;
      Improve(items[..n - 1] + [u] + [x], n - 1, n - 1, folds, true)
        == Some((items[..n - 2] + [u] + [x], n - 2))
  {
    var n := |items|;
    var ys := items[..n - 1] + [u] + [x];
    assert ys[..n - 2] + ys[n - 1..] == items[..n - 2] + [u] + [x];
  }

  /** A concrete instance: `f(a, i++, j)` compiles to load a, load i, iinc i,
      load j. After the increment's postfix node folds "load i", pushing
      "load j" also deletes "load a". */
  lemma PostfixRevisitExample(a: Item, loadI: Item, u: Item, loadJ: Item)
    requires Inert(a) && Inert(loadI) && Inert(loadJ)
    requires u.expr.node.Unary? && u.expr.node.postfix
    ensures Improve([a, loadI] + [u], 0, 0, true, true) == Some(([a, u], 1))
    ensures Improve([a, u] + [loadJ], 1, 1, true, true) == Some(([u, loadJ], 0))
  {
    assert Passive([a, loadI], 0, true) && Passive([a, loadI], 1, true);
    ImprovePostfixPush([a, loadI], u, 0, true, true);
    assert [a, loadI][..1] + [u] == [a, u];
    PostfixRevisitAsWritten([a, loadI], u, loadJ, true);
    assert [a, loadI][..1] + [u] + [loadJ] == [a, u] + [loadJ];
    assert [a, loadI][..0] + [u] + [loadJ] == [u, loadJ];
  }

  /** The corrected rule: once a postfix unary has folded its load, later
      inert pushes delete nothing. */
  lemma PostfixFoldsOnce(items: seq<Item>, u: Item, x: Item, last: nat, folds: bool)
    requires |items| >= 1 && last <= |items| && Settled(items, last, folds)
    requires u.expr.node.Unary? && u.expr.node.postfix && Inert(x)
    ensures var n := |items|;
      var folded := items[..n - 1] + [u];
      && Improve(items + [u], last, last, folds, false) == Some((folded, n))
      && Improve(folded + [x], n, n, folds, false) == Some((folded + [x], n))
  {
    ImprovePostfixPush(items, u, last, folds, false);
  }

  /** A monitor on top followed by a pushed try/catch node takes its try stack,
      and the try/catch node leaves the stack. */
  lemma ImproveMonitorFold(items: seq<Item>, t: Item, last: nat, asWritten: bool)
    requires |items| >= 1 && last < |items| && Settled(items[..|items| - 1], last, true)
    requires items[|items| - 1].expr.node.Monitor? && t.expr.node.TryCatch?
    ensures var n := |items|;
      var m := items[n - 1].(expr := SetSynchronizedBlock(items[n - 1].expr, t.expr));
      Improve(items + [t], last, last, true, asWritten) == Some((items[..n - 1] + [m], n))
  {
    var n := |items|;
    var xs := items + [t];
    PassiveBelow(items[..n - 1], [items[n - 1], t], last, true);
    assert xs == items[..n - 1] + [items[n - 1], t];
    ImproveSkips(xs, last, n - 1, last, true, asWritten);
    var m := items[n - 1].(expr := SetSynchronizedBlock(items[n - 1].expr, t.expr));
    assert xs[..n - 1] + [m] + xs[n + 1..] == items[..n - 1] + [m];
  }

  // ----- push -----

  /** push(e): stamp the current line on e, let e take its operands, append
      it with the current label and line, run the improve pass (resuming
      after a postfix unary as written or by the corrected rule), and, when a
      frame is pending, record the new top under it. None is the index error
      of the improve pass. */
  function Push(s: Stack, e: Expr, asWritten: bool): (r: Option<Stack>)
    ensures r.Some? ==> 1 <= |r.value.items| <= |s.items| + 1
    ensures r.Some? ==> r.value.lineNum == s.lineNum && r.value.curLabel == s.curLabel
    ensures r.Some? ==> r.value.visitedFrame == NOT_SET
    ensures r.Some? && s.visitedFrame != NOT_SET ==>
      r.value.frames == s.frames[s.visitedFrame := r.value.items[|r.value.items| - 1]]
    ensures r.Some? && s.visitedFrame == NOT_SET ==> r.value.frames == s.frames
  {
    var (e1, below) := Prepare(SetLine(e, s.lineNum), s.items);
    assert |below| <= |s.items|;
    var pushed := below + [Item(e1, s.curLabel, s.lineNum)];
    match Improve(pushed, s.lastImprovement, s.lastImprovement, true, asWritten)
    case None => None
    case Some((items, last)) =>
      var frames := if s.visitedFrame != NOT_SET then s.frames[s.visitedFrame := items[|items| - 1]] else s.frames;
      Some(s.(items := items, lastImprovement := last, visitedFrame := NOT_SET, frames := frames))
  }

  /** What prepareForStack leaves below a pushed node is a bottom part of the
      stack. */
  lemma PrepareKeepsBottom(e: Expr, items: seq<Item>)
    ensures var below := Prepare(e, items).1;
      |below| <= |items| && below == items[..|below|]
  {
  }

  /** Pushing a node other than a unary onto a stack settled from its
      cursor: the node takes its operands (Expr.Prepare) and is appended
      stamped with the current label and line; the improve pass acts on
      nothing, so the cursor stays and the stack stays settled, in either
      revision of the resume rule. The one exception, a try/catch node
      landing on a monitor the pass still reaches, is ImproveMonitorFold. A
      node that takes no operands is appended to the stack as it was. */
  lemma PushAppendsOne(s: Stack, e: Expr, asWritten: bool)
    requires Settled(s.items, s.lastImprovement, true)
    requires !e.node.Unary?
    requires e.node.TryCatch? && s.lastImprovement < |s.items| ==> !s.items[|s.items| - 1].expr.node.Monitor?
    ensures var p := Prepare(SetLine(e, s.lineNum), s.items);
      var t := Push(s, e, asWritten);
      && t.Some?
      && t.value.items == p.1 + [Item(p.0, s.curLabel, s.lineNum)]
      && t.value.lastImprovement == s.lastImprovement
      && Settled(t.value.items, s.lastImprovement, true)
    ensures !(e.node.Monitor? || e.node.InstanceOf? || e.node.Lambda?) ==>
      Push(s, e, asWritten).value.items == s.items + [Item(SetLine(e, s.lineNum), s.curLabel, s.lineNum)]
  {
    var (e1, below) := Prepare(SetLine(e, s.lineNum), s.items);
    PrepareKeepsBottom(SetLine(e, s.lineNum), s.items);
    SettledPrefix(s.items, |below|, s.lastImprovement, true);
    var x := Item(e1, s.curLabel, s.lineNum);
    var pushed := below + [x];
    PassiveBelow(below, [x], s.lastImprovement, true);
    assert Settled(pushed, s.lastImprovement, true) by {
      forall k | s.lastImprovement <= k < |pushed| ensures Passive(pushed, k, true) {
        if k == |below| {
          assert pushed[k] == x;
        }
      }
    }
  }

  /** Pushing a postfix unary onto a non-empty stack settled from a cursor
      that lies within it replaces the entry below the unary (the load it
      increments). As written the cursor then rests on the unary, so the
      stack is no longer settled; by the corrected rule it rests just past
      the unary and the stack is settled. */
  lemma PushPostfix(s: Stack, e: Expr, asWritten: bool)
    requires Settled(s.items, s.lastImprovement, true) && s.lastImprovement <= |s.items| && s.items != []
    requires e.node.Unary? && e.node.postfix
    ensures var n := |s.items|;
      var t := Push(s, e, asWritten);
      && t.Some?
      && t.value.items == s.items[..n - 1] + [Item(SetLine(e, s.lineNum), s.curLabel, s.lineNum)]
      && t.value.lastImprovement == (if asWritten then n - 1 else n)
      && (Settled(t.value.items, t.value.lastImprovement, true) <==> !asWritten)
  {
    var n := |s.items|;
    var u := Item(SetLine(e, s.lineNum), s.curLabel, s.lineNum);
    ImprovePostfixPush(s.items, u, s.lastImprovement, true, asWritten);
    var t := Push(s, e, asWritten).value;
    if asWritten {
      assert t.items[n - 1] == u && !Passive(t.items, n - 1, true);
    }
  }

  /** A postfix unary pushed onto an empty stack with the cursor at the
      bottom has no entry below it: the index error. */
  lemma PushPostfixEmpty(s: Stack, e: Expr, asWritten: bool)
    requires s.items == [] && s.lastImprovement == 0
    requires e.node.Unary? && e.node.postfix
    ensures Push(s, e, asWritten).None?
  {
  }

  /** A prefix unary pushed onto a stack settled from a cursor within it is
      appended and left pending; the next push of a node that takes no
      operands and is not a unary is swallowed by it (that is the load it
      increments), after which the cursor lies past the unary and the stack
      is settled again. */
  lemma PushPrefix(s: Stack, e: Expr, x: Expr, asWritten: bool)
    requires Settled(s.items, s.lastImprovement, true) && s.lastImprovement <= |s.items|
    requires e.node.Unary? && !e.node.postfix
    requires !(x.node.Unary? || x.node.Monitor? || x.node.InstanceOf? || x.node.Lambda?)
    ensures var n := |s.items|;
      var u := Item(SetLine(e, s.lineNum), s.curLabel, s.lineNum);
      var t := Push(s, e, asWritten);
      && t.Some? && t.value.items == s.items + [u] && t.value.lastImprovement == s.lastImprovement
      && Push(t.value, x, asWritten).Some?
      && Push(t.value, x, asWritten).value.items == s.items + [u]
      && Push(t.value, x, asWritten).value.lastImprovement == n + 1
      && Settled(Push(t.value, x, asWritten).value.items, n + 1, true)
  {
    var u := Item(SetLine(e, s.lineNum), s.curLabel, s.lineNum);
    var y := Item(SetLine(x, s.lineNum), s.curLabel, s.lineNum);
    ImprovePrefixPush(s.items, u, y, s.lastImprovement, true, asWritten);
  }

  /** After addFrame(l), the next push records its top item, and
      getExpressionIndexOfFrame(l) finds an index holding that item; a label
      never recorded gives -1. */
  lemma FrameRecorded(s: Stack, l: int, e: Expr, asWritten: bool)
    requires l != NOT_SET
    requires Push(AddFrame(s, l), e, asWritten).Some?
    ensures var t := Push(AddFrame(s, l), e, asWritten).value;
      var k := GetExpressionIndexOfFrame(t, l);
      0 <= k < |t.items| && t.items[k] == t.items[|t.items| - 1]
    ensures forall m :: m !in s.frames && m != l ==> GetExpressionIndexOfFrame(Push(AddFrame(s, l), e, asWritten).value, m) == -1
  {
    var t := Push(AddFrame(s, l), e, asWritten).value;
    assert t.items[|t.items| - 1] in t.items;
  }

  // ----- the older revision -----

  /** The older push: prepare, append with the current label and line, and
      the improve pass without monitor folding (resuming after a postfix
      unary as written or by the corrected rule); no line stamp, no frames. */
  function LegacyPush(s: Stack, e: Expr, asWritten: bool): (r: Option<Stack>)
    ensures r.Some? ==> 1 <= |r.value.items| <= |s.items| + 1
    ensures r.Some? ==> r.value == s.(items := r.value.items, lastImprovement := r.value.lastImprovement)
  {
    var (e1, below) := Prepare(e, s.items);
    assert |below| <= |s.items|;
    match Improve(below + [Item(e1, s.curLabel, s.lineNum)], s.lastImprovement, s.lastImprovement, false, asWritten)
    case None => None
    case Some((items, last)) => Some(s.(items := items, lastImprovement := last))
  }

  /** The older push of a node other than a unary onto a stack settled from
      its cursor: the node takes its operands and is appended stamped with
      the current label and line, and nothing else changes. Monitors are
      never folded here, so no node is an exception. */
  lemma LegacyPushAppendsOne(s: Stack, e: Expr, asWritten: bool)
    requires Settled(s.items, s.lastImprovement, false)
    requires !e.node.Unary?
    ensures var p := Prepare(e, s.items);
      var t := LegacyPush(s, e, asWritten);
      && t == Some(s.(items := p.1 + [Item(p.0, s.curLabel, s.lineNum)]))
      && Settled(t.value.items, s.lastImprovement, false)
    ensures !(e.node.Monitor? || e.node.InstanceOf? || e.node.Lambda?) ==>
      LegacyPush(s, e, asWritten) == Some(s.(items := s.items + [Item(e, s.curLabel, s.lineNum)]))
  {
    var (e1, below) := Prepare(e, s.items);
    PrepareKeepsBottom(e, s.items);
    SettledPrefix(s.items, |below|, s.lastImprovement, false);
    var x := Item(e1, s.curLabel, s.lineNum);
    var pushed := below + [x];
    PassiveBelow(below, [x], s.lastImprovement, false);
    assert Settled(pushed, s.lastImprovement, false) by {
      forall k | s.lastImprovement <= k < |pushed| ensures Passive(pushed, k, false) {
        if k == |below| {
          assert pushed[k] == x;
        }
      }
    }
  }

  /** The older push of a postfix unary: the same replacement of the load
      below it and the same two resume rules as the newer push. */
  lemma LegacyPushPostfix(s: Stack, e: Expr, asWritten: bool)
    requires Settled(s.items, s.lastImprovement, false) && s.lastImprovement <= |s.items| && s.items != []
    requires e.node.Unary? && e.node.postfix
    ensures var n := |s.items|;
      LegacyPush(s, e, asWritten)
        == Some(s.(items := s.items[..n - 1] + [Item(e, s.curLabel, s.lineNum)],
                   lastImprovement := if asWritten then n - 1 else n))
  {
    ImprovePostfixPush(s.items, Item(e, s.curLabel, s.lineNum), s.lastImprovement, false, asWritten);
  }

  /** addLabel: the current label becomes the registry's id for l. */
  function AddLabel(s: Stack, reg: Registry, l: Label): (r: (Stack, Registry))
    ensures r.0 == s.(curLabel := r.0.curLabel) && r.1 == GetLabelId(reg, l).0
    ensures l in r.1 && r.0.curLabel == r.1[l]
    ensures l in reg ==> r.0.curLabel == reg[l]
  {
    var (reg1, id) := GetLabelId(reg, l);
    (s.(curLabel := id), reg1)
  }

  /** clear: no items remain, nothing else changes. */
  function Clear(s: Stack): (r: Stack)
    ensures IsEmpty(r) && r == s.(items := [])
  {
    s.(items := [])
  }

  predicate IsEmpty(s: Stack) {
    |s.items| == 0
  }

  /** Popping an empty stack gives null and keeps it empty. */
  lemma PopEmpty(s: Stack)
    requires IsEmpty(s)
    ensures Pop(s) == (None, s) && Peek(s).None?
  {
  }
}
