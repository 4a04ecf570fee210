/** Two handlers of the newer translator: the increment handler (postfix,
    prefix or plain increment) and the method-call handler (constructor or
    method invocation). Each builds one node and pushes it on the active
    stack with the full push. */
module Handlers {

  import opened Wrappers
  import opened Values
  import opened Expr
  import S = Stack
  import Leaves

  const ILOAD: int := 21
  const IINC: int := 132
  const INVOKESPECIAL: int := 183

  /** The node the increment handler builds for IINC slot, incr. prev and
      next are the opcodes of the neighbouring nodes (None at either end of
      the list); the counter is the slot's local, null when there is none.
      After an ILOAD it is a postfix increment; otherwise before an ILOAD a
      prefix one; otherwise the assignment of the int constant increment. */
  function IincNode(locals: map<int, LocalVariable>, slot: int, incr: int,
                    prev: Option<int>, next: Option<int>): (r: Expr)
    ensures var counter := if slot in locals then Some(locals[slot]) else None;
      && r.info.opCode == IINC
      && (prev == Some(ILOAD) ==> r.node == Unary(counter, true) && GetType(r) == Some(INT))
      && (prev != Some(ILOAD) && next == Some(ILOAD) ==> r.node == Unary(counter, false) && GetType(r) == Some(INT))
      && (prev != Some(ILOAD) && next != Some(ILOAD) ==>
            && r.node.Assignment? && r.node.target == counter
            && r.node.right == Leaves.NewPrimary(IINC, IntValue(incr), Some(INT)))
  {
    var counter := if slot in locals then Some(locals[slot]) else None;
    if prev == Some(ILOAD) then Expr(Info(IINC, Some(INT), None, 0), Unary(counter, true))
    else if next == Some(ILOAD) then Expr(Info(IINC, Some(INT), None, 0), Unary(counter, false))
    else Expr(Info(IINC, None, None, 0), Assignment(counter, None, Leaves.NewPrimary(IINC, IntValue(incr), Some(INT))))
  }

  /** IincInsnNodeHandler.handle: one push of that node, with the improve
      pass resuming after a postfix unary as written or by the corrected
      rule. The stack grows by at most the one node, and the current line
      and label are kept. */
  function HandleIinc(s: S.Stack, locals: map<int, LocalVariable>, slot: int, incr: int,
                      prev: Option<int>, next: Option<int>, asWritten: bool): (r: Option<S.Stack>)
    ensures r.Some? ==> 1 <= |r.value.items| <= |s.items| + 1
    ensures r.Some? ==> r.value.lineNum == s.lineNum && r.value.curLabel == s.curLabel
  {
    S.Push(s, IincNode(locals, slot, incr, prev, next), asWritten)
  }

  /** What one increment does to a stack settled from an improve cursor
      within it, in either edition: a postfix increment takes the place of
      the load below it, and the cursor rests on it as written or just past
      it by the corrected rule; a prefix increment or a plain increment is
      appended as exactly one item and the cursor stays. Only after the
      postfix increment as written, and after a prefix increment, which
      waits for its load, is the stack left unsettled. */
  lemma IincPushesOne(s: S.Stack, locals: map<int, LocalVariable>, slot: int, incr: int,
                      prev: Option<int>, next: Option<int>, asWritten: bool)
    requires S.Settled(s.items, s.lastImprovement, true) && s.lastImprovement <= |s.items|
    requires prev == Some(ILOAD) ==> s.items != []
    ensures var e := IincNode(locals, slot, incr, prev, next);
      var top := Item(SetLine(e, s.lineNum), s.curLabel, s.lineNum);
      var n := |s.items|;
      && HandleIinc(s, locals, slot, incr, prev, next, asWritten).Some?
      && var t := HandleIinc(s, locals, slot, incr, prev, next, asWritten).value;
         && (prev == Some(ILOAD) ==> t.items == s.items[..n - 1] + [top])
         && (prev == Some(ILOAD) ==> t.lastImprovement == if asWritten then n - 1 else n)
         && (prev != Some(ILOAD) ==> t.items == s.items + [top] && t.lastImprovement == s.lastImprovement)
         && (S.Settled(t.items, t.lastImprovement, true) <==> !(prev == Some(ILOAD) && asWritten) && !(prev != Some(ILOAD) && next == Some(ILOAD)))
  {
    var e := IincNode(locals, slot, incr, prev, next);
    var top := Item(SetLine(e, s.lineNum), s.curLabel, s.lineNum);
    var n := |s.items|;
    if prev == Some(ILOAD) {
      S.PushPostfix(s, e, asWritten);
    } else if next == Some(ILOAD) {
      var x := Leaves.NewPrimary(0, NullValue, None);
      S.PushPrefix(s, e, x, asWritten);
      var t := HandleIinc(s, locals, slot, incr, prev, next, asWritten).value;
      assert t.items[n] == top && !S.Passive(t.items, n, true);
    } else {
      S.PushAppendsOne(s, e, asWritten);
    }
  }

  /** The node the method-call handler builds: a constructor invocation
      exactly for INVOKESPECIAL of a name the constructor test accepts
      (Util.isConstructor, not part of this model, is passed in), otherwise a
      method invocation. Opcode, name, descriptor and owner pass through;
      only a constructor invocation receives the enclosing class. */
  function InvocationNode(op: int, name: string, desc: string, owner: string, caller: string,
                          enclosing: DataType, isConstructor: string -> bool): (r: Expr)
    ensures r.node.Invocation? && r.info.opCode == op
    ensures r.node.isConstructor <==> op == INVOKESPECIAL && isConstructor(name)
    ensures r.node.name == name && r.node.desc == desc && r.node.ownerName == owner && r.node.caller == caller
    ensures r.node.enclosing == if r.node.isConstructor then Some(enclosing) else None
    ensures forall items :: Prepare(r, items) == (r, items)
  {
    var ctor := op == INVOKESPECIAL && isConstructor(name);
    Expr(Info(op, None, None, 0), Invocation(ctor, name, desc, owner, caller, if ctor then Some(enclosing) else None))
  }

  /** MethodInsnNodeHandler.handle: one push of that node, in either
      edition of the improve pass. The stack grows by at most the one node,
      and the current line and label are kept. */
  function HandleMethod(s: S.Stack, op: int, name: string, desc: string, owner: string, caller: string,
                        enclosing: DataType, isConstructor: string -> bool, asWritten: bool): (r: Option<S.Stack>)
    ensures r.Some? ==> 1 <= |r.value.items| <= |s.items| + 1
    ensures r.Some? ==> r.value.lineNum == s.lineNum && r.value.curLabel == s.curLabel
  {
    S.Push(s, InvocationNode(op, name, desc, owner, caller, enclosing, isConstructor), asWritten)
  }

  /** A method call on a stack settled from its improve cursor, in either
      edition, appends exactly one item, the invocation stamped with the
      current label and line; the cursor stays, the stack stays settled, and
      a pending frame records the invocation. */
  lemma MethodPushesOne(s: S.Stack, op: int, name: string, desc: string, owner: string, caller: string,
                        enclosing: DataType, isConstructor: string -> bool, asWritten: bool)
    requires S.Settled(s.items, s.lastImprovement, true)
    ensures var e := InvocationNode(op, name, desc, owner, caller, enclosing, isConstructor);
      var top := Item(SetLine(e, s.lineNum), s.curLabel, s.lineNum);
      var t := HandleMethod(s, op, name, desc, owner, caller, enclosing, isConstructor, asWritten);
      && t == Some(s.(items := s.items + [top],
                      visitedFrame := NOT_SET,
                      frames := if s.visitedFrame != NOT_SET then s.frames[s.visitedFrame := top] else s.frames))
      && S.Settled(t.value.items, s.lastImprovement, true)
  {
    var e := InvocationNode(op, name, desc, owner, caller, enclosing, isConstructor);
    S.PushAppendsOne(s, e, asWritten);
  }
}
