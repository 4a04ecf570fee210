/** Exception-handler regions: the bookkeeping record of one protected
    range (TryCatchItem), the try/catch node built from it (TryExpression and
    its CatchExpression) and the try/catch statement that renders it
    (TryCatchStatement). */
module TryCatch {

  import opened Wrappers
  import opened Values
  import opened Expr
  import Text

  // ----- TryCatchItem -----

  /** A protected range between two label ids, its handler labels in
      discovery order (duplicates kept), the exception type per handler label
      (null for a catch-all), and the try, catch and finally stacks built for
      it. */
  datatype TryCatchItem = TryCatchItem(
    startId: int,
    endId: int,
    locations: seq<int>,
    types: map<int, Option<string>>,
    tryStack: SubStack,
    catchStacks: map<int, SubStack>,
    finallyStack: SubStack)

  /** new TryCatchItem(startId, endId, handlerId, exception) */
  function NewItem(startId: int, endId: int, handlerId: int, exception: Option<string>): (t: TryCatchItem)
    ensures t.startId == startId && t.endId == endId
    ensures t.locations == [handlerId] && t.types == map[handlerId := exception]
    ensures HandlerCount(t) == 1 && CatchBlockCount(t) == 0
    ensures t.tryStack.NullStack? && t.finallyStack.NullStack?
  {
    TryCatchItem(startId, endId, [handlerId], map[handlerId := exception], NullStack, map[], NullStack)
  }

  /** getHandlerCount: the number of distinct handler labels with a type
      entry. */
  function HandlerCount(t: TryCatchItem): nat {
    |t.types|
  }

  /** getCatchBlockCount: the number of handler ids with a stored block. */
  function CatchBlockCount(t: TryCatchItem): nat {
    |t.catchStacks|
  }

  /** matches: the same protected range, whatever the handlers. */
  predicate Matches(a: TryCatchItem, b: TryCatchItem) {
    a.startId == b.startId && a.endId == b.endId
  }

  /** matches is an equivalence. */
  lemma MatchesEquivalence(a: TryCatchItem, b: TryCatchItem, c: TryCatchItem)
    ensures Matches(a, a)
    ensures Matches(a, b) ==> Matches(b, a)
    ensures Matches(a, b) && Matches(b, c) ==> Matches(a, c)
  {
  }

  /** Items built for the same range match whatever their handlers, and
      adding handlers or blocks never changes what an item matches. */
  lemma MatchesIgnoresHandlers(s: int, e: int, h1: int, x1: Option<string>, h2: int, x2: Option<string>,
                               locs: seq<int>, hs: map<int, Option<string>>)
    ensures Matches(NewItem(s, e, h1, x1), NewItem(s, e, h2, x2))
    ensures Matches(AddHandlers(NewItem(s, e, h1, x1), locs, hs), NewItem(s, e, h2, x2))
  {
  }

  /** isHandlerLabel: a search of the handler-type keys for id. */
  method IsHandlerLabel(t: TryCatchItem, id: int) returns (found: bool)
    ensures found <==> id in t.types
  {
    var keys := t.types.Keys;
    while keys != {}
      invariant keys <= t.types.Keys
      invariant id !in t.types.Keys - keys
      decreases |keys|
    {
      assert (forall x :: x !in keys) ==> keys == {};
      var k :| k in keys;
      if k == id {
        return true;
      }
      keys := keys - {k};
    }
    return false;
  }

  /** addHandlers: the locations are appended as given, duplicates kept; the
      types are merged, a given type replacing a recorded one for the same
      label. */
  function AddHandlers(t: TryCatchItem, locs: seq<int>, handlers: map<int, Option<string>>): (r: TryCatchItem)
    ensures r.locations == t.locations + locs
    ensures r.types.Keys == t.types.Keys + handlers.Keys
    ensures forall h :: h in handlers ==> r.types[h] == handlers[h]
    ensures forall h :: h in t.types && h !in handlers ==> r.types[h] == t.types[h]
    ensures r == t.(locations := r.locations, types := r.types)
  {
    t.(locations := t.locations + locs, types := t.types + handlers)
  }

  /** The handler labels of an item are exactly its recorded locations. */
  predicate Consistent(t: TryCatchItem) {
    t.types.Keys == set h | h in t.locations
  }

  /** Items built by the constructor and extended by addHandlers with
      matching locations and types stay consistent, so getHandlerCount is the
      number of distinct handler locations. */
  lemma HandlerCountDistinct(t: TryCatchItem, locs: seq<int>, handlers: map<int, Option<string>>)
    requires Consistent(t)
    requires handlers.Keys == set h | h in locs
    ensures Consistent(AddHandlers(t, locs, handlers))
    ensures HandlerCount(AddHandlers(t, locs, handlers)) == |set h | h in t.locations + locs|
  {
    var r := AddHandlers(t, locs, handlers);
    assert (set h | h in t.locations + locs) == (set h | h in t.locations) + (set h | h in locs);
    assert |r.types| == |r.types.Keys|;
  }

  /** A freshly built item is consistent. */
  lemma NewItemConsistent(startId: int, endId: int, handlerId: int, exception: Option<string>)
    ensures Consistent(NewItem(startId, endId, handlerId, exception))
  {
    assert (set h | h in [handlerId]) == {handlerId};
  }

  /** addCatchBlock: stores the handler's block, replacing an earlier one. */
  function AddCatchBlock(t: TryCatchItem, handlerId: int, block: SubStack): (r: TryCatchItem)
    ensures r.catchStacks.Keys == t.catchStacks.Keys + {handlerId}
    ensures CatchBlockCount(r) == CatchBlockCount(t) + (if handlerId in t.catchStacks then 0 else 1)
    ensures r == t.(catchStacks := r.catchStacks)
  {
    var r := t.(catchStacks := t.catchStacks[handlerId := block]);
    assert handlerId !in t.catchStacks ==> r.catchStacks.Keys == t.catchStacks.Keys + {handlerId};
    r
  }

  /** getCatchBlock: the stored block, null when none was stored. */
  function GetCatchBlock(t: TryCatchItem, handlerId: int): (r: SubStack)
    ensures handlerId !in t.catchStacks ==> r.NullStack?
  {
    if handlerId in t.catchStacks then t.catchStacks[handlerId] else NullStack
  }

  /** The block read back for a handler is the last one stored for it;
      other handlers' blocks are untouched. */
  lemma CatchBlockRoundTrip(t: TryCatchItem, h: int, block: SubStack, other: int)
    requires other != h
    ensures GetCatchBlock(AddCatchBlock(t, h, block), h) == block
    ensures GetCatchBlock(AddCatchBlock(t, h, block), other) == GetCatchBlock(t, other)
  {
  }

  /** getHandlerType: the recorded type, null when never recorded. */
  function GetHandlerType(t: TryCatchItem, handlerId: int): (r: Option<string>)
    ensures handlerId !in t.types ==> r.None?
    ensures handlerId in t.types ==> r == t.types[handlerId]
  {
    if handlerId in t.types then t.types[handlerId] else None
  }

  // ----- TryExpression -----

  /** The catch of handler label h: the label, the type made from the
      handler's type string (typeOf stands for DataType.getType after
      Util.javaObjectName, which are not part of this model) and the
      handler's block. */
  function CatchOf(t: TryCatchItem, h: int, typeOf: Option<string> -> Option<DataType>): Catch {
    Catch(h, typeOf(GetHandlerType(t, h)), GetCatchBlock(t, h))
  }

  function Catches(t: TryCatchItem, locs: seq<int>, typeOf: Option<string> -> Option<DataType>): (r: seq<Catch>)
    ensures |r| == |locs|
    ensures forall i :: 0 <= i < |locs| ==> r[i] == CatchOf(t, locs[i], typeOf)
  {
    if locs == [] then [] else [CatchOf(t, locs[0], typeOf)] + Catches(t, locs[1..], typeOf)
  }

  /** new TryExpression(item): one catch per handler location, in order, and
      the item's try and finally stacks. The node has no instruction (opcode
      0 here), no type, takes no operands and writes nothing. */
  function MakeTry(t: TryCatchItem, typeOf: Option<string> -> Option<DataType>): (r: Expr)
    ensures r.node.TryCatch?
    ensures r.node.tryStack == t.tryStack && r.node.finallyStack == t.finallyStack
    ensures |r.node.catches| == |t.locations|
    ensures forall i :: 0 <= i < |t.locations| ==>
      && r.node.catches[i].handler == t.locations[i]
      && r.node.catches[i].stack == GetCatchBlock(t, t.locations[i])
      && r.node.catches[i].typ == typeOf(GetHandlerType(t, t.locations[i]))
    ensures GetType(r).None? && Writable(r) && Write(r) == ""
    ensures forall items :: Prepare(r, items) == (r, items)
  {
    Expr(Info(0, None, None, 0), TryCatch(t.tryStack, t.finallyStack, Catches(t, t.locations, typeOf)))
  }

  /** Handlers added for new labels only append catches: the catches built
      before keep their places. */
  lemma AddHandlersExtendsCatches(t: TryCatchItem, locs: seq<int>, handlers: map<int, Option<string>>,
                                  typeOf: Option<string> -> Option<DataType>)
    requires Consistent(t)
    requires forall h :: h in handlers ==> h !in t.types
    ensures var before := MakeTry(t, typeOf).node.catches;
      var after := MakeTry(AddHandlers(t, locs, handlers), typeOf).node.catches;
      |after| == |before| + |locs| && after[..|before|] == before
  {
    var t2 := AddHandlers(t, locs, handlers);
    var before := MakeTry(t, typeOf).node.catches;
    var after := MakeTry(t2, typeOf).node.catches;
    forall i | 0 <= i < |before|
      ensures after[i] == before[i]
    {
      var h := t.locations[i];
      assert t2.locations[i] == h;
      assert h in t.types;
      assert GetHandlerType(t2, h) == GetHandlerType(t, h);
    }
  }

  /** CatchExpression.write: " catch (" + type + ")"; a catch without a type
      cannot render. */
  function WriteCatch(c: Catch): (r: string)
    requires c.typ.Some?
    ensures |r| == |c.typ.value.text| + 9
    ensures r[..8] == " catch (" && r[|r| - 1] == ')'
    ensures r[8..|r| - 1] == c.typ.value.text
  {
    " catch (" + c.typ.value.text + ")"
  }

  /** CatchExpression.getLine: always 0. */
  const CATCH_LINE: int := 0

  // ----- TryCatchStatement -----

  /** A catch statement: the catch node, its line (the catch's, always 0) and
      its block. */
  datatype CatchStatement = CatchStatement(catch: Catch, line: int, block: SubStack)

  /** A try/catch statement: the node it renders, its line, the try block, a
      catch statement per catch and the finally block when there is one. */
  datatype TryStatement = TryStatement(
    node: Expr,
    line: int,
    tryBlock: SubStack,
    catches: seq<CatchStatement>,
    finallyBlock: Option<SubStack>)

  function CatchStatements(cs: seq<Catch>): (r: seq<CatchStatement>)
    ensures |r| == |cs|
    ensures forall i :: 0 <= i < |cs| ==> r[i] == CatchStatement(cs[i], CATCH_LINE, cs[i].stack)
  {
    if cs == [] then [] else [CatchStatement(cs[0], CATCH_LINE, cs[0].stack)] + CatchStatements(cs[1..])
  }

  /** new TryCatchStatement(node, line): a finally block exactly when the
      finally stack is present and not empty, and one catch statement per
      catch, in order. */
  function MakeStatement(e: Expr, line: int): (r: TryStatement)
    requires e.node.TryCatch?
    ensures r.node == e && r.line == line && r.tryBlock == e.node.tryStack
    ensures r.finallyBlock.Some? <==> !e.node.finallyStack.IsEmptyOrNull()
    ensures r.finallyBlock.Some? ==> r.finallyBlock.value == e.node.finallyStack
    ensures |r.catches| == |e.node.catches|
    ensures forall i :: 0 <= i < |r.catches| ==> r.catches[i].catch == e.node.catches[i]
  {
    var fin := if e.node.finallyStack.IsEmptyOrNull() then None else Some(e.node.finallyStack);
    TryStatement(e, line, e.node.tryStack, CatchStatements(e.node.catches), fin)
  }

  /** The line separator of statements. */
  const NL: string := "\n"

  /** Every catch of the statement can render. */
  predicate CatchesWritable(cs: seq<CatchStatement>) {
    forall i :: 0 <= i < |cs| ==> cs[i].catch.typ.Some?
  }

  /** The catch statements rendered in order: each catch node, then its
      block. Blocks render by block(line, stack); BlockStatement and
      StatementCreator are not part of this model. */
  function WriteCatches(cs: seq<CatchStatement>, block: (int, SubStack) -> string): (r: string)
    requires CatchesWritable(cs)
  {
    if cs == [] then ""
    else WriteCatch(cs[0].catch) + block(cs[0].line, cs[0].block) + WriteCatches(cs[1..], block)
  }

  /** Rendering a list of catches is rendering its parts one after the
      other. */
  lemma {:induction false} WriteCatchesAppend(a: seq<CatchStatement>, b: seq<CatchStatement>, block: (int, SubStack) -> string)
    requires CatchesWritable(a) && CatchesWritable(b)
    ensures CatchesWritable(a + b)
    ensures WriteCatches(a + b, block) == WriteCatches(a, block) + WriteCatches(b, block)
  {
    assert CatchesWritable(a + b) by {
      forall i | 0 <= i < |a + b|
        ensures (a + b)[i].catch.typ.Some?
      {
        if i >= |a| {
          assert (a + b)[i] == b[i - |a|];
        }
      }
    }
    if a != [] {
      assert (a + b)[0] == a[0];
      assert (a + b)[1..] == a[1..] + b;
      WriteCatchesAppend(a[1..], b, block);
    } else {
      assert a + b == b;
    }
  }

  /** TryCatchStatement.write: "try" and the try block, the catches in
      order, then " finally", its block and a line break when there is a
      finally block, and only the line break otherwise. */
  function WriteStatement(st: TryStatement, block: (int, SubStack) -> string): (r: string)
    requires CatchesWritable(st.catches)
    ensures Text.IsPrefix("try" + block(st.line, st.tryBlock), r)
    ensures r[|r| - 1] == '\n'
    ensures st.finallyBlock.Some? ==> Text.IsSuffix(" finally" + block(st.line, st.finallyBlock.value) + NL, r)
  {
    var tail := if st.finallyBlock.Some? then " finally" + block(st.line, st.finallyBlock.value) + NL else NL;
    "try" + block(st.line, st.tryBlock) + WriteCatches(st.catches, block) + tail
  }

  /** Rendering one catch statement: the catch node, then its block. */
  lemma WriteOneCatch(c: CatchStatement, block: (int, SubStack) -> string)
    requires c.catch.typ.Some?
    ensures CatchesWritable([c])
    ensures WriteCatches([c], block) == WriteCatch(c.catch) + block(c.line, c.block)
  {
    assert [c][1..] == [];
    assert WriteCatch(c.catch) + block(c.line, c.block) + "" == WriteCatch(c.catch) + block(c.line, c.block);
  }

  /** Any slice of renderable catches is renderable. */
  lemma WritableSlice(cs: seq<CatchStatement>, lo: nat, hi: nat)
    requires CatchesWritable(cs) && lo <= hi <= |cs|
    ensures CatchesWritable(cs[lo..hi])
  {
    forall k | 0 <= k < hi - lo ensures cs[lo..hi][k].catch.typ.Some? {
      assert cs[lo..hi][k] == cs[lo + k];
    }
  }

  /** Catch i of a list renders after the ones before it and before the
      ones after it. */
  lemma WriteCatchesAt(cs: seq<CatchStatement>, block: (int, SubStack) -> string, i: nat)
    requires CatchesWritable(cs) && i < |cs|
    ensures CatchesWritable(cs[..i]) && CatchesWritable(cs[i + 1..])
    ensures WriteCatches(cs, block)
      == WriteCatches(cs[..i], block) + (WriteCatch(cs[i].catch) + block(cs[i].line, cs[i].block)) + WriteCatches(cs[i + 1..], block)
  {
    WritableSlice(cs, 0, i);
    WritableSlice(cs, i, |cs|);
    WritableSlice(cs, i + 1, |cs|);
    var a, bd := cs[..i], cs[i..];
    assert a + bd == cs;
    WriteCatchesAppend(a, bd, block);
    WriteCatchesHead(bd, block);
    assert bd[0] == cs[i] && bd[1..] == cs[i + 1..];
    var wa, c, wd := WriteCatches(a, block), WriteCatch(cs[i].catch) + block(cs[i].line, cs[i].block), WriteCatches(cs[i + 1..], block);
    assert WriteCatches(cs, block) == wa + (c + wd);
    assert wa + (c + wd) == wa + c + wd;
  }

  /** The first catch of a non-empty list is written first. */
  lemma WriteCatchesHead(cs: seq<CatchStatement>, block: (int, SubStack) -> string)
    requires CatchesWritable(cs) && cs != []
    ensures CatchesWritable(cs[1..])
    ensures WriteCatches(cs, block) == (WriteCatch(cs[0].catch) + block(cs[0].line, cs[0].block)) + WriteCatches(cs[1..], block)
  {
    WritableSlice(cs, 1, |cs|);
  }

  /** Where catch i lands in the statement: after the try block and the
      catches before it, and before the catches after it and the finally
      part. */
  lemma WriteStatementOrder(st: TryStatement, block: (int, SubStack) -> string, i: nat)
    requires CatchesWritable(st.catches) && i < |st.catches|
    ensures var cs := st.catches;
      var tail := if st.finallyBlock.Some? then " finally" + block(st.line, st.finallyBlock.value) + NL else NL;
      && CatchesWritable(cs[..i]) && CatchesWritable(cs[i + 1..])
      && WriteStatement(st, block)
           == ("try" + block(st.line, st.tryBlock)) + WriteCatches(cs[..i], block)
              + (WriteCatch(cs[i].catch) + block(cs[i].line, cs[i].block))
              + WriteCatches(cs[i + 1..], block) + tail
  {
    var cs := st.catches;
    WriteCatchesAt(cs, block, i);
    var head := "try" + block(st.line, st.tryBlock);
    var tail := if st.finallyBlock.Some? then " finally" + block(st.line, st.finallyBlock.value) + NL else NL;
    var w1, c, w2 := WriteCatches(cs[..i], block), WriteCatch(cs[i].catch) + block(cs[i].line, cs[i].block), WriteCatches(cs[i + 1..], block);
    var w := WriteCatches(cs, block);
    assert WriteStatement(st, block) == head + w + tail;
    Regroup(head, w, w1, c, w2, tail);
  }

  /** Splitting the middle of a text into three parts. */
  lemma Regroup(head: string, w: string, w1: string, c: string, w2: string, tail: string)
    requires w == w1 + c + w2
    ensures head + w + tail == head + w1 + c + w2 + tail
  {
  }

  /** TryCatchStatement.write as the source runs it: each part is written to
      the writer in turn, the catches one per loop step. The text written is
      the statement's rendering. */
  method StreamStatement(st: TryStatement, block: (int, SubStack) -> string) returns (out: string)
    requires CatchesWritable(st.catches)
    ensures out == WriteStatement(st, block)
  {
    var head := "try" + block(st.line, st.tryBlock);
    out := head;
    var i := 0;
    while i < |st.catches|
      invariant 0 <= i <= |st.catches|
      invariant CatchesWritable(st.catches[..i])
      invariant out == head + WriteCatches(st.catches[..i], block)
    {
      var c := st.catches[i];
      var piece := WriteCatch(c.catch) + block(c.line, c.block);
      StreamStep(st.catches, block, i, head, out);
      out := out + piece;
      i := i + 1;
    }
    var tail := if st.finallyBlock.Some? then " finally" + block(st.line, st.finallyBlock.value) + NL else NL;
    StreamEnd(st, block, out);
    out := out + tail;
  }

  /** One loop step of StreamStatement: writing catch i after the text for
      the catches before it gives the text for the catches up to it. */
  lemma StreamStep(cs: seq<CatchStatement>, block: (int, SubStack) -> string, i: nat, head: string, out: string)
    requires i < |cs| && CatchesWritable(cs) && CatchesWritable(cs[..i])
    requires out == head + WriteCatches(cs[..i], block)
    ensures CatchesWritable(cs[..i + 1])
    ensures out + (WriteCatch(cs[i].catch) + block(cs[i].line, cs[i].block)) == head + WriteCatches(cs[..i + 1], block)
  {
    var c := cs[i];
    var a, b := cs[..i], cs[..i + 1];
    assert a + [c] == b;
    WriteOneCatch(c, block);
    WriteCatchesAppend(a, [c], block);
    var wa, wc := WriteCatches(a, block), WriteCatches([c], block);
    assert WriteCatches(b, block) == wa + wc;
    assert (head + wa) + wc == head + (wa + wc);
  }

  /** The end of StreamStatement: the text for all the catches, followed by
      the finally part or the line break, is the statement's rendering. */
  lemma StreamEnd(st: TryStatement, block: (int, SubStack) -> string, out: string)
    requires CatchesWritable(st.catches)
    requires CatchesWritable(st.catches[..|st.catches|])
    requires out == "try" + block(st.line, st.tryBlock) + WriteCatches(st.catches[..|st.catches|], block)
    ensures var tail := if st.finallyBlock.Some? then " finally" + block(st.line, st.finallyBlock.value) + NL else NL;
      out + tail == WriteStatement(st, block)
  {
    assert st.catches[..|st.catches|] == st.catches;
  }

  /** From a handler record to the statement: one catch statement per
      handler location, in order, each holding that handler's catch (its
      label, its type and its block) at line 0; the finally part exactly when
      the finally stack is present and not empty. The rendering opens with
      "try" and the item's try block and, when there is a finally part, closes
      with " finally", the item's finally block and a line break; where each
      catch lands in between is WriteStatementOrder. */
  lemma StatementFromItem(t: TryCatchItem, typeOf: Option<string> -> Option<DataType>, line: int,
                          block: (int, SubStack) -> string)
    requires forall h :: h in t.locations ==> typeOf(GetHandlerType(t, h)).Some?
    ensures var st := MakeStatement(MakeTry(t, typeOf), line);
      && |st.catches| == |t.locations|
      && (forall i :: 0 <= i < |t.locations| ==>
            st.catches[i] == CatchStatement(CatchOf(t, t.locations[i], typeOf), 0, GetCatchBlock(t, t.locations[i])))
      && CatchesWritable(st.catches)
      && (st.finallyBlock.Some? <==> !t.finallyStack.IsEmptyOrNull())
      && Text.IsPrefix("try" + block(line, t.tryStack), WriteStatement(st, block))
      && (!t.finallyStack.IsEmptyOrNull() ==> Text.IsSuffix(" finally" + block(line, t.finallyStack) + NL, WriteStatement(st, block)))
  {
    var st := MakeStatement(MakeTry(t, typeOf), line);
    forall i | 0 <= i < |st.catches|
      ensures st.catches[i].catch.typ.Some?
    {
      assert t.locations[i] in t.locations;
    }
  }
}
