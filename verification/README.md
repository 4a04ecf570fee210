# thesis-disassembler core, modelled in Dafny

This project models the core of thesis-disassembler. The tool reads a
compiled Java class through ASM and prints Java-like source text. The model
covers four parts.

- **The bytecode-to-expression engine.** The expression tree and its leaf
  classes. The operand stack of expressions, with its label bookkeeping and
  its improve pass. The short-circuit logic gates and the ternary. The
  try/catch bookkeeping. The loop enhancer. The older single-pass
  `InstructionTranslator`. The increment and method-call handlers of the
  newer translator.
- **The method header** (`MethodBlock`): modifiers, name, return type,
  arguments seeded from the descriptor or the debug table, and the throws
  clause.
- **The class header** (`TextMaker`): deprecation mark, the modifier table,
  the kind keyword, the name, the superclass and the interfaces.
- **The generic-signature printer** (`DecompilerSignatureVisitor`). Its
  visitor events are driven from a type datatype and compared with an
  independent rendering of that type.

Java objects become immutable values and mutating methods become functions
from one state to the next. Most `null` results and most paths that throw
become `None` of `Wrappers.Option`. Three renderers are the exception:
Expr.Write, TryCatch.WriteCatch and TryCatch.WriteStatement exclude their
throwing inputs by a precondition instead, as listed under "## Left out".
Methods.SplitFrom also returns `None` for a loop that would never end.
Access words are `bv32`, as in the class file.
Each file holds one module:

| file | module | models |
|---|---|---|
| wrappers.dfy | Wrappers | optional values and results |
| text.dfy | Text | decimal printing, joining, searching, first-occurrence removal |
| values.dfy | Values | labels, data types, variables, local variables |
| expr.dfy | Expr | the expression tree, its types and its rendering |
| leaves.dfy | Leaves | constants, variables, lambdas and the other leaf expressions |
| stack.dfy | Stack | both `ExpressionStack` classes |
| logicgate.dfy | LogicGate | `LogicGateExpression`, `TernaryExpression` |
| trycatch.dfy | TryCatch | `TryCatchItem`, `TryExpression`, `CatchExpression`, `TryCatchStatement` |
| loops.dfy | Loops | `LoopEnhancer` |
| translator.dfy | Translator | the older `InstructionTranslator` |
| handlers.dfy | Handlers | `IincInsnNodeHandler`, `MethodInsnNodeHandler` |
| access.dfy | Access | the access and property flags |
| methods.dfy | Methods | `MethodBlock` |
| modifiers.dfy | Modifiers | `TextMaker.appendAccess` |
| classheader.dfy | ClassHeader | `TextMaker.visit` and its helpers |
| signature.dfy | Signature | `DecompilerSignatureVisitor` |

Three parts of the model take an edition switch (`asWritten`, `Layout`,
`Edition`). The as-written edition follows the code line by line. The
corrected one fixes a defect listed under "## Findings". The stack pushes
and the handlers take the resume rule of the improve pass as a parameter,
and their lemmas are stated for both rules. The method header takes the
slot layout as a parameter. The lemmas that state what the signature
printer promises use its corrected edition.

## Model

| member | source | states |
|---|---|---|
| Values.NewVariable | src/com/thesis/Variable.java:12-15 | a variable built without arguments has the UNKNOWN type, no name and no debug type, so it reports no type |
| Values.NamedVariable | src/com/thesis/Variable.java:17-21 | a missing type becomes UNKNOWN; the variable reports a type exactly when the given type is present, has non-empty text and is not UNKNOWN |
| Values.SetType | src/com/thesis/Variable.java:27-37 | only the type changes; hasType afterwards holds exactly when the new type is a known one |
| Values.SetName | src/com/thesis/Variable.java:31-33 | only the name changes, so hasType is unaffected |
| Values.PlainLocal | src/com/thesis/InstructionTranslator.java:182 | a local created for an unseen slot carries the given name and slot, is not an argument and has no debug type |
| Values.DebugLocal | src/com/thesis/InstructionTranslator.java:39 | a local read from debug information keeps its name, type and slot, and its type counts as a debug type |
| Values.NewGlobal | src/com/thesis/GlobalVariable.java:10-13 | owner and name are kept; a given type is kept and a missing one becomes UNKNOWN; the type is never a debug type |
| Values.SetOwner | src/com/thesis/GlobalVariable.java:19-21 | the owner is replaced and the variable part is untouched |
| Values.GlobalToString | src/com/thesis/GlobalVariable.java:23-26 | without an owner the text is the name itself, possibly null; with one it is the owner's print form, then ".", then the name as Java concatenates it ("null" for a missing name) |
| Expr.Neg | src/com/thesis/expression/LogicGateExpression.java:47-52 | the complement of an operator is never the operator itself and swaps AND with OR, as De Morgan's rule needs |
| Expr.NegInvolution | src/com/thesis/expression/LogicGateExpression.java:47-52 | complementing an operator twice gives it back |
| Expr.Negate | src/com/thesis/expression/LogicGateExpression.java:47-52 | a comparison flips its operator and a gate flips its operator (its operands are negated too); the common fields, the jump state and the node class are kept |
| Expr.NegateInvolution | src/com/thesis/expression/LogicGateExpression.java:47-52 | negating any node twice restores it exactly, down through nested gates |
| Expr.SetType | src/com/thesis/expression/PrimaryExpression.java:26-32 | the type field is set; a constant that wraps a variable retypes that variable too, and every other node keeps its node state |
| Expr.SetCastType | src/com/thesis/expression/Expression.java:27-29 | only the cast type changes |
| Expr.SetLine | src/com/thesis/expression/Expression.java:35-37 | only the line changes |
| Expr.SetOpCode | src/com/thesis/expression/Expression.java:39-41 | only the opcode changes |
| Expr.GetType | src/com/thesis/expression/InstanceOfExpression.java:20-23 | an instanceof is boolean, a monitor or a try node has no type, a declaration has its variable's type, a ternary has its condition's type, and every other node has its type field |
| Expr.IsMonitorEnter | src/main/java/com/thesis/expression/MonitorExpression.java:26-28 | a monitor is an enter exactly when its opcode is MONITORENTER (194) |
| Expr.SetSynchronizedBlock | src/main/java/com/thesis/expression/MonitorExpression.java:30-32 | the monitor adopts the try stack of the try node and stays virtual exactly when that stack is null; its object and common fields are kept |
| Expr.PopItems | src/com/thesis/expression/stack/ExpressionStack.java:111-114 | popping an empty stack yields null and no change; otherwise the top node comes off and the rest is unchanged |
| Expr.PopN | src/main/java/com/thesis/expression/LambdaExpression.java:50-57 | popping n entries leaves a prefix of the stack, n entries shorter, or empty when the stack is shorter than n |
| Expr.Prepare | src/main/java/com/thesis/expression/MonitorExpression.java:48-54 | a monitor or instanceof takes the top entry, a dynamic call site takes one entry per argument type, and every other node takes nothing; the node's common fields never change |
| Expr.CastPrefix | src/com/thesis/expression/PrimaryExpression.java:53-55 | the cast prefix is empty exactly when no cast type is set |
| Expr.Write | src/com/thesis/expression/PrimaryExpression.java:35-55 | a constant's text begins with its cast prefix; a try node writes nothing (TryExpression.write is empty), nor does a plain goto |
| Expr.WriteIgnoresLine | src/com/thesis/expression/Expression.java:35-37 | the line set on a node never shows in its text |
| Expr.WriteCast | src/com/thesis/expression/PrimaryExpression.java:53-55 | a cast set on a constant appears as "(", the type, ") " in front of its text; a cast set on any other node leaves its text as it was |
| Leaves.NewPrimary | src/com/thesis/expression/PrimaryExpression.java:16-20 | a constant has the given opcode, value and type, no cast, is not virtual and takes nothing from the stack |
| Leaves.PrimaryWrite | src/com/thesis/expression/PrimaryExpression.java:34-51 | the text is the cast prefix and then the body: "false" exactly for a boolean 0 and "true" otherwise; a string quoted; a class value's print form plus ".class"; any other value's text followed by "F" for float or "L" for long |
| Leaves.PrimarySetType | src/com/thesis/expression/PrimaryExpression.java:26-32 | after setType the constant reports the new type, and a wrapped variable has been retyped with Variable.setType |
| Leaves.NewVarDecl | src/com/thesis/expression/VariableDeclarationExpression.java:14-33 | a declaration has opcode 0, takes its type from the variable, takes nothing from the stack, and renders, when typed, as the type's print form, a space and the name |
| Leaves.VarDeclTypeFollowsVariable | src/com/thesis/expression/VariableDeclarationExpression.java:25-28 | a declaration reports the variable's type even after its own type field is overwritten |
| Leaves.NewInstanceOf | src/com/thesis/expression/InstanceOfExpression.java:15-23 | the class checked against is the type named by the descriptor after javaObjectName, no object is set yet, and the type is boolean |
| Leaves.InstanceOfPrepare | src/com/thesis/expression/InstanceOfExpression.java:25-34 | pushing takes exactly the top entry as the checked object, and the node then renders as that object, " instanceof " and the class |
| Leaves.NewMonitor | src/main/java/com/thesis/expression/MonitorExpression.java:21-45 | a new monitor has no synchronised block, so it is virtual; its type is null; it is an enter exactly when its opcode is MONITORENTER |
| Leaves.MonitorPrepare | src/main/java/com/thesis/expression/MonitorExpression.java:48-59 | pushing takes exactly the top entry as the synchronised object (its right side when it is an assignment), and the monitor renders as that object alone |
| Leaves.GetFindMethod | src/main/java/com/thesis/expression/LambdaExpression.java:109-131 | each handle kind of section 4.4.8 of the Java Virtual Machine Specification maps to its Lookup method, both directions; INVOKEVIRTUAL and INVOKEINTERFACE share findVirtual, and any other tag gives "find" |
| Leaves.BootstrapArgument | src/main/java/com/thesis/expression/LambdaExpression.java:71-84 | a handle becomes a method-handle argument with its find method, a Type becomes a method-type argument of its return class, and anything else becomes its toString |
| Leaves.BootstrapArguments | src/main/java/com/thesis/expression/LambdaExpression.java:71-84 | the converted arguments are in one-to-one correspondence, in order, with the bootstrap arguments |
| Leaves.NewLambda | src/main/java/com/thesis/expression/LambdaExpression.java:28-43 | a call site has opcode INVOKEDYNAMIC, the bootstrap method's owner and name, and the argument list: the lookup placeholder, the quoted name, the descriptor's method type, then every bootstrap argument at position 3 + i |
| Leaves.LambdaPrepare | src/main/java/com/thesis/expression/LambdaExpression.java:50-57 | pushing a call site removes exactly one entry per argument type and keeps the entries below in order |
| Leaves.LambdaWrite | src/main/java/com/thesis/expression/LambdaExpression.java:59-69 | the text is owner, ".", name and the arguments in parentheses joined by ", ", so its length is the arguments' lengths plus two per gap; a string argument is quoted and a class argument is its print form plus ".class" |
| Stack.GetLabelId | src/com/thesis/expression/stack/ExpressionStack.java:162-169 | a known label keeps its id and the registry; an unknown one is registered under the number of labels registered before; no other id changes |
| Stack.GetLabelIdDense | src/com/thesis/expression/stack/ExpressionStack.java:162-169 | registration keeps the ids exactly 0 to the number of labels minus one, adding at most one entry |
| Stack.GetLabelIdMemo | src/com/thesis/expression/stack/ExpressionStack.java:162-169 | asking twice for a label gives the same id and the same registry as asking once |
| Stack.GetLabelIdDistinct | src/com/thesis/expression/stack/ExpressionStack.java:162-169 | two different labels never receive the same id |
| Stack.NewStack | src/com/thesis/expression/stack/ExpressionStack.java:23-28 | a new stack holds no items, no frames and no pending frame |
| Stack.GetNew | src/com/thesis/expression/stack/ExpressionStack.java:30-45 | the copy keeps line, label and improve cursor but starts with no items and no frames |
| Stack.Duplicate | src/com/thesis/expression/stack/ExpressionStack.java:175-179 | the duplicate holds the same items in the same order, with the getNew bookkeeping |
| Stack.Peek | src/com/thesis/expression/stack/ExpressionStack.java:106-109 | null exactly for an empty stack, otherwise the node of the top item |
| Stack.Pop | src/com/thesis/expression/stack/ExpressionStack.java:111-114 | pop returns what peek would and removes the top item; an empty stack is left as it is |
| Stack.RawPush | src/com/thesis/expression/stack/ExpressionStack.java:72-78 | push(e, false) appends one item stamped with the current label and line, and nothing else changes |
| Stack.RawPushPop | src/com/thesis/expression/stack/ExpressionStack.java:72-78 | popping right after push(e, false) returns e and restores the stack |
| Stack.Get | src/com/thesis/expression/stack/ExpressionStack.java:116-118 | the node at a valid index; any other index is an error |
| Stack.Swap | src/com/thesis/expression/stack/ExpressionStack.java:120-125 | the top two items change places and the rest stays; fewer than two items is an error |
| Stack.SwapInvolution | src/com/thesis/expression/stack/ExpressionStack.java:120-125 | swapping twice restores the stack |
| Stack.AddAll | src/com/thesis/expression/stack/ExpressionStack.java:127-136 | null adds nothing; otherwise the other stack's items go on top in their order |
| Stack.Remove | src/com/thesis/expression/stack/ExpressionStack.java:142-144 | the item at the index leaves and the items before and after keep their order; an index out of range is an error |
| Stack.Substack | src/com/thesis/expression/stack/ExpressionStack.java:193-199 | the moved segment becomes a fresh stack, in order, and the original keeps the items around it; an empty range moves nothing, and a range past the top is an error |
| Stack.SubstackAddAll | src/com/thesis/expression/stack/ExpressionStack.java:193-199 | putting a top segment taken by substack back with addAll restores the items |
| Stack.AddFrame | src/com/thesis/expression/stack/ExpressionStack.java:181-183 | only the pending frame label changes |
| Stack.FirstIndex | src/com/thesis/expression/stack/ExpressionStack.java:190 | List.indexOf: -1 exactly when the item is absent, otherwise the first index holding it |
| Stack.GetExpressionIndexOfFrame | src/com/thesis/expression/stack/ExpressionStack.java:185-191 | -1 for a label never recorded; otherwise the current first index of the item recorded for it |
| Stack.Improve | src/com/thesis/expression/stack/ExpressionStack.java:84-104 | over a stack every item of which, from the scan position on, is neither a unary nor a monitor directly followed by a try/catch node, the pass changes nothing and keeps the cursor; in any case it never lengthens the stack and never empties a non-empty one |
| Stack.ImproveSkips | src/com/thesis/expression/stack/ExpressionStack.java:85 | scanning over items that are neither unary nor monitor changes nothing |
| Stack.ImprovePostfixPush | src/com/thesis/expression/stack/ExpressionStack.java:87-90 | pushing a postfix unary deletes exactly the entry below it |
| Stack.ImprovePrefixPush | src/com/thesis/expression/stack/ExpressionStack.java:91-94 | pushing a prefix unary deletes nothing yet; the next pushed entry above it is deleted |
| Stack.ImproveMonitorFold | src/com/thesis/expression/stack/ExpressionStack.java:95-101 | a monitor followed by a pushed try/catch node adopts its try stack and the try/catch node leaves the stack |
| Stack.PostfixRevisitAsWritten | src/com/thesis/expression/stack/ExpressionStack.java:88-90 | as written, the entry pushed after a folded postfix unary makes the pass delete one more entry below the unary |
| Stack.PostfixRevisitExample | src/com/thesis/expression/stack/ExpressionStack.java:88-90 | for the loads of f(a, i++, j), pushing "load j" after the increment also deletes "load a" |
| Stack.PostfixFoldsOnce | src/com/thesis/expression/stack/ExpressionStack.java:88-90 | with the cursor resumed after the unary, a postfix unary folds its load once and later pushes delete nothing |
| Stack.Push | src/com/thesis/expression/stack/ExpressionStack.java:60-70 | under either resume rule, a push leaves at least one item and at most one more than before, keeps line and label, clears the pending frame and records the new top under it when one was pending |
| Stack.PushAppendsOne | src/com/thesis/expression/stack/ExpressionStack.java:60-104 | under either resume rule, a node other than a unary pushed onto a stack the improve pass has nothing to do on (from its cursor) takes its operands and is appended stamped with the current label and line; the cursor stays and the pass still has nothing to do; a node that takes no operands is appended to the items as they were |
| Stack.PushPostfix | src/com/thesis/expression/stack/ExpressionStack.java:60-104 | under either resume rule, a postfix unary pushed onto a non-empty stack the pass has nothing to do on takes the place of the entry below it; the cursor rests on the unary (n - 1) as written and just past it (n) corrected, and the pass has nothing left to do exactly under the corrected rule |
| Stack.PushPostfixEmpty | src/com/thesis/expression/stack/ExpressionStack.java:87-89 | a postfix unary pushed onto an empty stack has no entry below it to remove: the index error |
| Stack.PushPrefix | src/com/thesis/expression/stack/ExpressionStack.java:91-94 | a prefix unary is appended and the cursor stays; the next pushed node that takes no operands is removed by it, after which the cursor lies past the unary and the pass has nothing left to do |
| Stack.FrameRecorded | src/com/thesis/expression/stack/ExpressionStack.java:66-69 | under either resume rule, after addFrame(l) and a push, getExpressionIndexOfFrame(l) finds the pushed top item; other unrecorded labels give -1 |
| Stack.LegacyPush | src/com/thesis/expression/ExpressionStack.java:24-46 | under either resume rule, the older push changes only the items and the improve cursor, leaves at least one item and at most one more than before |
| Stack.LegacyPushAppendsOne | src/com/thesis/expression/ExpressionStack.java:24-46 | under either resume rule, the older push of a node other than a unary onto a stack the pass has nothing to do on appends the node after the items it leaves below it, stamped with the current label and line, and changes nothing else, the cursor included; a node that takes no operands is appended to the items as they were |
| Stack.LegacyPushPostfix | src/com/thesis/expression/ExpressionStack.java:31-46 | the older push of a postfix unary onto a non-empty stack the pass has nothing to do on replaces the entry below it, resumes at n - 1 as written or n corrected, and changes nothing else |
| Stack.AddLabel | src/com/thesis/expression/ExpressionStack.java:81-83 | the current label becomes the registry's id for the label, the one it already had when known |
| Stack.Clear | src/com/thesis/expression/ExpressionStack.java:69-71 | no items remain and nothing else changes |
| Stack.PopEmpty | src/com/thesis/expression/ExpressionStack.java:53-56 | popping an empty stack gives null and leaves it empty |
| LogicGate.AppendBranch | src/com/thesis/expression/LogicGateExpression.java:32-41 | the merged branch holds the left items followed by the right ones, and is null only when both were null |
| LogicGate.UpdateBranches | src/com/thesis/expression/LogicGateExpression.java:31-44 | the left operand's then- and else-branches become its own items followed by the right operand's, and nothing else of its jump changes |
| LogicGate.GateOperand | src/com/thesis/expression/LogicGateExpression.java:20-25 | AND exactly when both operands jump to the same destination, OR exactly when they do not |
| LogicGate.MakeGate | src/com/thesis/expression/LogicGateExpression.java:14-29 | the gate is boolean with opcode 0 and the right operand's destination; its operator follows the destinations; the left operand, after taking over both branches, is negated exactly for OR; branches are shared with it; then-start and else-end come from the right, the start frame from the left; pushing it takes nothing |
| LogicGate.NegateHolds | src/com/thesis/expression/LogicGateExpression.java:47-51 | for comparisons joined by AND and OR, negate is logical negation: the complemented comparison for a leaf and De Morgan's laws for a gate |
| LogicGate.GateHolds | src/com/thesis/expression/LogicGateExpression.java:20-25 | read as a condition, the gate is "left and right" when the operands share a destination and "not left, or right" otherwise |
| LogicGate.MakeTernary | src/com/thesis/expression/TernaryExpression.java:12-25 | the ternary keeps the condition, its opcode and its type, jumps to the condition's conditional destination, and takes nothing when pushed |
| LogicGate.TernaryWrite | src/com/thesis/expression/TernaryExpression.java:27-34 | the text is the condition, " ? ", the first then-item and " : ", the first else-item; any further items in either branch make no difference |
| LogicGate.TernaryNeedsBranches | src/com/thesis/expression/TernaryExpression.java:27-34 | without a first item in both branches the ternary cannot be written (the source fails on the missing item) |
| TryCatch.NewItem | src/com/thesis/TryCatchItem.java:20-25 | a new record keeps its range, lists the one handler label, records its type, counts one handler and no catch block, and has no try or finally stack yet |
| TryCatch.MatchesEquivalence | src/com/thesis/TryCatchItem.java:72-74 | matches is reflexive, symmetric and transitive |
| TryCatch.MatchesIgnoresHandlers | src/com/thesis/TryCatchItem.java:72-74 | records of the same range match whatever their handlers, before and after addHandlers |
| TryCatch.IsHandlerLabel | src/com/thesis/TryCatchItem.java:76-81 | the search of the handler-type keys answers true exactly when the label has a recorded type |
| TryCatch.AddHandlers | src/com/thesis/TryCatchItem.java:67-70 | the locations are appended as given, duplicates kept; the types are merged, a new type replacing an old one for the same label; nothing else changes |
| TryCatch.HandlerCountDistinct | src/com/thesis/TryCatchItem.java:59-70 | when locations and types are added together, getHandlerCount is the number of distinct handler locations |
| TryCatch.NewItemConsistent | src/com/thesis/TryCatchItem.java:20-25 | a new record's typed labels are exactly its locations |
| TryCatch.AddCatchBlock | src/com/thesis/TryCatchItem.java:83-85 | the handler gains a block, the block count grows only for a handler without one, and nothing else changes |
| TryCatch.GetCatchBlock | src/com/thesis/TryCatchItem.java:87-89 | null for a handler with no block |
| TryCatch.CatchBlockRoundTrip | src/com/thesis/TryCatchItem.java:83-89 | the block read back for a handler is the last one stored for it, and other handlers' blocks are untouched |
| TryCatch.GetHandlerType | src/com/thesis/TryCatchItem.java:91-93 | the recorded type, or null for a label never recorded |
| TryCatch.MakeTry | src/com/thesis/expression/TryExpression.java:18-52 | one catch per handler location in order, each with that location's type and block; the try and finally stacks are the record's; the node has no type, takes nothing from the stack and writes nothing |
| TryCatch.AddHandlersExtendsCatches | src/com/thesis/expression/TryExpression.java:18-26 | handlers added for new labels only append catches; the catches built before keep their places |
| TryCatch.WriteCatch | src/com/thesis/expression/TryExpression.java:82-85 | the text is " catch (", the type's text and ")" |
| TryCatch.MakeStatement | src/com/thesis/block/TryCatchStatement.java:17-27 | the statement keeps the node, line and try block, has a finally block exactly when the finally stack is present and not empty, and one catch statement per catch in order |
| TryCatch.WriteCatchesAppend | src/com/thesis/block/TryCatchStatement.java:38-40 | writing a list of catch statements is writing its parts one after the other |
| TryCatch.WriteStatement | src/com/thesis/block/TryCatchStatement.java:34-48 | the text opens with "try" and the try block and ends with a line break; with a finally block it ends with " finally", that block and the line break |
| TryCatch.WriteCatchesAt | src/com/thesis/block/TryCatchStatement.java:38-40 | catch i is written after the catches before it and before the catches after it, as its catch node followed by its block |
| TryCatch.WriteStatementOrder | src/com/thesis/block/TryCatchStatement.java:35-48 | the statement is "try" and the try block, the catches before i, catch i, the catches after i, then " finally", the finally block and a line break, or only the line break without a finally block |
| TryCatch.StreamStatement | src/com/thesis/block/TryCatchStatement.java:35-48 | writing the parts to the writer in turn, one catch per loop step, produces exactly the statement's text |
| TryCatch.StatementFromItem | src/com/thesis/block/TryCatchStatement.java:17-27 | from a handler record: one catch statement per handler location, in order, each the catch built for that location (its type and block) at line 0, all renderable; a finally part exactly when the finally stack is present and not empty; the text opens with "try" and the try stack's block and, with a finally part, closes with " finally", its block and a line break |
| Loops.FindLabel | src/com/thesis/translator/LoopEnhancer.java:32-33 | the first position below the jump whose item carries the destination label, or -1 when there is none |
| Loops.UpdateDoLoop | src/com/thesis/translator/LoopEnhancer.java:30-41 | a jump with a non-empty branch, or whose destination labels no item below it, leaves the stack as it is; otherwise the items from the first such position up to the jump leave the stack and become its then-branch, in order, it becomes a do-while starting at its destination, its condition is negated once, and a null then-branch is an error |
| Loops.DoLoopPass | src/com/thesis/translator/LoopEnhancer.java:12-17 | visiting every jump position never lengthens the stack |
| Loops.DoLoopPassNoJumps | src/com/thesis/translator/LoopEnhancer.java:12-17 | a stack without jump nodes is left unchanged |
| Loops.ReachesInExists | src/com/thesis/translator/LoopEnhancer.java:48-61 | the recursive reach through a branch is the existential "some item from here on jumps to the target, or reaches one that does" |
| Loops.FixWalkReaches | src/com/thesis/translator/LoopEnhancer.java:43-63 | the walk sets the else-end to the target exactly when some jump nested at any depth targets it, and leaves it as it was otherwise |
| Loops.FixWalk | src/com/thesis/translator/LoopEnhancer.java:43-63 | the walk either leaves the else-end as it was or sets it to the loop start |
| Loops.FixLoopDetection | src/com/thesis/translator/LoopEnhancer.java:43-63 | only the top-level jump's else-end changes, and it becomes the loop start label exactly when a nested jump at any depth targets that label |
| Loops.TopLast | src/com/thesis/translator/LoopEnhancer.java:109 | there is a last top-level then-item to look at exactly when the then-branch is present and not empty |
| Loops.AddBreak | src/com/thesis/translator/LoopEnhancer.java:93-104 | the last item becomes a break exactly when the top level is a loop and the branch ends in an unconditional jump to the next top-level label; that case also asks for the else-end reset; otherwise the branch is unchanged |
| Loops.AddContinue | src/com/thesis/translator/LoopEnhancer.java:106-116 | an empty branch is unchanged; a non-empty one with no top-level last item is an error; the last item becomes a continue exactly when the top level is a loop whose then-branch ends in an unconditional jump and the branch ends in an unconditional jump to the top-level start frame |
| Loops.Nested | src/com/thesis/translator/LoopEnhancer.java:65-91 | rewriting a nested jump keeps it a jump of the same kind with the same common fields; only its branches change, each keeping its length and whether it is null |
| Loops.NestedIn | src/com/thesis/translator/LoopEnhancer.java:71-75 | rewriting a branch keeps its length |
| Loops.NestedInPointwise | src/com/thesis/translator/LoopEnhancer.java:69-90 | every item of a branch is replaced by its own rewrite when it is a jump and kept otherwise; a break is reported exactly when one of the rewritten jumps reports one |
| Loops.ImproveBreakAndContinue | src/com/thesis/translator/LoopEnhancer.java:65-91 | rewriting a top-level jump keeps it a jump of the same kind with the same common fields; only its branches and else-end change, each branch keeping its length and null-ness, and the else-end either stays or becomes the start frame |
| Loops.BreakContinuePass | src/com/thesis/translator/LoopEnhancer.java:19-27 | the second loop of enhance keeps the length of the stack, every item's label and whether it is a jump, and leaves the items before the start and every item that is not a jump as they were; each jump from the start on becomes its loop-detection fix improved with the next item's label (-2 after the last item); the pass fails exactly when one of those rewrites fails |
| Loops.Enhance | src/com/thesis/translator/LoopEnhancer.java:11-28 | enhancing never lengthens the stack |
| Loops.NestedNotLoop | src/com/thesis/translator/LoopEnhancer.java:98-112 | when the top level is not a loop, rewriting a nested jump changes nothing and reports no break |
| Loops.NotLoopUnchanged | src/com/thesis/translator/LoopEnhancer.java:98-112 | when the top level is not a loop, break and continue rewriting leaves it exactly as it was |
| Loops.NestedNoBreakAtEnd | src/com/thesis/translator/LoopEnhancer.java:23 | with the next label -2 no break is added below a jump whose unconditional jumps all target labels |
| Loops.NoBreakAtEnd | src/com/thesis/translator/LoopEnhancer.java:23 | the last top-level jump, whose next label is -2, keeps the else-end the loop-end fix-up gave it |
| Translator.CompareOperand | src/com/thesis/InstructionTranslator.java:226-238 | the comparison named by a conditional jump's mnemonic: EQ exactly for IF_ICMPEQ, IF_ACMPEQ and IFEQ, NE exactly for their NE forms, never a gate operator |
| Translator.VisitInsn | src/com/thesis/InstructionTranslator.java:133-152 | an array load fails exactly on fewer than two entries and otherwise replaces the index and array reference by one access; a constant pushes one entry; a return pops into a return statement only when exactly one entry is present; arithmetic with two entries folds them into one; every other case changes nothing |
| Translator.VisitIntInsn | src/com/thesis/InstructionTranslator.java:155-170 | BIPUSH pushes its operand as an int constant and SIPUSH as a short constant; NEWARRAY fails exactly on an empty stack and otherwise replaces the length by the creation; any other opcode changes nothing |
| Translator.VisitVarInsn | src/com/thesis/InstructionTranslator.java:173-195 | a load fails exactly for a slot without a variable and otherwise pushes that variable typed as itself; a store fails exactly on an empty stack and otherwise pops the right side and appends one assignment to the slot's local, creating "var" + slot for an unseen slot, typing an untyped local from the right side and retyping the right side from a debug type; other locals are untouched |
| Translator.NextLabelAt | src/com/thesis/InstructionTranslator.java:243-245 | the first label node for the target at or after a position, or -1 when there is none |
| Translator.VisitJumpInsn | src/com/thesis/InstructionTranslator.java:222-250 | a two-operand conditional pops right then left and pushes their comparison, a one-operand conditional compares the top against the int constant 0, and both make the pass skip the next node, failing on too few entries or no next node; GOTO continues at its target's label node and fails when there is none; statements and locals never change |
| Translator.VisitLdc | src/com/thesis/InstructionTranslator.java:268-286 | exactly one constant is pushed, typed int, float, double, long or String after the constant's class and by the descriptor's type name for a Type constant |
| Translator.VisitIinc | src/com/thesis/InstructionTranslator.java:288-306 | after an ILOAD the load is replaced by a postfix increment (failing on an empty stack); otherwise before an ILOAD a prefix increment is pushed and that load skipped; otherwise one assignment of the increment is appended; the postfix case wins when both neighbours load |
| Translator.Step | src/com/thesis/InstructionTranslator.java:55-107 | the pass never moves backwards and never leaves the instruction list |
| Translator.StepTable | src/com/thesis/InstructionTranslator.java:55-107 | every visit fails exactly on too few entries, a load of an unknown slot, a conditional jump as the last node or a GOTO without its label; otherwise it changes the depth, appends statements and resumes as the per-instruction table says |
| Translator.GotoSkips | src/com/thesis/InstructionTranslator.java:240-246 | running from a GOTO is running from the node after its label, with nothing in between visited |
| Translator.RunExtends | src/com/thesis/InstructionTranslator.java:44-53 | the pass only appends statements and only adds slots to the local map |
| Translator.AddCodeLoop | src/com/thesis/InstructionTranslator.java:47-51 | the loop that visits a node and continues after the node the visit answered computes the pass from the first node |
| Translator.DebugLocals | src/com/thesis/InstructionTranslator.java:35-42 | there is a local for exactly the slots of the debug entries |
| Translator.InitialLocals | src/com/thesis/InstructionTranslator.java:25-33 | the arguments are put over the debug locals: every argument slot holds its argument and every other slot its debug local |
| Translator.Ascending | src/com/thesis/InstructionTranslator.java:110-114 | the slots listed once each in strictly ascending order |
| Translator.Declarations | src/com/thesis/InstructionTranslator.java:110-114 | each statement declares a local that is not an argument, and every such local among the slots is declared |
| Translator.AddDeclarations | src/com/thesis/InstructionTranslator.java:109-116 | the earlier statements are kept as a suffix, preceded by declarations of exactly the locals that are not arguments; stack and locals are unchanged |
| Translator.Translate | src/com/thesis/InstructionTranslator.java:25-53 | a translation keeps every initial local slot and every given statement |
| Handlers.IincNode | src/com/thesis/translator/handler/IincInsnNodeHandler.java:32-43 | after an ILOAD a postfix increment of the slot's local, otherwise before an ILOAD a prefix one, both typed int; otherwise the assignment of the int constant increment to that local |
| Handlers.HandleIinc | src/com/thesis/translator/handler/IincInsnNodeHandler.java:27-44 | one push of the increment node under either resume rule: the stack grows by at most that node, and line and label are kept |
| Handlers.IincPushesOne | src/com/thesis/translator/handler/IincInsnNodeHandler.java:27-44 | on a stack the improve pass has nothing to do on, under either resume rule: after an ILOAD the postfix increment replaces the load below it and the cursor rests on it as written, just past it corrected; otherwise the increment is appended as one stamped item and the cursor stays; afterwards the pass has nothing left to do exactly when the increment was neither postfix as written nor prefix, which waits for its load |
| Handlers.InvocationNode | src/com/thesis/translator/handler/MethodInsnNodeHandler.java:36-40 | a constructor invocation exactly for INVOKESPECIAL of a constructor name, otherwise a method invocation; opcode, name, descriptor, owner and caller pass through, and only a constructor invocation receives the enclosing class |
| Handlers.HandleMethod | src/com/thesis/translator/handler/MethodInsnNodeHandler.java:27-41 | one push of the invocation under either resume rule: the stack grows by at most that node, and line and label are kept |
| Handlers.MethodPushesOne | src/com/thesis/translator/handler/MethodInsnNodeHandler.java:27-41 | under either resume rule, a call pushed on a stack the pass has nothing to do on appends exactly one item stamped with the current label and line, keeps the cursor and leaves nothing to do, and records it under a pending frame, which is cleared |
| Methods.ReturnDescriptor | src/com/thesis/block/MethodBlock.java:147-148 | the text after the last ')' of the descriptor: a suffix containing no ')', preceded by ')' unless it is the whole descriptor |
| Methods.ArgumentDescriptors | src/com/thesis/block/MethodBlock.java:187-188 | the text between index 1 and the last ')', present exactly when that ')' is at index 1 or later |
| Methods.DescriptorParts | src/com/thesis/block/MethodBlock.java:147-148 | a descriptor "(" args ")" ret comes apart into exactly args and ret |
| Methods.BracketEnd | src/com/thesis/block/MethodBlock.java:255-259 | the first index at or after i that is not '[', every index before it being '['; none when the run reaches the end of the text |
| Methods.BracketEndNone | src/com/thesis/block/MethodBlock.java:256-258 | the run of '[' has no end exactly when it reaches the end of the text |
| Methods.SplitFrom | src/com/thesis/block/MethodBlock.java:251-265 | the loop from an index at or past the end yields no elements |
| Methods.Split | src/com/thesis/block/MethodBlock.java:246-268 | an empty argument text yields no elements |
| Methods.LeadingBrackets | src/com/thesis/block/MethodBlock.java:255-259 | the number of '[' heading a text: all of them '[', and the next character, if any, is not |
| Methods.SplitRoundTrip | src/com/thesis/block/MethodBlock.java:246-268 | with a type indicator that answers a non-empty prefix, a text not ending in '[' splits without failing, the pieces concatenate back to the text, and every piece has a type after its brackets |
| Methods.SplitExample | src/com/thesis/block/MethodBlock.java:246-268 | with the field-type grammar of section 4.3.2 of the Java Virtual Machine Specification, "I[JLjava/lang/String;" splits into "I", "[J" and "Ljava/lang/String;" |
| Methods.FieldTypeIndicatorIsPrefix | src/com/thesis/block/MethodBlock.java:262 | the field-type grammar answers a non-empty prefix of every non-empty text |
| Methods.AsWrittenSlots | src/com/thesis/block/MethodBlock.java:199-200 | the source's slot of argument i is i for a static method and i + 1 otherwise |
| Methods.JvmSlots | src/com/thesis/block/MethodBlock.java:199-200 | one slot per argument under the widths of section 2.6.1 of the Java Virtual Machine Specification |
| Methods.JvmSlotsFollowWidths | src/com/thesis/block/MethodBlock.java:199-200 | the first argument is in slot 0, or 1 after "this", and each next argument lies the width of its predecessor further on (two for long and double) |
| Methods.SlotsAgreeWithoutWideTypes | src/com/thesis/block/MethodBlock.java:199-200 | without long or double arguments the source's slots are the Java Virtual Machine's |
| Methods.WideArgumentMisplaced | src/com/thesis/block/MethodBlock.java:200 | for a static (JI)V method the source puts the int argument in slot 1, the second half of the long, while the Java Virtual Machine passes it in slot 2 |
| Methods.SlotsDistinct | src/com/thesis/block/MethodBlock.java:199-200 | under both layouts no two arguments share a slot, and no argument of an instance method is in slot 0 |
| Methods.Argument | src/com/thesis/block/MethodBlock.java:199-212 | the argument is marked as an argument; with a debug entry for the slot it is that entry's variable and index, otherwise it is named ARGUMENT_NAME_BASE + i, typed from the descriptor, at the slot |
| Methods.Seed | src/com/thesis/block/MethodBlock.java:191-196 | seeding never drops a slot already in the map |
| Methods.SeedKeeps | src/com/thesis/block/MethodBlock.java:191-196 | the seeded map has the keys it started with plus the slots of the non-empty elements, and every other entry is untouched |
| Methods.SeedPlaces | src/com/thesis/block/MethodBlock.java:191-196 | with distinct slots, every non-empty element's slot ends up holding that element's argument |
| Methods.This | src/com/thesis/block/MethodBlock.java:179-181 | "this" is an argument in slot 0 typed by the class name |
| Methods.ArgumentsSeeded | src/com/thesis/block/MethodBlock.java:177-212 | under either layout: "this" at slot 0 of an instance method, every descriptor argument at its slot and marked as an argument, named ARGUMENT_NAME_BASE + i unless debug information names it, and every other entry the signature supplied kept |
| Methods.HoistTypeParameters | src/com/thesis/block/MethodBlock.java:107-112 | a declaration not starting with "<" is left with its return type as they were |
| Methods.HoistRoundTrip | src/com/thesis/block/MethodBlock.java:107-112 | a declaration "<formals>rest" becomes "rest" and the return type gains the prefix "<formals> ": nothing is lost or duplicated |
| Methods.HoistWithoutTypeParameters | src/com/thesis/block/MethodBlock.java:107 | a declaration whose first character is not '<' keeps its text |
| Methods.ReturnType | src/com/thesis/block/MethodBlock.java:143-150 | the generic return type when there is one, otherwise the print form of the type of the descriptor's return part |
| Methods.DefaultKeyword | src/com/thesis/block/MethodBlock.java:130-133 | "default " exactly for a method of an interface that is neither abstract nor static, and nothing otherwise |
| Methods.AccessAndName | src/com/thesis/block/MethodBlock.java:116-141 | a constructor prints the class name after the lead and never a return type; any other method prints its return type, a space and its name |
| Methods.ConstructorHasNoReturnType | src/com/thesis/block/MethodBlock.java:135-136 | a constructor's header is the same whatever its descriptor's return part and generic return type |
| Methods.ListedIsJoin | src/com/thesis/block/MethodBlock.java:163-167 | with a separator ", " before every entry but the first, the list is the entries joined by ", " |
| Methods.Declared | src/com/thesis/block/MethodBlock.java:167 | each printed argument is its type's print form, a space and its name, in slot order |
| Methods.ArgumentListIsListed | src/com/thesis/block/MethodBlock.java:157-168 | the argument list is produced exactly when every listed slot holds a typed variable, and is then the declarations separated as addComma directs |
| Methods.ListedSlots | src/com/thesis/block/MethodBlock.java:157-166 | the listed slots are 0 to size-1 for a static method and 1 to size-1 otherwise |
| Methods.ReplaceLastBrackets | src/com/thesis/block/MethodBlock.java:170-173 | the rewrite fails exactly when the text holds no "[]", and otherwise makes the text one character longer |
| Methods.VarargsEllipsis | src/com/thesis/block/MethodBlock.java:170-173 | the last "[]" of the text, and only it, becomes "..." |
| Methods.AddMethodArgs | src/com/thesis/block/MethodBlock.java:152-175 | "(" then the generic declaration when there is one, else the argument list (failing when it fails), then the varargs rewrite when asked (failing without "[]"), then ")" |
| Methods.Exceptions | src/com/thesis/block/MethodBlock.java:232-244 | the generic exceptions when there are any; otherwise " throws " and the dotted names separated as addComma directs, or nothing without exceptions |
| Methods.AbstractEnding | src/com/thesis/block/MethodBlock.java:270-278 | only an abstract method ends its header: " default " and the value when it has an annotation default, then the statement end |
| Methods.ConstructorHeader | src/com/thesis/block/MethodBlock.java:71-94 | the header of a constructor without signature, varargs or exceptions starts with the lead, the class name and "(" and ends with ")" |
| Methods.AppendMethodNode | src/com/thesis/block/MethodBlock.java:71-94 | no header when the descriptor has no ')' or its argument text does not split, and none for a varargs method whose modifiers print no "transient " to remove |
| Methods.PlainHeader | src/com/thesis/block/MethodBlock.java:71-94 | a method without Signature attribute or varargs, whose descriptor splits, gets a header exactly when every listed argument is present and typed; it is then the access and name, "(", the argument declarations joined by ", ", ")", the throws clause and the abstract ending |
| Methods.VarargsHeader | src/com/thesis/block/MethodBlock.java:71-94 | a varargs method's header is the access and name with "transient " removed, "(", the argument list with its last "[]" turned into "...", ")", the throws clause and the abstract ending |
| Access.Clear | src/com/thesis/file/TextMaker.java:44 | the cleared flag is no longer set |
| Access.ClearKeeps | src/com/thesis/file/TextMaker.java:44 | clearing one set of bits leaves every disjoint flag as it was |
| Modifiers.KeywordsDistinct | src/com/thesis/file/TextMaker.java:350-390 | no two entries of the modifier table print the same keyword |
| Modifiers.AppendAccess | src/com/thesis/file/TextMaker.java:350-390 | splitting the text at its spaces gives exactly the keywords of the set flags, in the order of the table |
| Modifiers.ModifiersWellFormed | src/com/thesis/file/TextMaker.java:350-390 | every keyword of the table is non-empty without a space, and no keyword appears twice |
| Modifiers.KeywordListed | src/com/thesis/file/TextMaker.java:350-390 | for a table with distinct keywords, an entry's keyword is printed exactly when its flag is set |
| Modifiers.NeverSynchronized | src/com/thesis/file/TextMaker.java:44 | with ACC_SUPER (the bit of ACC_SYNCHRONIZED) cleared, a class header never prints "synchronized" |
| Modifiers.WordsOfSpaced | src/com/thesis/file/TextMaker.java:350-390 | splitting the printed text at its spaces gives back exactly the printed keywords |
| Modifiers.ModifiersDecode | src/com/thesis/file/TextMaker.java:350-390 | the printed modifiers decode back to the access word: a keyword's word is present exactly when its flag is set, and every word is a keyword of the table |
| Modifiers.KeywordPrinted | src/com/thesis/file/TextMaker.java:350-390 | the keyword of a set flag, followed by its space, occurs in the printed text |
| Modifiers.KeywordAbsent | src/com/thesis/file/TextMaker.java:350-390 | the keyword of a flag that is not set, followed by a space, occurs nowhere in the printed text, provided no keyword of the table ends with it |
| Modifiers.NoFinalWithoutFlag | src/com/thesis/file/TextMaker.java:360-362 | without ACC_FINAL, "final " occurs nowhere in the printed modifiers |
| Modifiers.AbstractPrinted | src/com/thesis/file/TextMaker.java:375-377 | with ACC_ABSTRACT, "abstract " occurs in the printed modifiers |
| ClassHeader.ObjectName | src/com/thesis/file/TextMaker.java:423-425 | the dotted name has the length of the internal name and holds no '/' |
| ClassHeader.SuperClass | src/com/thesis/file/TextMaker.java:412-416 | nothing exactly when there is no superclass or it is java/lang/Object; otherwise " extends ", the dotted name and a space |
| ClassHeader.Interfaces | src/com/thesis/file/TextMaker.java:400-410 | nothing exactly for a missing or empty interface list |
| ClassHeader.InterfaceListIsJoin | src/com/thesis/file/TextMaker.java:403-408 | the interface list is the dotted names joined by ", ", with no separator before the first or after the last |
| ClassHeader.KindOf | src/com/thesis/file/TextMaker.java:45-57 | annotation exactly when ACC_ANNOTATION is set; interface exactly when ACC_INTERFACE is set without it; enum exactly when ACC_ENUM is set without either; a plain class otherwise |
| ClassHeader.KindText | src/com/thesis/file/TextMaker.java:54-57 | annotation, interface and class are handled as written; an enum never fails, and without a "final " in the buffer it keeps its text |
| ClassHeader.Finish | src/com/thesis/file/TextMaker.java:59-71 | the rest of the header is produced exactly when the kind text was; it starts with the kind text and the name and ends with " {\n" |
| ClassHeader.VisitAsWritten | src/com/thesis/file/TextMaker.java:23-72 | as written: a plain class always gets a header; an enum fails exactly when its modifiers hold no "final "; every header ends with " {\n" |
| ClassHeader.Visit | src/com/thesis/file/TextMaker.java:23-72 | corrected: the same header as written for every kind but an enum; a class and an enum always get one; every header ends with " {\n" |
| ClassHeader.EnumWithoutFinalFails | src/com/thesis/file/TextMaker.java:54-57 | as written, the header of a public enum class that is not final fails: there is no "final " to remove |
| ClassHeader.VisitTotal | src/com/thesis/file/TextMaker.java:23-72 | the corrected header is produced for every access word section 4.1 of the Java Virtual Machine Specification admits (an interface is abstract, an annotation is an interface) |
| ClassHeader.AbstractRemovable | src/com/thesis/file/TextMaker.java:44-50 | with ACC_ABSTRACT set, "abstract " occurs in the buffer before the kind keyword's removal |
| ClassHeader.ClassHeaderShape | src/com/thesis/file/TextMaker.java:23-72 | a plain class's header is the deprecation mark, the modifiers without ACC_SUPER, "class ", the name, the superclass clause, the interfaces clause and " {\\n" |
| Modifiers.KeywordsFromTable | src/com/thesis/file/TextMaker.java:350-390 | every printed word is the keyword of some table entry |
| Text.IndexOf | src/com/thesis/file/TextMaker.java:419 | the first index at which the text occurs, or -1 exactly when it occurs nowhere |
| Text.RemoveFirst | src/com/thesis/file/TextMaker.java:418-421 | fails exactly when the text is absent; otherwise the buffer with the first occurrence cut out, shorter by the text's length |
| Signature.PopThenPush | src/com/thesis/file/DecompilerSignatureVisitor.java:321-337 | popping the top entry and pushing it again gives the stack back |
| Signature.PopMarks | src/com/thesis/file/DecompilerSignatureVisitor.java:329-332 | the loop of endType stops on a false entry |
| Signature.PopMarksOfMarks | src/com/thesis/file/DecompilerSignatureVisitor.java:329-332 | the loop of endType on a type nested in k arrays finds exactly k marks and stops on the type's own entry |
| Signature.EndFormals | src/com/thesis/file/DecompilerSignatureVisitor.java:314-319 | afterwards no formal type parameter list is open |
| Signature.EndFormalsOnce | src/com/thesis/file/DecompilerSignatureVisitor.java:314-319 | ">" is appended exactly when a formal list is open, and closing twice is closing once |
| Signature.EndType | src/com/thesis/file/DecompilerSignatureVisitor.java:325-337 | only the declaration and the array stack change; the declaration is extended; the array stack never grows, and the corrected endType always pops a non-empty one |
| Signature.VisitFormalTypeParameter | src/com/thesis/file/DecompilerSignatureVisitor.java:82-86 | appends "<" before the first formal and ", " before a later one, then the name; marks a formal seen and no interface bound seen; nothing else changes |
| Signature.VisitParameterType | src/com/thesis/file/DecompilerSignatureVisitor.java:121-132 | closes the formals, then appends "(" before the first parameter and ", " before a later one, counting it; a false entry is pushed on the array stack; separator and argument stack are kept |
| Signature.VisitReturnType | src/com/thesis/file/DecompilerSignatureVisitor.java:135-146 | the declaration becomes the closed parameter list, ending with ")"; no parameter or formal list is open afterwards; the return type buffer exists; the exceptions are untouched |
| Signature.VisitExceptionType | src/com/thesis/file/DecompilerSignatureVisitor.java:148-157 | only the exceptions buffer changes; it exists afterwards, and an existing one is extended after ", " |
| Signature.VisitBaseType | src/com/thesis/file/DecompilerSignatureVisitor.java:159-192 | the declaration is extended by the type's name; only the declaration and the array stack change |
| Signature.VisitTypeVariable | src/com/thesis/file/DecompilerSignatureVisitor.java:214-219 | the declaration is extended by the name, preceded by the pending separator in the corrected edition |
| Signature.VisitArrayType | src/com/thesis/file/DecompilerSignatureVisitor.java:221-227 | a true entry is pushed on the array stack and nothing else changes |
| Signature.VisitClassType | src/com/thesis/file/DecompilerSignatureVisitor.java:229-247 | a false entry is pushed on the argument stack and the separator is consumed; the dotted name is appended, except java/lang/Object where it is not shown, which leaves the declaration as it was |
| Signature.VisitUnboundedArgument | src/com/thesis/file/DecompilerSignatureVisitor.java:262-271 | "<" before the first argument (setting the top argument entry) or ", " before a later one, then "?"; nothing else changes |
| Signature.VisitTypeArgument | src/com/thesis/file/DecompilerSignatureVisitor.java:273-290 | "<" before the first argument (setting the top argument entry) or ", " before a later one, then the wildcard prefix; a false entry is pushed on the array stack |
| Signature.VisitEnd | src/com/thesis/file/DecompilerSignatureVisitor.java:292-298 | ">" exactly when the class type had arguments, then the argument entry is popped and the type ended |
| Signature.Brackets | src/com/thesis/file/DecompilerSignatureVisitor.java:329-332 | two characters per array level |
| Signature.BaseTypeRoundTrip | src/com/thesis/file/DecompilerSignatureVisitor.java:158-192 | each base type letter of section 4.3.2 of the Java Virtual Machine Specification names a type that maps back to the letter; any other letter prints "double" |
| Signature.DriveRenders | src/com/thesis/file/DecompilerSignatureVisitor.java:158-337 | with the corrected endType, the events of any type print exactly its Java text (name, type arguments, one "[]" per array level, then the parameter name) and leave the array stack as they found it |
| Signature.EndTypeMarks | src/com/thesis/file/DecompilerSignatureVisitor.java:325-337 | on a type nested in k arrays, endType pops the k marks and appends k "[]" and the parameter name in both editions; corrected, it also pops the type's own entry, and as written it does so only when k is 0 |
| Signature.BaseRenders | src/com/thesis/file/DecompilerSignatureVisitor.java:158-192 | a base type prints its name, its brackets and the parameter name |
| Signature.VariableRenders | src/com/thesis/file/DecompilerSignatureVisitor.java:213-218 | corrected: a type variable prints the pending separator, then its name |
| Signature.ArrayRenders | src/com/thesis/file/DecompilerSignatureVisitor.java:220-226 | an array prints its element's text followed by "[]" |
| Signature.ClassRenders | src/com/thesis/file/DecompilerSignatureVisitor.java:228-298 | a class type prints the separator and dotted name (java.lang.Object only where shown), its type arguments and the closing ">" |
| Signature.ArgumentRenders | src/com/thesis/file/DecompilerSignatureVisitor.java:261-289 | a type argument prints "<" when it is the first, ", " otherwise, then "?" or its wildcard prefix and its type |
| Signature.DriveArgsRender | src/com/thesis/file/DecompilerSignatureVisitor.java:261-298 | the type arguments of a class print "<" and their texts joined by ", ", and the argument stack marks that there were arguments |
| Signature.EndTypeLeaks | src/com/thesis/file/DecompilerSignatureVisitor.java:325-333 | as written, endType on a type nested in at least one array leaves the type's own entry on the array stack; corrected, it does not |
| Signature.LeakLosesBrackets | src/com/thesis/file/DecompilerSignatureVisitor.java:325-333 | as written, the array type Foo<int[]>[] prints as Foo<int[]>: the leaked entry makes the outer brackets disappear |
| Signature.AsWrittenRenders | src/com/thesis/file/DecompilerSignatureVisitor.java:158-337 | on a type where no class type inside an array has an array among its type arguments, with no separator pending, the code as written prints exactly what the corrected visitor prints; only the array stack differs, by the false entries left on it |
| Signature.WrittenRenders | src/com/thesis/file/DecompilerSignatureVisitor.java:158-337 | as written, such a type prints its Java text, its brackets and the parameter name, and leaves a counted number of false entries on the array stack |
| Signature.AsWrittenArrayExample | src/com/thesis/file/DecompilerSignatureVisitor.java:220-226 | as written, int[][] prints as "int[][]" |
| Signature.ArrayBoundLosesSeparator | src/com/thesis/file/DecompilerSignatureVisitor.java:81-101 | in both editions the formal T:[I prints "<Tint[]": the separator " extends " is lost before a base type |
| Signature.TypeVariableDropsSeparator | src/com/thesis/file/DecompilerSignatureVisitor.java:213-218 | as written, <T:Ljava/lang/Object;U:TT;> prints "<T, UT"; corrected, "<T, U extends T" |
| Signature.InterfaceBoundsRender | src/com/thesis/file/DecompilerSignatureVisitor.java:95-101 | interface bounds print " extends " before the first bound of a formal and ", " before each later one |
| Signature.FormalRenders | src/com/thesis/file/DecompilerSignatureVisitor.java:81-101 | a formal prints "<" (first) or ", " (later), its name, " extends " and its class bound, then its interface bounds |
| Signature.FormalsRender | src/com/thesis/file/DecompilerSignatureVisitor.java:81-86 | formal type parameters open with "<" and are joined by ", ", and nothing else of the visitor changes |
| Signature.ParametersRender | src/com/thesis/file/DecompilerSignatureVisitor.java:120-132 | parameters print "(" before the first and ", " between, each as its type and " arg" with its number counted from 0 |
| Signature.ParametersEndFormals | src/com/thesis/file/DecompilerSignatureVisitor.java:120-122 | the first parameter closes the formal type parameters itself |
| Signature.ExceptionsRender | src/com/thesis/file/DecompilerSignatureVisitor.java:147-156 | the exception types go to their own buffer joined by ", ", which stays absent when there are none |
| Signature.FormalsHead | src/com/thesis/file/DecompilerSignatureVisitor.java:81-86 | a method's formal type parameters, closed, are "<", the joined formals and ">", or nothing when there are none |
| Signature.ParametersClose | src/com/thesis/file/DecompilerSignatureVisitor.java:134-145 | visitReturnType closes the parameter list: "(", the joined parameters, ")" |
| Signature.ReturnTypeAfterEndFormals | src/com/thesis/file/DecompilerSignatureVisitor.java:134-136 | closing the formals before the parameters changes nothing once the return type is reached |
| Signature.MethodDeclarationRenders | src/com/thesis/file/DecompilerSignatureVisitor.java:81-145 | a method's declaration text is its type parameters in angle brackets, then the parameters in parentheses |
| Signature.MethodRenders | src/com/thesis/file/DecompilerSignatureVisitor.java:81-156 | the corrected visitor prints a method signature as the declaration, the return type in its own buffer and the joined exception types, absent when there are none |

## Left out

- Loops.Enhance: states only that the stack never grows. The two passes it chains are specified one step at a time by Loops.UpdateDoLoop, Loops.FixLoopDetection, Loops.AddBreak and Loops.AddContinue.
- Loops.DoLoopPass: states only that the stack never grows and that a stack without jumps is untouched. The effect on each jump is stated by Loops.UpdateDoLoop.
- Translator.Translate: states only that the initial locals and the given statements survive. The per-instruction effects are stated by Translator.Step and the visit functions.
- Stack.PushAppendsOne: covers a stack on which the improve pass, from its cursor, has nothing to do. Two states are not of that kind: a prefix unary still waiting for its operand, covered by Stack.PushPrefix only for an operand-less next node, and the cursor left on a postfix unary by the as-written rule, covered by Stack.PostfixRevisitAsWritten. Pushes onto any other stack are stated only by Stack.Push's bounds.
- Stack.LegacyPushAppendsOne: the same restriction, for the older push.
- Handlers.IincPushesOne: the same restriction; Handlers.MethodPushesOne too.
- TryCatch.MakeStatement: TryCatchExpression is not part of this model. The statement constructor and the monitor fold read a TryCatchExpression; the model reads the try node that TryExpression builds in its place, as if the two classes were one.
- Stack.Improve: the same identification. Its monitor fold tests for the try node of TryExpression.
- Expr.OperandText: Operand.toString is not part of this model. Each operator is taken to print as its Java symbol.
- Loops.Nested: the contract states what stays (kind, common fields, branch lengths and null-ness). The new branch contents are stated item by item by Loops.NestedInPointwise and, for the last item, by Loops.AddBreak and Loops.AddContinue. The break flag is stated only through those.
- Loops.ImproveBreakAndContinue: likewise. The contract states that the else-end stays or becomes the start frame, but not which one a given branch produces.
- The printing to standard output (`System.out`) and `printNodeInfo`'s reflective dump of fields have no effect on the result.
- Expression.toString equals write, so it is modelled by Expr.Write alone.
- The default afterPush does nothing, so it has no function of its own.
- TryCatchStatement.disassemble returns the statement itself, so it adds nothing to model.
- `Operand.java` is not part of this model. Operand.neg is taken as the natural complement: AND and OR, EQ and NE, LT and GE, GT and LE.
- `JumpExpression` and `UnconditionalJump` are not part of this model. BreakExpression and ContinueExpression are taken not to be jump nodes.
- ASM labels are numbers, and label identity is number equality.
- Values do not alias. A logic gate's branches equal the left operand's branches, but they are not shared with them.
- Each stack's frame map stores a copy of the item. The frame index is the first equal item.
- The enhancer list that getNew and duplicate share is not modelled. It holds callbacks into code that is not part of this model.
- The node classes that are referenced but not shown (arithmetic, array access, unary, assignment, invocation, logical) get a fixed stand-in for write and a prepareForStack that leaves the stack alone.
- The try node is built with opcode 0.
- Mnemonic classification follows the opcode ranges of section 6.5 of the Java Virtual Machine Specification.
- `DataType.print`, `Util.getType`, `Util.getTypeIndicator`, `Util.isConstructor` and the `Block` helpers are not part of this model. They are passed in as parameters: a type function, a `Helpers` record, or a flag.
- Methods.AppendMethodNode: parseSignature runs com.thesis.common.SignatureVisitor, which is not part of this model. Its output (the declaration, return type, exceptions and argument map) is an unconstrained input, `SignatureText`. The DecompilerSignatureVisitor modelled in Signature is a separate class that the method header does not call.
- Annotations and parameter annotations are not modelled. The signature printer is the variant built with annotations absent.
- `visitInnerClassType` is not modelled. Inner class types are not part of the signature datatype.
- The class-signature events visitSuperclass and visitInterface are modelled as functions but carry no rendering lemma.
- TextMaker's printing of the class signature is plain output and is not modelled.
- TextMaker's other overrides only delegate to ASM's `Textifier` or do nothing, so they are not modelled.
- MethodBlock.write and disassembleCodeBlock pass the text to a `Writer`. The text is modelled, not the writer.
- The bit stacks of the signature printer are unbounded naturals. Java's `int` would overflow beyond 31 levels of nesting.
- Signature.FormalRenders: no bound may be an array of a base type. javac never emits one, since a bound in Java source is a type variable or a class or interface type (section 4.4 of the Java Language Specification). Section 4.7.9.1 of the Java Virtual Machine Specification does allow one, and such a bound prints without " extends " in both editions, as Signature.ArrayBoundLosesSeparator states.
- Signature.FormalsRender: the same restriction, on every formal.
- Signature.FormalsHead: the same restriction.
- Signature.MethodDeclarationRenders: the same restriction.
- Signature.MethodRenders: the same restriction.
- Signature.EndType: its own contract states only what changes and that the declaration is extended. The brackets and the array stack, for each edition, are stated by Signature.EndTypeMarks.
- Signature.AsWrittenRenders: covers the types on which the code as written leaks nothing into a mark. Types with a class type inside an array that has an array among its type arguments, such as `Foo<int[]>[]`, are covered only by Signature.LeakLosesBrackets. The same holds for a pending separator before a type variable, covered by Signature.TypeVariableDropsSeparator.
- Expr.Write: requires Writable. The source throws on the nodes Writable excludes: an operand left null is a null dereference, and a ternary with an empty branch is an index error. The model gives such nodes no text rather than an error value.
- TryCatch.WriteCatch: requires a caught type. A catch node whose type is null throws at src/com/thesis/expression/TryExpression.java:84, which calls toString on the type; the model gives it no text.
- TryCatch.WriteStatement: requires every catch to have its type, for the same reason: a null type throws at src/com/thesis/expression/TryExpression.java:84.
- The older translator only prints for type, field, method, invokedynamic, table-switch, multianewarray, frame and line-number nodes. Those instructions are modelled as a step that leaves the state unchanged.
- The older stack's peek and addAll behave like the newer stack's, and they share its functions.
- `LineNumberNodeHandler` and `InvokeDynamicInsnNodeHandler` only forward to `MethodState`, which is not part of this model. The lambda node they push is modelled in Leaves.
- Float and double constants are opaque text. No floating-point arithmetic is modelled.
- A `HashMap` of local variables is read in ascending slot order.

## Findings

| source | as written | input that shows it | evidently intended | confidence | as-written member | corrected member |
|---|---|---|---|---|---|---|
| src/com/thesis/expression/stack/ExpressionStack.java:88-90 | after a postfix unary deletes the load below it, the improve cursor is set to i - 1, the unary's own new index, so the next push scans the unary again and deletes one more entry | `f(a, i++, j)`: load a, load i, iinc i, load j; pushing "load j" also deletes "load a" | resume after the unary, so each postfix unary folds exactly one load | not executed | Stack.PostfixRevisitExample | Stack.PostfixFoldsOnce |
| src/com/thesis/block/MethodBlock.java:200 | argument i is placed in slot i (static) or i + 1, one slot per argument | static method with descriptor `(JI)V`: the int is put in slot 1, inside the long | slots follow the widths of section 2.6.1 of the Java Virtual Machine Specification: long and double take two | not executed | Methods.WideArgumentMisplaced | Methods.JvmSlotsFollowWidths |
| src/com/thesis/file/TextMaker.java:54-57 | an enum always removes the first "final ", and the removal throws when there is none | access word ACC_PUBLIC, ACC_SUPER, ACC_ENUM: an enum whose constants have bodies is not final | remove "final " only when present | not executed | ClassHeader.EnumWithoutFinalFails | ClassHeader.VisitTotal |
| src/com/thesis/file/DecompilerSignatureVisitor.java:325-333 | endType pops the array marks but not the false entry startType pushed for the type, so that entry stays on the array stack | the array type `Foo<int[]>[]` prints as `Foo<int[]>`: the outer "[]" is lost | pop the type's own entry after its marks | not executed | Signature.LeakLosesBrackets | Signature.DriveRenders |
| src/com/thesis/file/DecompilerSignatureVisitor.java:213-218 | visitTypeVariable does not print the pending separator | `<T:Ljava/lang/Object;U:TT;>` prints `<T, UT` | print the separator before the variable's name, as visitClassType does | not executed | Signature.TypeVariableDropsSeparator | Signature.FormalRenders |
