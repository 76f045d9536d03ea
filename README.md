# The `~` (substring) operator of JacORB's notification filter

JacORB's notification service filters structured events with constraints written in the
Extended Trader Constraint Language. A constraint is parsed into a tree of nodes. Each node
can evaluate itself against an evaluation context (the event under test), report whether it
is static (independent of the event), and accept a visitor in pre-, in- or post-order.

This project models the substring-containment node `SubstrOperator` (`left ~ right`) in
Dafny, as pure datatypes and functions, and proves what it promises:

- `results.dfy` (`Results`): `Option` and `Result`. An exception thrown by `evaluate` becomes a
  `Failure` value; a `VisitorException` thrown during a walk becomes the `failure` field of
  the walk's outcome (`Walk.failure`).
- `java_strings.dfy` (`JavaStrings`): `String.indexOf(String)` as a first-occurrence search.
  It is proved against a reference definition of containment (`IsSubstring`: the needle is
  a slice of the haystack).
- `evaluation_result.dfy` (`EvaluationResults`): the tagged evaluation results and the two
  shared booleans `BoolTrue`/`BoolFalse` (`BOOL_TRUE`/`BOOL_FALSE`). It also holds the two
  exceptions `evaluate` declares and the `getString` coercion.
- `tcl_node.dfy` (`TclNode`): the node tree, `Evaluate`, `IsStatic` and the lemmas about them.
  Besides `Substr`, there are three leaf kinds that stand for the sibling node classes:
  - a string literal;
  - a static leaf, whose result comes from a fixed `Interpretation`;
  - a field reference, resolved through the `Context`, which may fail.
- `tcl_visitor.dfy` (`TclVisitor`): the three visitor walks, written with the same recursion
  as the Java code. Each walk's contract states that it equals a reference `Run`: call back
  the nodes of `PreOrder`/`InOrder`/`PostOrder` in turn and stop at the first callback that
  throws. A visitor is a pair of callbacks: `visitSubstr`, and one callback shared by all
  other node kinds, which receives the node (double dispatch). Each callback receives the
  callbacks made so far, which stand for the visitor's state, and may return a
  `VisitorException`.

Decisions the code leaves open:
- `getString()` of a string result is taken to be that string. Every other result goes
  through the `render` coercion of the `Interpretation`, which may fail.

`GetString` and `Dispatch` are definitional stand-ins for `getString()` and for the visitor's
per-kind callback (`visitSubstr` for `~`, one shared callback for every other kind). Their
behaviour is stated by the contracts in the `TclNode.Evaluate` and `TclVisitor.Accept*` rows.

## Model

| member | source | states |
|---|---|---|
| `JavaStrings.IndexOfFrom` | src/org/jacorb/notification/node/SubstrOperator.java:61 | the search returns -1 or a position at or after `from` where the needle occurs, and the needle occurs at no earlier position from `from` on |
| `JavaStrings.IndexOf` | src/org/jacorb/notification/node/SubstrOperator.java:61 | `hay.indexOf(needle)` is -1 exactly when the needle is not a contiguous slice of the haystack; otherwise it is the first index where the needle occurs |
| `JavaStrings.EmptyIsSubstring` | src/org/jacorb/notification/node/SubstrOperator.java:61-67 | the empty string is contained in every string |
| `JavaStrings.SubstringAntisymmetric` | src/org/jacorb/notification/node/SubstrOperator.java:61 | if each of two strings contains the other, they are equal; so containment is not symmetric |
| `TclNode.Evaluate` | src/org/jacorb/notification/node/SubstrOperator.java:50-69 | `evaluate(context)` of `~`: the left operand's failure if `evaluate().getString()` fails on it, otherwise the right operand's failure if that fails, otherwise the boolean "the right string contains the left string"; the lemmas below restate its cases one by one |
| `TclNode.SubstrTrueIffContained` | src/org/jacorb/notification/node/SubstrOperator.java:58-69 | when both operands have strings, `~` yields TRUE exactly when the right string contains the left string, and FALSE exactly when it does not |
| `TclNode.SubstrYieldsSharedBoolean` | src/org/jacorb/notification/node/SubstrOperator.java:58-69 | `~` succeeds exactly when both operands evaluate and coerce to strings; its result is then one of the two shared booleans |
| `TclNode.SubstrLeftFailurePropagates` | src/org/jacorb/notification/node/SubstrOperator.java:58 | a failure of the left operand's evaluation or `getString` is the result, for every right operand: the right operand plays no part |
| `TclNode.SubstrRightFailurePropagates` | src/org/jacorb/notification/node/SubstrOperator.java:59 | once the left operand has its string, a failure of the right operand's evaluation or `getString` is the result |
| `TclNode.SubstrEmptyNeedle` | src/org/jacorb/notification/node/SubstrOperator.java:61-67 | an empty left string yields TRUE for every right string |
| `TclNode.SubstrNotSymmetric` | src/org/jacorb/notification/node/SubstrOperator.java:61 | when the operand strings differ, `l ~ r` and `r ~ l` are never both TRUE |
| `TclNode.SubstrExamples` | src/org/jacorb/notification/node/SubstrOperator.java:58-69 | `"lo" ~ "hello"` and `"" ~ "anything"` are TRUE; `"hello" ~ "lo"` and `"xo" ~ "hello"` are FALSE, in every context |
| `TclNode.IsStatic` | src/org/jacorb/notification/node/SubstrOperator.java:72-74 | a tree is static exactly when no field reference occurs in it; for `~` this is the conjunction of its operands' staticness |
| `TclNode.StaticIsContextFree` | src/org/jacorb/notification/node/SubstrOperator.java:72-74 | a static tree evaluates to the same result in every evaluation context |
| `TclVisitor.PreOrder` | src/org/jacorb/notification/node/SubstrOperator.java:92-98 | the pre-order has one entry per node and starts with the node itself |
| `TclVisitor.InOrder` | src/org/jacorb/notification/node/SubstrOperator.java:76-82 | the in-order has one entry per node, and a `~` node sits right after all the nodes of its left subtree |
| `TclVisitor.PostOrder` | src/org/jacorb/notification/node/SubstrOperator.java:84-90 | the post-order has one entry per node and ends with the node itself |
| `TclVisitor.RunCallsPrefix` | src/org/jacorb/notification/node/SubstrOperator.java:76-98 | a walk calls back a prefix of its order, and at least one node |
| `TclVisitor.RunCompletes` | src/org/jacorb/notification/node/SubstrOperator.java:76-98 | a walk that raised no exception has called back every node of its order |
| `TclVisitor.RunStopsAtFirstFailure` | src/org/jacorb/notification/node/SubstrOperator.java:76-98 | every callback before the last returned normally, and the walk's exception is the last callback's: a walk ends at the first exception and passes it to its caller |
| `TclVisitor.RunAppend` | src/org/jacorb/notification/node/SubstrOperator.java:76-98 | a walk over two consecutive parts runs the first part and, only if it did not fail, the second |
| `TclVisitor.AcceptPreOrder` | src/org/jacorb/notification/node/SubstrOperator.java:92-98 | `acceptPreOrder` (`visitSubstr(this)`, then the left walk, then the right walk) equals `Run(PreOrder(n))`: it calls back the nodes of the pre-order in turn and stops at the first exception, which it returns |
| `TclVisitor.AcceptInOrder` | src/org/jacorb/notification/node/SubstrOperator.java:76-82 | `acceptInOrder` (the left walk, then `visitSubstr(this)`, then the right walk) equals `Run(InOrder(n))`: it calls back the nodes of the in-order in turn and stops at the first exception, which it returns |
| `TclVisitor.AcceptPostOrder` | src/org/jacorb/notification/node/SubstrOperator.java:84-90 | `acceptPostOrder` (the left walk, then the right walk, then `visitSubstr(this)`) equals `Run(PostOrder(n))`: it calls back the nodes of the post-order in turn and stops at the first exception, which it returns |
| `TclVisitor.OrdersListSubtrees` | src/org/jacorb/notification/node/SubstrOperator.java:76-98 | each of the three orders lists exactly the subtrees of the tree |
| `TclVisitor.PreAndInOrderSameNodes` | src/org/jacorb/notification/node/SubstrOperator.java:76-82 | the pre-order and the in-order contain the same multiset of nodes |
| `TclVisitor.InAndPostOrderSameNodes` | src/org/jacorb/notification/node/SubstrOperator.java:76-90 | the in-order and the post-order contain the same multiset of nodes |
| `TclVisitor.OrdersVisitSameNodes` | src/org/jacorb/notification/node/SubstrOperator.java:76-98 | the three orders contain the same multiset of nodes |

## Left out

- AcceptPreOrder, AcceptInOrder, AcceptPostOrder: every operand that is not a `~` node is a leaf whose walk makes exactly one callback, for itself. So the walk laws are proved only for trees whose sibling operators (`and`, comparisons, component access, ...) are collapsed to single callbacks. In the Java code such a subtree's walk makes several callbacks, but its traversal code is not part of this model.
- Evaluation is pure here, so the order "left before right" shows only in which failure is reported. The left operand's failure wins for every right operand; that is the model of "the right child is never evaluated".
- Java strings are sequences of UTF-16 code units. Here a string is a sequence of Dafny `char`s, which are Unicode scalar values. So a needle that is half of a surrogate pair cannot be expressed.
- `EvaluationContext`, the CORBA `Any`/DynAny machinery and its exceptions are not modelled. Field resolution is a function in `Context` that may fail. Static leaves and the string rendering of non-string results are parameters in `Interpretation`.
- Floating-point results are not modelled. 64-bit integer results are carried but never computed with.
- The sibling operators (`and`/`or`, comparisons, arithmetic, `exist`, component access) are outside this model. Their code is not part of it, so their semantics are not invented. They appear only as abstract leaves.
- The ANTLR `Token` constructor, `getName()` and `toString()` are not modelled. They are parser metadata with nothing to prove.
- Thread-safety of shared trees is not modelled: the model has no mutable state or concurrency. Runtime failures such as a missing child (a null reference) are also left out, because a `Node` value always has both children.
- The performance test (CORBA channels, timing, sender threads) is not modelled: it is I/O and concurrency with no logic of its own.
