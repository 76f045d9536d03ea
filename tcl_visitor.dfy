/**
  * The three visitor walks of a constraint tree. Each node calls back the visitor method of
  * its own kind (`visitSubstr` for `~`); a callback may throw a `VisitorException`, which
  * aborts the walk and reaches its caller.
  */
module TclVisitor {
  import opened Results
  import opened TclNode

  datatype VisitorException = VisitorException(reason: string)

  /** A visitor callback. The visitor is stateful: what it does with a node may depend on
      the callbacks it has received before, which are passed as the first argument. */
  type Callback = (seq<Node>, Node) -> Option<VisitorException>

  /** A visitor: `visitSubstr`, and one callback shared by all other node kinds, which
      receives the node. */
  datatype Visitor = Visitor(visitSubstr: Callback, visitOther: Callback)

  /** The outcome of a walk: the callbacks made, in order (when the walk failed, the last
      one is the callback that threw), and the exception that aborted it, if any. */
  datatype Walk = Walk(calls: seq<Node>, failure: Option<VisitorException>) {
    predicate Failed() {
      failure.Some?
    }
  }

  /** Double dispatch: a node calls the visitor method of its own kind. */
  function Dispatch(n: Node, v: Visitor, before: seq<Node>): Option<VisitorException> {
    if n.Substr? then v.visitSubstr(before, n) else v.visitOther(before, n)
  }

  /** One callback for node `n`, after the callbacks `before`. */
  function Visit(n: Node, v: Visitor, before: seq<Node>): Walk {
    Walk([n], Dispatch(n, v, before))
  }

  /** A walk that continues after a completed one. */
  function Then(w: Walk, next: Walk): Walk
    requires !w.Failed()
  {
    Walk(w.calls + next.calls, next.failure)
  }

  /** Reference semantics of a walk: call back the nodes of `order` one after another,
      stopping at the first callback that throws. */
  function Run(order: seq<Node>, v: Visitor, before: seq<Node>): Walk
    decreases |order|
  {
    if order == [] then Walk([], None)
    else
      var first := Visit(order[0], v, before);
      if first.Failed() then first
      else Then(first, Run(order[1..], v, before + [order[0]]))
  }

  /** The callback of the `k`-th node of `order` returns normally. */
  ghost predicate Passes(order: seq<Node>, v: Visitor, before: seq<Node>, k: nat)
    requires k < |order|
  {
    Dispatch(order[k], v, before + order[..k]).None?
  }

  /** A run calls back a prefix of its order, and at least one node when there is one. */
  lemma {:induction false} RunCallsPrefix(order: seq<Node>, v: Visitor, before: seq<Node>)
    ensures Run(order, v, before).calls <= order
    ensures order != [] ==> Run(order, v, before).calls != []
    decreases |order|
  {
    if order != [] && !Visit(order[0], v, before).Failed() {
      RunCallsPrefix(order[1..], v, before + [order[0]]);
    }
  }

  /** A run stops at the first callback that throws: every callback before the last one
      returned normally, and the run's outcome is that of its last callback. Together with
      `RunCallsPrefix` and `RunCompletes` this determines the run entirely. */
  lemma {:induction false} RunStopsAtFirstFailure(order: seq<Node>, v: Visitor, before: seq<Node>)
    ensures var w := Run(order, v, before);
      && |w.calls| <= |order|
      && (forall k: nat :: k < |w.calls| - 1 ==> Passes(order, v, before, k))
      && (w.calls != [] ==> w.failure == Dispatch(order[|w.calls| - 1], v, before + order[..|w.calls| - 1]))
    decreases |order|
  {
    RunCallsPrefix(order, v, before);
    if order != [] {
      assert before + order[..0] == before;
      if !Visit(order[0], v, before).Failed() {
        var rest, after := order[1..], before + [order[0]];
        RunStopsAtFirstFailure(rest, v, after);
        forall k | 1 <= k < |order|
          ensures order[k] == rest[k - 1] && before + order[..k] == after + rest[..k - 1]
        {
          assert order[..k] == [order[0]] + rest[..k - 1];
        }
        assert Passes(order, v, before, 0);
        forall k: nat | 1 <= k < |order| && Passes(rest, v, after, k - 1)
          ensures Passes(order, v, before, k)
        {
        }
      }
    }
  }

  /** Running two orders one after the other is running the first, then, unless it
      failed, the second. */
  lemma {:induction false} RunAppend(a: seq<Node>, b: seq<Node>, v: Visitor, before: seq<Node>)
    ensures Run(a + b, v, before) ==
      var wa := Run(a, v, before);
      if wa.Failed() then wa else Then(wa, Run(b, v, before + a))
  {
    if a == [] {
      assert a + b == b;
      assert before + a == before;
    } else {
      assert (a + b)[0] == a[0];
      assert (a + b)[1..] == a[1..] + b;
      RunAppend(a[1..], b, v, before + [a[0]]);
      assert before + [a[0]] + a[1..] == before + a;
    }
  }

  /** Pre-order: the node itself, then the left subtree, then the right subtree. */
  function PreOrder(n: Node): (s: seq<Node>)
    ensures |s| == Size(n) && s[0] == n
  {
    match n
    case Substr(left, right) => [n] + PreOrder(left) + PreOrder(right)
    case _ => [n]
  }

  /** In-order: the left subtree, then the node itself, then the right subtree. */
  function InOrder(n: Node): (s: seq<Node>)
    ensures |s| == Size(n)
    ensures n.Substr? ==> s[Size(n.left)] == n
  {
    match n
    case Substr(left, right) => InOrder(left) + [n] + InOrder(right)
    case _ => [n]
  }

  /** Post-order: the left subtree, then the right subtree, then the node itself. */
  function PostOrder(n: Node): (s: seq<Node>)
    ensures |s| == Size(n) && s[|s| - 1] == n
  {
    match n
    case Substr(left, right) => PostOrder(left) + PostOrder(right) + [n]
    case _ => [n]
  }

  /** A run that did not fail has called back every node of its order. */
  lemma {:induction false} RunCompletes(order: seq<Node>, v: Visitor, before: seq<Node>)
    ensures !Run(order, v, before).Failed() ==> Run(order, v, before).calls == order
    decreases |order|
  {
    if order != [] && !Visit(order[0], v, before).Failed() {
      RunCompletes(order[1..], v, before + [order[0]]);
    }
  }

  /** A run over a single node is that node's callback. */
  lemma RunSingle(n: Node, v: Visitor, before: seq<Node>)
    ensures Run([n], v, before) == Visit(n, v, before)
  {
  }

  /** `acceptPreOrder(visitor)`: `visitSubstr(this)`, then the left walk, then the right
      walk; a leaf calls back its own visitor method. The walk calls back the nodes of
      `PreOrder(n)` in turn and is aborted by the first callback that throws. */
  function AcceptPreOrder(n: Node, v: Visitor, before: seq<Node>): (w: Walk)
    ensures w == Run(PreOrder(n), v, before)
  {
    RunSingle(n, v, before);
    match n
    case Substr(left, right) =>
      RunAppend([n], PreOrder(left), v, before);
      RunAppend([n] + PreOrder(left), PreOrder(right), v, before);
      RunCompletes(PreOrder(left), v, before + [n]);
      assert before + [n] + PreOrder(left) == before + ([n] + PreOrder(left));
      var self := Visit(n, v, before);
      if self.Failed() then self
      else
        var l := Then(self, AcceptPreOrder(left, v, before + self.calls));
        if l.Failed() then l
        else Then(l, AcceptPreOrder(right, v, before + l.calls))
    case _ => Visit(n, v, before)
  }

  /** `acceptInOrder(visitor)`: the left walk, then `visitSubstr(this)`, then the right walk.
      The walk calls back the nodes of `InOrder(n)` in turn and is aborted by the first
      callback that throws. */
  function AcceptInOrder(n: Node, v: Visitor, before: seq<Node>): (w: Walk)
    ensures w == Run(InOrder(n), v, before)
  {
    match n
    case Substr(left, right) =>
      RunCompletes(InOrder(left), v, before);
      RunSingle(n, v, before + InOrder(left));
      RunAppend(InOrder(left), [n], v, before);
      RunAppend(InOrder(left) + [n], InOrder(right), v, before);
      assert before + InOrder(left) + [n] == before + (InOrder(left) + [n]);
      var l := AcceptInOrder(left, v, before);
      if l.Failed() then l
      else
        var self := Then(l, Visit(n, v, before + l.calls));
        if self.Failed() then self
        else Then(self, AcceptInOrder(right, v, before + self.calls))
    case _ => RunSingle(n, v, before); Visit(n, v, before)
  }

  /** `acceptPostOrder(visitor)`: the left walk, then the right walk, then `visitSubstr(this)`.
      The walk calls back the nodes of `PostOrder(n)` in turn and is aborted by the first
      callback that throws. */
  function AcceptPostOrder(n: Node, v: Visitor, before: seq<Node>): (w: Walk)
    ensures w == Run(PostOrder(n), v, before)
  {
    match n
    case Substr(left, right) =>
      RunCompletes(PostOrder(left), v, before);
      RunAppend(PostOrder(left), PostOrder(right), v, before);
      RunCompletes(PostOrder(right), v, before + PostOrder(left));
      RunSingle(n, v, before + (PostOrder(left) + PostOrder(right)));
      RunAppend(PostOrder(left) + PostOrder(right), [n], v, before);
      assert before + PostOrder(left) + PostOrder(right) == before + (PostOrder(left) + PostOrder(right));
      var l := AcceptPostOrder(left, v, before);
      if l.Failed() then l
      else
        var r := Then(l, AcceptPostOrder(right, v, before + l.calls));
        if r.Failed() then r
        else Then(r, Visit(n, v, before + r.calls))
    case _ => RunSingle(n, v, before); Visit(n, v, before)
  }

  /** Pre-order and in-order visit the same multiset of nodes. */
  lemma {:induction false} PreAndInOrderSameNodes(n: Node)
    ensures multiset(PreOrder(n)) == multiset(InOrder(n))
  {
    match n
    case Substr(left, right) =>
      PreAndInOrderSameNodes(left);
      PreAndInOrderSameNodes(right);
      assert PreOrder(n) == [n] + PreOrder(left) + PreOrder(right);
      assert InOrder(n) == InOrder(left) + [n] + InOrder(right);
    case _ =>
  }

  /** In-order and post-order visit the same multiset of nodes. */
  lemma {:induction false} InAndPostOrderSameNodes(n: Node)
    ensures multiset(InOrder(n)) == multiset(PostOrder(n))
  {
    match n
    case Substr(left, right) =>
      InAndPostOrderSameNodes(left);
      InAndPostOrderSameNodes(right);
      assert InOrder(n) == InOrder(left) + [n] + InOrder(right);
      assert PostOrder(n) == PostOrder(left) + PostOrder(right) + [n];
    case _ =>
  }

  /** The three orders visit the same multiset of nodes, one entry per node of the tree. */
  lemma OrdersVisitSameNodes(n: Node)
    ensures multiset(PreOrder(n)) == multiset(InOrder(n)) == multiset(PostOrder(n))
  {
    PreAndInOrderSameNodes(n);
    InAndPostOrderSameNodes(n);
  }

  /** Each walk order lists exactly the subtrees of the tree. */
  lemma {:induction false} OrdersListSubtrees(n: Node)
    ensures forall t :: t in PreOrder(n) <==> t in Subtrees(n)
    ensures forall t :: t in InOrder(n) <==> t in Subtrees(n)
    ensures forall t :: t in PostOrder(n) <==> t in Subtrees(n)
  {
    match n
    case Substr(left, right) =>
      OrdersListSubtrees(left);
      OrdersListSubtrees(right);
      assert PreOrder(n) == [n] + PreOrder(left) + PreOrder(right);
      assert InOrder(n) == InOrder(left) + [n] + InOrder(right);
      assert PostOrder(n) == PostOrder(left) + PostOrder(right) + [n];
    case _ =>
  }
}
