/**
  * The filter-expression tree of the Extended Trader Constraint Language, reduced to the
  * substring operator `~` and the leaves it needs, with evaluation and static analysis.
  */
module TclNode {
  import opened Results
  import opened JavaStrings
  import opened EvaluationResults

  /** A node of the constraint tree. The leaves stand for the sibling node classes:
      a string literal, a static leaf whose value does not depend on the event, and
      a field reference into the event. */
  datatype Node =
    | StringLiteral(text: string)
    | StaticLeaf(id: nat)
    | Field(path: string)
    | Substr(left: Node, right: Node)

  /** The meaning of the parts of the tree that are not the `~` operator and do not depend
      on the event: what each static leaf evaluates to, and how non-string results are
      rendered as strings. */
  datatype Interpretation = Interpretation(
    constant: nat -> Result<EvaluationResult, EvaluationError>,
    render: Rendering)

  /** The evaluation context: the event being filtered, seen through field resolution,
      which fails when the field is absent or cannot be read. */
  datatype Context = Context(resolve: string -> Result<EvaluationResult, EvaluationError>)

  /** All subtrees of `n`, `n` included. */
  function Subtrees(n: Node): set<Node> {
    match n
    case Substr(left, right) => {n} + Subtrees(left) + Subtrees(right)
    case _ => {n}
  }

  /** Number of nodes of `n`. */
  function Size(n: Node): nat {
    match n
    case Substr(left, right) => 1 + Size(left) + Size(right)
    case _ => 1
  }

  /** `evaluate(context)`. For `~`: the left operand is evaluated and coerced to a
      string, then the right one, and the result is TRUE when the left string occurs
      in the right one. A failure of either operand is the result, the left one first. */
  function Evaluate(n: Node, it: Interpretation, ctx: Context): (r: Result<EvaluationResult, EvaluationError>)
    decreases n, 0
    ensures n.Substr? ==>
      match OperandString(n.left, it, ctx)
      case Failure(e) => r == Failure(e)
      case Success(needle) =>
        match OperandString(n.right, it, ctx)
        case Failure(e) => r == Failure(e)
        case Success(hay) => r == Success(Bool(IsSubstring(needle, hay)))
  {
    match n
    case StringLiteral(text) => Success(Str(text))
    case StaticLeaf(id) => it.constant(id)
    case Field(path) => ctx.resolve(path)
    case Substr(left, right) =>
      var lv :- Evaluate(left, it, ctx);
      var l :- GetString(lv, it.render);
      var rv :- Evaluate(right, it, ctx);
      var r :- GetString(rv, it.render);
      Success(if IndexOf(r, l) == -1 then BoolFalse else BoolTrue)
  }

  /** An operand of `~` as the operator sees it: `evaluate(context).getString()`. */
  function OperandString(n: Node, it: Interpretation, ctx: Context): Result<string, EvaluationError>
    decreases n, 1
  {
    var v :- Evaluate(n, it, ctx);
    GetString(v, it.render)
  }

  /** `isStatic()`: literals and static leaves are static, a field reference is not, and
      `~` is static exactly when both operands are. Equivalently, no field reference
      occurs anywhere in the tree. */
  predicate IsStatic(n: Node)
    ensures IsStatic(n) <==> forall t :: t in Subtrees(n) ==> !t.Field?
  {
    match n
    case StringLiteral(_) => true
    case StaticLeaf(_) => true
    case Field(_) => assert n in Subtrees(n); false
    case Substr(left, right) => IsStatic(left) && IsStatic(right)
  }

  /** `~` yields TRUE exactly when the right operand's string contains the left operand's
      string, and FALSE otherwise: the left operand is the needle, the right the haystack. */
  lemma SubstrTrueIffContained(left: Node, right: Node, it: Interpretation, ctx: Context)
    requires OperandString(left, it, ctx).Success? && OperandString(right, it, ctx).Success?
    ensures var needle, hay := OperandString(left, it, ctx).value, OperandString(right, it, ctx).value;
      && (Evaluate(Substr(left, right), it, ctx) == Success(BoolTrue) <==> IsSubstring(needle, hay))
      && (Evaluate(Substr(left, right), it, ctx) == Success(BoolFalse) <==> !IsSubstring(needle, hay))
  {
  }

  /** `~` succeeds exactly when both operands have strings, and its result is then one of
      the two shared booleans, never a string or a number. */
  lemma SubstrYieldsSharedBoolean(left: Node, right: Node, it: Interpretation, ctx: Context)
    ensures var res := Evaluate(Substr(left, right), it, ctx);
      && (res.Success? <==> OperandString(left, it, ctx).Success? && OperandString(right, it, ctx).Success?)
      && (res.Success? ==> res.value == BoolTrue || res.value == BoolFalse)
  {
  }

  /** A failure of the left operand (in its evaluation or its coercion) is the result,
      whatever the right operand is: the right operand is never evaluated. */
  lemma SubstrLeftFailurePropagates(left: Node, right: Node, it: Interpretation, ctx: Context)
    requires OperandString(left, it, ctx).Failure?
    ensures Evaluate(Substr(left, right), it, ctx) == Failure(OperandString(left, it, ctx).error)
  {
  }

  /** Once the left operand has its string, a failure of the right operand is the result. */
  lemma SubstrRightFailurePropagates(left: Node, right: Node, it: Interpretation, ctx: Context)
    requires OperandString(left, it, ctx).Success? && OperandString(right, it, ctx).Failure?
    ensures Evaluate(Substr(left, right), it, ctx) == Failure(OperandString(right, it, ctx).error)
  {
  }

  /** An empty left string is contained in every right string. */
  lemma SubstrEmptyNeedle(left: Node, right: Node, it: Interpretation, ctx: Context)
    requires OperandString(left, it, ctx) == Success("") && OperandString(right, it, ctx).Success?
    ensures Evaluate(Substr(left, right), it, ctx) == Success(BoolTrue)
  {
  }

  /** Two operands whose strings differ never both yield TRUE when swapped:
      `~` is not symmetric. */
  lemma SubstrNotSymmetric(left: Node, right: Node, it: Interpretation, ctx: Context)
    requires OperandString(left, it, ctx).Success? && OperandString(right, it, ctx).Success?
    requires OperandString(left, it, ctx) != OperandString(right, it, ctx)
    ensures Evaluate(Substr(left, right), it, ctx) != Success(BoolTrue)
         || Evaluate(Substr(right, left), it, ctx) != Success(BoolTrue)
  {
    var a, b := OperandString(left, it, ctx).value, OperandString(right, it, ctx).value;
    if IsSubstring(a, b) && IsSubstring(b, a) {
      SubstringAntisymmetric(a, b);
    }
  }

  /** Literal cases: "lo" ~ "hello" and "" ~ "anything" are TRUE; "hello" ~ "lo" and
      "xo" ~ "hello" are FALSE, in every context. */
  lemma SubstrExamples(it: Interpretation, ctx: Context)
    ensures Evaluate(Substr(StringLiteral("lo"), StringLiteral("hello")), it, ctx) == Success(BoolTrue)
    ensures Evaluate(Substr(StringLiteral(""), StringLiteral("anything")), it, ctx) == Success(BoolTrue)
    ensures Evaluate(Substr(StringLiteral("hello"), StringLiteral("lo")), it, ctx) == Success(BoolFalse)
    ensures Evaluate(Substr(StringLiteral("xo"), StringLiteral("hello")), it, ctx) == Success(BoolFalse)
  {
    assert OccursAt("lo", "hello", 3);
    assert "anything"[0..0] == "";
    forall k: nat ensures !OccursAt("xo", "hello", k) {
      if k + 2 <= 5 {
        assert "hello"[k..k + 2][0] == "hello"[k];
        assert k == 0 || k == 1 || k == 2 || k == 3;
      }
    }
    SubstringIsOccurrence("xo", "hello");
    forall k: nat ensures !OccursAt("hello", "lo", k) {
    }
    SubstringIsOccurrence("hello", "lo");
  }

  /** A static tree evaluates to the same result in every context: its value never
      depends on the event being filtered, so it can be folded once. */
  lemma {:induction false} StaticIsContextFree(n: Node, it: Interpretation, ctx1: Context, ctx2: Context)
    requires IsStatic(n)
    ensures Evaluate(n, it, ctx1) == Evaluate(n, it, ctx2)
  {
    match n
    case Substr(left, right) =>
      StaticIsContextFree(left, it, ctx1, ctx2);
      StaticIsContextFree(right, it, ctx1, ctx2);
    case _ =>
  }
}
