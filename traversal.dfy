/** `accept`: the recursive walk that hands each node to a visitor. The
    source dispatches through a visitor interface; here there is one walk per
    visitor class, each with the same shape (left child if present, right
    child if present, then the node itself). */
module Traversal {
  import opened ExprTree
  import opened PostFix
  import opened Calculate

  lemma AppendAssoc(before: string, a: string, b: string, c: string)
    ensures before + a + b + c == before + (a + b + c)
  {
  }

  /** The visits of an operator node's children, left then right, followed
      by the node itself, render as the whole post-order does. */
  lemma RenderOperator(t: Node, before: string)
    requires t.Op?
    ensures before + Render(Visits(t.left)) + Render(Visits(t.right)) + [t.c] + " "
         == before + Render(PostOrder(t))
  {
    var vl, vr := Visits(t.left), Visits(t.right);
    var a, b, c := Render(vl), Render(vr), [t.c] + " ";
    RenderConcat(vl, vr);
    RenderConcat(vl + vr, [t]);
    assert Render([t]) == c;
    assert Render(PostOrder(t)) == a + b + c;
    AppendAssoc(before, a, b, c);
  }

  /** `t.accept(v)` with the postfix printer: the buffer gains, after what it
      already held, the token and a space of each node in post-order. */
  method AcceptPostFix(t: Node, v: PostFixPrintVisitor)
    modifies v
    ensures v.output == old(v.output) + Render(PostOrder(t))
    decreases t
  {
    match t
    case Arg(_) =>
      v.VisitArgumentNode(t);
      assert Render([t]) == ValToString(t.v) + " ";
    case Op(c, l, r) =>
      ghost var before := v.output;
      if l.Some? {
        AcceptPostFix(l.value, v);
      }
      ghost var afterLeft := v.output;
      assert afterLeft == before + Render(Visits(l));
      if r.Some? {
        AcceptPostFix(r.value, v);
      }
      assert v.output == afterLeft + Render(Visits(r));
      v.VisitOperatorNode(t);
      RenderOperator(t, before);
  }

  /** `t.accept(v)` with the evaluator: the stack becomes what the stack
      machine computes over the post-order visits. The walk must not pop an
      empty stack, which the source leaves undefined. */
  method AcceptCalculate(t: Node, v: CalculateVisitor)
    requires Exec(v.calcStack, PostOrder(t)).Some?
    modifies v
    ensures v.calcStack == Exec(old(v.calcStack), PostOrder(t)).value
    decreases t
  {
    match t
    case Arg(_) =>
      assert [t][1..] == [];
      v.VisitArgumentNode(t);
    case Op(c, l, r) =>
      ExecOperatorVisits(t, v.calcStack);
      if l.Some? {
        AcceptCalculate(l.value, v);
      }
      if r.Some? {
        AcceptCalculate(r.value, v);
      }
      v.VisitOperatorNode(t);
  }

  /** `t.accept(v)` with the evaluator on a well-formed tree: the value of
      the tree is pushed and the stack below it is unchanged. */
  method AcceptCalculateWellFormed(t: Node, v: CalculateVisitor)
    requires WellFormed(t)
    modifies v
    ensures v.calcStack == old(v.calcStack) + [Eval(t)]
  {
    ExecPostOrder(t, v.calcStack);
    AcceptCalculate(t, v);
  }
}
