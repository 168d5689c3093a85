/** The evaluator: a stack machine driven by the visits. The stack is a
    sequence whose last element is the top. */
module Calculate {
  import opened ExprTree
  import PostFix

  /** What the source does with operator symbol `c` once it has popped the
      right operand `a` and the left operand `b`: push `b + a` for '+',
      `b - a` for '-', and nothing for any other symbol. */
  function Apply(c: char, b: int, a: int): seq<int>
  {
    if c == '+' then [b + a] else if c == '-' then [b - a] else []
  }

  /** One visit. `None` marks popping an empty stack, which is undefined
      behaviour in the source (no error is reported there). */
  function Step(st: seq<int>, n: Node): Option<seq<int>>
  {
    match n
    case Arg(v) => Some(st + [v])
    case Op(c, _, _) =>
      if |st| < 2 then None
      else Some(st[..|st| - 2] + Apply(c, st[|st| - 2], st[|st| - 1]))
  }

  /** The stack after the visits `vs`, starting from `st`. */
  function Exec(st: seq<int>, vs: seq<Node>): Option<seq<int>>
    decreases |vs|
  {
    if vs == [] then Some(st)
    else match Step(st, vs[0])
      case None => None
      case Some(st') => Exec(st', vs[1..])
  }

  /** Running two visit sequences one after the other is running their
      concatenation; undefined behaviour in the first is undefined behaviour
      of the whole. */
  lemma {:induction false} ExecConcat(st: seq<int>, vs: seq<Node>, ws: seq<Node>)
    ensures Exec(st, vs + ws) ==
      match Exec(st, vs)
      case None => None
      case Some(mid) => Exec(mid, ws)
    decreases |vs|
  {
    if vs == [] {
      assert vs + ws == ws;
    } else {
      assert (vs + ws)[0] == vs[0] && (vs + ws)[1..] == vs[1..] + ws;
      match Step(st, vs[0])
      case None =>
      case Some(st') => ExecConcat(st', vs[1..], ws);
    }
  }

  /** Every operator has both children and a symbol the evaluator knows. */
  predicate WellFormed(t: Node)
  {
    match t
    case Arg(_) => true
    case Op(c, l, r) =>
      (c == '+' || c == '-') && l.Some? && r.Some? && WellFormed(l.value) && WellFormed(r.value)
  }

  /** The value of a well-formed tree, by structural recursion. */
  function Eval(t: Node): int
    requires WellFormed(t)
  {
    match t
    case Arg(v) => v
    case Op(c, l, r) =>
      if c == '+' then Eval(l.value) + Eval(r.value) else Eval(l.value) - Eval(r.value)
  }

  /** An operator node whose left subtree pushes `b` and whose right subtree
      then pushes `a` leaves `Apply(c, b, a)` in their place. */
  lemma ExecOperator(c: char, l: Node, r: Node, st: seq<int>, b: int, a: int)
    requires Exec(st, PostOrder(l)) == Some(st + [b])
    requires Exec(st + [b], PostOrder(r)) == Some(st + [b] + [a])
    ensures Exec(st, PostOrder(Op(c, Some(l), Some(r)))) == Some(st + Apply(c, b, a))
  {
    var t := Op(c, Some(l), Some(r));
    assert PostOrder(t) == PostOrder(l) + (PostOrder(r) + [t]);
    ExecConcat(st, PostOrder(l), PostOrder(r) + [t]);
    ExecConcat(st + [b], PostOrder(r), [t]);
    var full := st + [b] + [a];
    assert full[..|full| - 2] == st && full[|full| - 2] == b && full[|full| - 1] == a;
    assert Step(full, t) == Some(st + Apply(c, b, a));
    assert [t][1..] == [];
  }

  /** The main theorem: running the stack machine over the visits of a
      well-formed tree pushes exactly its value and leaves the stack below
      untouched. */
  lemma {:induction false} ExecPostOrder(t: Node, st: seq<int>)
    requires WellFormed(t)
    ensures Exec(st, PostOrder(t)) == Some(st + [Eval(t)])
  {
    match t
    case Arg(v) =>
      assert PostOrder(t) == [t];
      assert [t][1..] == [];
    case Op(c, l, r) =>
      var a, b := Eval(r.value), Eval(l.value);
      ExecPostOrder(l.value, st);
      ExecPostOrder(r.value, st + [b]);
      ExecOperator(c, l.value, r.value, st, b, a);
  }

  /** An unknown operator over two well-formed operands consumes both and
      pushes nothing, so the whole subtree leaves the stack as it found it:
      the operator's result is silently lost. */
  lemma UnknownOperatorDropsOperands(c: char, l: Node, r: Node, st: seq<int>)
    requires c != '+' && c != '-'
    requires WellFormed(l) && WellFormed(r)
    ensures Exec(st, PostOrder(Op(c, Some(l), Some(r)))) == Some(st)
  {
    var b, a := Eval(l), Eval(r);
    ExecPostOrder(l, st);
    ExecPostOrder(r, st + [b]);
    ExecOperator(c, l, r, st, b, a);
    assert Apply(c, b, a) == [];
    assert st + [] == st;
  }

  /** The stack machine over an operator node's visits: its left child's
      visits, then its right child's, then the node itself. */
  lemma ExecOperatorVisits(t: Node, st: seq<int>)
    requires t.Op?
    ensures Exec(st, PostOrder(t)) ==
      match Exec(st, Visits(t.left))
      case None => None
      case Some(mid) =>
        match Exec(mid, Visits(t.right))
        case None => None
        case Some(last) => Step(last, t)
  {
    var vl, vr := Visits(t.left), Visits(t.right);
    assert PostOrder(t) == vl + (vr + [t]);
    ExecConcat(st, vl, vr + [t]);
    match Exec(st, vl)
    case None =>
    case Some(mid) =>
      ExecConcat(mid, vr, [t]);
      assert [t][1..] == [];
  }

  /** The number of children of `t` that are present. */
  function PresentChildren(t: Node): nat
  {
    match t
    case Arg(_) => 0
    case Op(_, l, r) => (if l.Some? then 1 else 0) + (if r.Some? then 1 else 0)
  }

  /** An operator node with a missing child, whose present child (if any) is
      well-formed, pops an empty stack unless the stack already held enough
      values to make up for the missing operands: each present child pushes
      one value, and the operator needs two. */
  lemma MissingOperandUnderflows(t: Node, st: seq<int>)
    requires t.Op? && PresentChildren(t) < 2
    requires t.left.Some? ==> WellFormed(t.left.value)
    requires t.right.Some? ==> WellFormed(t.right.value)
    ensures Exec(st, PostOrder(t)) == None <==> |st| + PresentChildren(t) < 2
  {
    ExecOperatorVisits(t, st);
    var l, r := t.left, t.right;
    var mid := if l.Some? then st + [Eval(l.value)] else st;
    if l.Some? {
      ExecPostOrder(l.value, st);
    }
    assert Exec(st, Visits(l)) == Some(mid);
    var last := if r.Some? then mid + [Eval(r.value)] else mid;
    if r.Some? {
      ExecPostOrder(r.value, mid);
    }
    assert Exec(mid, Visits(r)) == Some(last);
    assert |last| == |st| + PresentChildren(t);
  }

  /** `SCalculateVisitor`. */
  class CalculateVisitor {
    var calcStack: seq<int>

    constructor ()
      ensures calcStack == []
    {
      calcStack := [];
    }

    /** Pushes the argument; the values already on the stack are kept. */
    method VisitArgumentNode(n: Node)
      requires n.Arg?
      modifies this
      ensures calcStack == old(calcStack) + [n.v]
    {
      calcStack := calcStack + [n.v];
    }

    /** Pops the right operand `a`, then the left operand `b`, and pushes
        `b + a` for '+', `b - a` for '-', nothing for any other symbol. The
        values below the top two are kept. */
    method VisitOperatorNode(n: Node)
      requires n.Op?
      requires |calcStack| >= 2
      modifies this
      ensures var s := old(calcStack);
        var a, b := s[|s| - 1], s[|s| - 2];
        calcStack == s[..|s| - 2] + (if n.c == '+' then [b + a] else if n.c == '-' then [b - a] else [])
    {
      var a := calcStack[|calcStack| - 1];
      calcStack := calcStack[..|calcStack| - 1];
      var b := calcStack[|calcStack| - 1];
      calcStack := calcStack[..|calcStack| - 1];
      calcStack := calcStack + Apply(n.c, b, a);
    }

    /** Returns the text of the top value without popping it. */
    method Print() returns (s: string)
      requires |calcStack| > 0
      ensures s == PostFix.ValToString(calcStack[|calcStack| - 1])
    {
      s := PostFix.ValToString(calcStack[|calcStack| - 1]);
    }
  }
}
