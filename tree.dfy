/** The expression tree and the order in which `accept` visits its nodes.
    An argument leaf holds a number; an operator node holds a symbol and two
    optional children. `accept` is a post-order walk: left subtree, right
    subtree, then the node itself, silently skipping a missing child. */
module ExprTree {

  datatype Option<T> = None | Some(value: T)

  /** `SArgumentNode` is `Arg`, `SOperatorNode` is `Op`. The operator symbol
      is not validated: any character may appear. */
  datatype Node =
    | Arg(v: int)
    | Op(c: char, left: Option<Node>, right: Option<Node>)

  /** The nodes handed to the visitor by `t.accept(v)`, in call order. */
  function PostOrder(t: Node): seq<Node>
    decreases t
  {
    match t
    case Arg(_) => [t]
    case Op(_, l, r) => Visits(l) + Visits(r) + [t]
  }

  /** The visits made for an optional child: none when it is absent. */
  function Visits(o: Option<Node>): seq<Node>
    decreases o
  {
    match o
    case None => []
    case Some(n) => PostOrder(n)
  }

  /** Something is visited, and the node itself is visited last; an argument
      leaf is visited once and nothing else is. */
  lemma {:induction false} PostOrderShape(t: Node)
    ensures |PostOrder(t)| > 0 && PostOrder(t)[|PostOrder(t)| - 1] == t
    ensures t.Arg? ==> PostOrder(t) == [t]
  {
  }

  // ---------------------------------------------------------------------
  // An independent description of post-order, by positions in the tree.
  // A position is the path of left/right steps from the root; it names a
  // node occurrence even when two subtrees happen to be equal values.

  datatype Side = L | R

  type Path = seq<Side>

  /** The child of `t` on side `s`; an argument leaf has none. */
  function Child(t: Node, s: Side): Option<Node>
  {
    match t
    case Arg(_) => None
    case Op(_, l, r) => if s == L then l else r
  }

  /** `p` leads from `t` to a node through present children only. */
  predicate ValidPath(t: Node, p: Path)
    decreases |p|
  {
    p == [] || (Child(t, p[0]).Some? && ValidPath(Child(t, p[0]).value, p[1..]))
  }

  /** The node at position `p` of `t`. */
  function At(t: Node, p: Path): Node
    requires ValidPath(t, p)
    decreases |p|
  {
    if p == [] then t else At(Child(t, p[0]).value, p[1..])
  }

  /** Post-order precedence of positions: `p` is visited before `q` when `p`
      lies inside the subtree at `q`, or when the two part ways with `p` going
      left and `q` going right. */
  predicate Before(p: Path, q: Path)
    decreases |p|
  {
    |p| > 0 &&
    (q == [] || (p[0] == L && q[0] == R) || (p[0] == q[0] && Before(p[1..], q[1..])))
  }

  lemma {:induction false} BeforeIrreflexive(p: Path)
    ensures !Before(p, p)
    decreases |p|
  {
    if |p| > 0 {
      BeforeIrreflexive(p[1..]);
    }
  }

  /** Every path of `ps` with `s` put in front. */
  function Under(s: Side, ps: seq<Path>): (r: seq<Path>)
    ensures |r| == |ps|
    ensures forall i :: 0 <= i < |ps| ==> r[i] == [s] + ps[i]
  {
    seq(|ps|, i requires 0 <= i < |ps| => [s] + ps[i])
  }

  /** The positions of `t`, listed in the order the visits of `PostOrder` occur. */
  function Positions(t: Node): seq<Path>
    decreases t
  {
    match t
    case Arg(_) => [[]]
    case Op(_, l, r) => Under(L, ChildPositions(l)) + Under(R, ChildPositions(r)) + [[]]
  }

  /** The positions of an optional child, relative to that child. */
  function ChildPositions(o: Option<Node>): seq<Path>
    decreases o
  {
    match o
    case None => []
    case Some(n) => Positions(n)
  }

  lemma AtChild(t: Node, s: Side, p: Path)
    requires Child(t, s).Some?
    ensures ValidPath(t, [s] + p) == ValidPath(Child(t, s).value, p)
    ensures ValidPath(t, [s] + p) ==> At(t, [s] + p) == At(Child(t, s).value, p)
  {
  }

  lemma BeforeUnder(s: Side, p: Path, q: Path)
    ensures Before([s] + p, [s] + q) == Before(p, q)
  {
  }

  /** Visit `i` of `vs` is the node at position `ps[i]` of `t`. */
  predicate VisitsAt(t: Node, vs: seq<Node>, ps: seq<Path>)
  {
    |vs| == |ps| && forall i :: 0 <= i < |ps| ==> ValidPath(t, ps[i]) && vs[i] == At(t, ps[i])
  }

  lemma VisitsAtConcat(t: Node, vs: seq<Node>, ps: seq<Path>, ws: seq<Node>, qs: seq<Path>)
    requires VisitsAt(t, vs, ps) && VisitsAt(t, ws, qs)
    ensures VisitsAt(t, vs + ws, ps + qs)
  {
  }

  lemma VisitsAtChild(t: Node, s: Side, vs: seq<Node>, ps: seq<Path>)
    requires Child(t, s).Some? && VisitsAt(Child(t, s).value, vs, ps)
    ensures VisitsAt(t, vs, Under(s, ps))
  {
  }

  /** `accept` visits, one after another, the node at each position of the
      tree. */
  lemma {:induction false} PostOrderAtPositions(t: Node)
    ensures VisitsAt(t, PostOrder(t), Positions(t))
  {
    match t
    case Arg(_) =>
    case Op(_, l, r) =>
      var vl, vr := Visits(l), Visits(r);
      var pl, pr := Under(L, ChildPositions(l)), Under(R, ChildPositions(r));
      if l.Some? {
        PostOrderAtPositions(l.value);
        VisitsAtChild(t, L, vl, ChildPositions(l));
      }
      if r.Some? {
        PostOrderAtPositions(r.value);
        VisitsAtChild(t, R, vr, ChildPositions(r));
      }
      assert VisitsAt(t, [t], [[]]);
      VisitsAtConcat(t, vl, pl, vr, pr);
      VisitsAtConcat(t, vl + vr, pl + pr, [t], [[]]);
  }

  /** The visited positions are exactly the positions of the tree: every node
      reachable through present children is visited, and a position through
      an absent child is not. */
  lemma {:induction false} PositionsComplete(t: Node, p: Path)
    ensures p in Positions(t) <==> ValidPath(t, p)
    decreases |p|
  {
    if !ValidPath(t, p) {
      PostOrderAtPositions(t);
      forall i | 0 <= i < |Positions(t)| ensures Positions(t)[i] != p {
      }
    } else if p != [] {
      var s, q := p[0], p[1..];
      assert p == [s] + q;
      var child := Child(t, s);
      PositionsComplete(child.value, q);
      var k :| 0 <= k < |ChildPositions(child)| && ChildPositions(child)[k] == q;
      var pl, pr := Under(L, ChildPositions(t.left)), Under(R, ChildPositions(t.right));
      assert Positions(t) == pl + pr + [[]];
      if s == L {
        assert pl[k] == p;
      } else {
        assert pr[k] == p;
      }
    } else {
      assert Positions(t)[|Positions(t)| - 1] == p;
    }
  }

  /** The visits are in post-order. */
  lemma {:induction false} PositionsInPostOrder(t: Node)
    ensures forall i, j :: 0 <= i < j < |Positions(t)| ==> Before(Positions(t)[i], Positions(t)[j])
  {
    match t
    case Arg(_) =>
    case Op(_, l, r) =>
      var cl, cr := ChildPositions(l), ChildPositions(r);
      var pl, pr := Under(L, cl), Under(R, cr);
      var P := Positions(t);
      assert P == pl + pr + [[]];
      if l.Some? {
        PositionsInPostOrder(l.value);
        assert cl == Positions(l.value);
      }
      if r.Some? {
        PositionsInPostOrder(r.value);
        assert cr == Positions(r.value);
      }
      forall i, j | 0 <= i < j < |P| ensures Before(P[i], P[j]) {
        if j == |P| - 1 {
          assert |P[i]| > 0;
        } else if j < |pl| {
          assert P[i] == pl[i] && P[j] == pl[j];
          BeforeUnder(L, cl[i], cl[j]);
        } else if |pl| <= i {
          assert P[i] == pr[i - |pl|] && P[j] == pr[j - |pl|];
          BeforeUnder(R, cr[i - |pl|], cr[j - |pl|]);
        } else {
          assert P[i] == [L] + cl[i] && P[j] == [R] + cr[j - |pl|];
          assert P[i][0] == L && P[j][0] == R;
        }
      }
  }

  /** Each node occurrence of the tree is visited exactly once: the positions
      are pairwise distinct. */
  lemma PositionsDistinct(t: Node)
    ensures forall i, j :: 0 <= i < j < |Positions(t)| ==> Positions(t)[i] != Positions(t)[j]
  {
    PositionsInPostOrder(t);
    forall i, j | 0 <= i < j < |Positions(t)| ensures Positions(t)[i] != Positions(t)[j] {
      BeforeIrreflexive(Positions(t)[i]);
    }
  }
}
