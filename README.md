# Expression tree with visitors, in Dafny

This project models a small C++ expression-tree program. The tree has two
kinds of node: an argument leaf (`SArgumentNode`) holding a number, and an
operator node (`SOperatorNode`) holding a `char` and optional `left` and
`right` children. `accept` walks the tree in post-order. It visits the left
subtree, then the right subtree, then the node itself, and it skips a missing
child without complaint. Two visitors consume the walk:

- `SPostFixPrintVisitor` appends one token and one space per visited node to
  its `output` string, so the result is the expression in postfix notation.
- `SCalculateVisitor` is a stack machine over `calcStack`. It pushes each
  argument. At each operator it pops the right operand `a`, then the left
  operand `b`, and pushes `b + a` for `+` or `b - a` for `-`.

Files and modules:

- `tree.dfy`, module `ExprTree`: the `Node` datatype and `PostOrder`, the
  sequence of nodes that `accept` hands to a visitor. It also gives a second,
  independent description of post-order by tree positions (paths of
  left/right steps). The lemmas prove that `PostOrder` visits the node at
  each position, visits every position, and visits them in post-order, so no
  node is visited twice.
- `postfix.dfy`, module `PostFix`: the text of a number (`ValToString`), the
  text appended for a run of visits (`Render`), and the class
  `PostFixPrintVisitor`. The lemmas prove that the printed text can be read
  back: splitting at spaces gives the tokens in visit order, and each
  number's text gives back the number.
- `calculate.dfy`, module `Calculate`: one visit of the stack machine
  (`Step`), a run of visits (`Exec`), the recursive value of a well-formed
  tree (`Eval`), and the class `CalculateVisitor`. The main theorem,
  `ExecPostOrder`, says that the machine run over a well-formed tree pushes
  exactly `Eval(t)` and leaves the stack below unchanged.
- `traversal.dfy`, module `Traversal`: `accept` as a recursive method, one per
  visitor class. Each is proved to leave its visitor in the state given by the
  specification functions above.

The evaluator's stack is a `seq<int>` whose last element is the top. A tree is
well-formed when every operator node has both children and a symbol `+` or
`-`.

Popping an empty `std::stack` is undefined behaviour in the source, and the
source reports no errors. `Exec` returns `None` when a visit would pop an
empty stack. The visitor methods and `AcceptCalculate` require that this does
not happen. The model adds no error kinds.

The code decides what happens with an operator symbol other than `+` or `-`.
The operands are popped before the `switch` (src/main.cpp:77-81). So such a
visit drops two values and pushes nothing; the stack shrinks by two.
`VisitOperatorNode` states this. `UnknownOperatorDropsOperands` shows the
effect on a whole subtree: the subtree leaves the stack as it found it, and
the operator's result is lost without notice.

## Model

| member | source | states |
|---|---|---|
| `ExprTree.PostOrder` | src/main.cpp:29-48 | definition (no ensures; the body is the specification): the nodes `accept` hands to the visitor, in call order: an argument node alone, or an operator node's left child's visits, its right child's visits, then the node itself |
| `ExprTree.Visits` | src/main.cpp:40-45 | definition (no ensures): the visits made for an optional child, none when the pointer is null |
| `ExprTree.PostOrderShape` | src/main.cpp:29-31 | accepting an argument node visits it once and visits nothing else; every walk visits at least one node and ends with the node it was started on |
| `ExprTree.PostOrderAtPositions` | src/main.cpp:39-48 | the i-th node handed to the visitor is the node at the i-th listed position, and each listed position exists in the tree |
| `ExprTree.PositionsComplete` | src/main.cpp:39-48 | a position is visited if and only if it leads through present children: every reachable node is visited, and absent children contribute no visits |
| `ExprTree.PositionsInPostOrder` | src/main.cpp:39-48 | the visits are in post-order: descendants before their ancestor, and the left subtree wholly before the right subtree |
| `ExprTree.PositionsDistinct` | src/main.cpp:39-48 | no node is visited twice |
| `PostFix.Digits` | src/main.cpp:55 | the decimal digits of a natural number are a non-empty run of the characters `0` to `9` |
| `PostFix.DigitsRoundTrip` | src/main.cpp:55 | reading the digits back gives the number |
| `PostFix.ValToString` | src/main.cpp:55 | the text of a whole-number double is longer than the fixed `.000000` suffix, ends with it, and contains no space |
| `PostFix.ValToStringRoundTrip` | src/main.cpp:55 | the text of a value gives the value back, so different values print differently |
| `PostFix.Token` | src/main.cpp:54-62 | definition (no ensures): the token the printer appends for a node, the value's text for an argument and the symbol character for an operator |
| `PostFix.Render` | src/main.cpp:54-62 | definition (no ensures): the text appended for a run of visits, each node's token followed by one space, in visit order |
| `PostFix.RenderShape` | src/main.cpp:54-62 | the appended text is empty exactly when nothing was visited, otherwise ends in a space, and has at least two characters per visit |
| `PostFix.RenderConcat` | src/main.cpp:54-62 | the text for two runs of visits is the text of the first followed by the text of the second, so earlier output is always a prefix |
| `PostFix.RenderSplit` | src/main.cpp:54-62 | when no operator symbol is a space, splitting the text at spaces gives back the tokens in visit order, one per visit |
| `PostFix.PostFixPrintVisitor.constructor` | src/main.cpp:51-52 | a new printer's output is empty |
| `PostFix.PostFixPrintVisitor.VisitArgumentNode` | src/main.cpp:54-57 | output becomes the old output, then the argument's text, then one space |
| `PostFix.PostFixPrintVisitor.VisitOperatorNode` | src/main.cpp:59-62 | output becomes the old output, then the operator's symbol, then one space |
| `PostFix.PostFixPrintVisitor.Print` | src/main.cpp:64-66 | returns the output as it is and changes nothing, so repeated calls agree |
| `Calculate.Apply` | src/main.cpp:83-90 | definition (no ensures): what the `switch` pushes after popping `a` then `b`: `b + a` for `+`, `b - a` for `-`, nothing otherwise |
| `Calculate.Step` | src/main.cpp:72-90 | definition (no ensures): the stack after one visit; an argument is pushed; an operator pops the top two values and pushes what `Apply` gives; `None` when fewer than two values are there (an undefined pop in the source) |
| `Calculate.Exec` | src/main.cpp:72-90 | definition (no ensures): the stack after a run of visits, one `Step` at a time; `None` once any step pops an empty stack |
| `Calculate.WellFormed` | src/main.cpp:34-48 | definition (no ensures): every operator node has both children and the symbol `+` or `-` |
| `Calculate.Eval` | src/main.cpp:83-90 | definition (no ensures): the recursive value of a well-formed tree, left operand plus or minus right operand; the reference that `ExecPostOrder` compares the stack machine with |
| `Calculate.ExecConcat` | src/main.cpp:69-91 | running two runs of visits one after the other is running their concatenation; an empty-stack pop in the first makes the whole run undefined |
| `Calculate.ExecOperator` | src/main.cpp:76-90 | when the left subtree pushes `b` and the right subtree then pushes `a`, the operator node leaves `b + a`, `b - a` or nothing in their place |
| `Calculate.ExecPostOrder` | src/main.cpp:72-90 | the stack machine over a well-formed tree pushes exactly the tree's recursive value, and the stack below is unchanged |
| `Calculate.UnknownOperatorDropsOperands` | src/main.cpp:83-90 | an operator with an unknown symbol over two well-formed subtrees leaves the stack exactly as before the subtree, losing its result |
| `Calculate.ExecOperatorVisits` | src/main.cpp:39-48 | the machine over an operator node's walk runs its left child's visits, then its right child's, then one step for the node, and stops at the first undefined pop |
| `Calculate.MissingOperandUnderflows` | src/main.cpp:77-81 | for an operator node with a missing child and well-formed present children, the walk pops an empty stack exactly when the stack held fewer values than the missing operands |
| `Calculate.CalculateVisitor.constructor` | src/main.cpp:69-70 | a new evaluator's stack is empty |
| `Calculate.CalculateVisitor.VisitArgumentNode` | src/main.cpp:72-74 | the argument is pushed; the stack grows by one and the earlier values are unchanged |
| `Calculate.CalculateVisitor.VisitOperatorNode` | src/main.cpp:76-91 | needs two values; the first pop is the right operand `a`, the second the left operand `b`; pushes `b + a` for `+`, `b - a` for `-`, nothing for any other symbol; the values below the top two are unchanged |
| `Calculate.CalculateVisitor.Print` | src/main.cpp:93-95 | needs a non-empty stack; returns the text of the top value without popping it, changing nothing |
| `Traversal.AcceptPostFix` | src/main.cpp:39-48 | accepting the printer appends, after the existing output, each node's token and a space in post-order |
| `Traversal.AcceptCalculate` | src/main.cpp:39-48 | accepting the evaluator leaves the stack the machine computes over the post-order visits, provided no visit pops an empty stack |
| `Traversal.AcceptCalculateWellFormed` | src/main.cpp:39-48 | accepting the evaluator over a well-formed tree pushes the tree's value onto the old stack |

## Left out

- `main()` (src/main.cpp:98-112) is not modelled. It builds a fixed demonstration tree and writes both results to `cout`.
- Values are unbounded integers, not `double`. Floating-point rounding, overflow, NaN and infinities are not modelled. `b + a` and `b - a` are exact.
- `to_string(double)` is modelled only for whole-number values, as the digits followed by `.000000`. That is what it prints for a double holding an integer. The demonstration's operands `10.3` and `4.7` are not representable.
- The `SVisitor` interface and virtual dispatch are not modelled as such. Each visitor class has its own recursive `accept` method (`AcceptPostFix`, `AcceptCalculate`), and both follow the same left, right, self walk.
- `unique_ptr` and `shared_ptr` ownership is not modelled. The tree is an immutable datatype value, so it has no sharing or cycles.
- The `left` and `right` pointers that `SArgumentNode` inherits from `SNode` are not modelled. Its `accept` never looks at them.
- Popping or reading the top of an empty stack is undefined behaviour in the source. It is excluded by `requires` clauses, or marked as `None` by `Exec`, and not modelled as an error report.
