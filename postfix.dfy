/** The postfix printer: an append-only text buffer that receives one token
    and one space per visited node. */
module PostFix {
  import opened ExprTree

  /** The character of a decimal digit `d`. */
  function DigitChar(d: nat): char
    requires d < 10
  {
    ('0' as int + d) as char
  }

  /** The value of a decimal digit character, 0 for any other character. */
  function DigitValue(ch: char): nat
  {
    if '0' <= ch <= '9' then (ch as int - '0' as int) as nat else 0
  }

  /** Decimal digits of `n`, most significant first, without leading zeros. */
  function Digits(n: nat): (s: string)
    ensures |s| >= 1
    ensures forall i :: 0 <= i < |s| ==> '0' <= s[i] <= '9'
  {
    if n < 10 then [DigitChar(n)] else Digits(n / 10) + [DigitChar(n % 10)]
  }

  /** The number written by a string of decimal digits. */
  function ParseDigits(s: string): nat
  {
    if s == [] then 0 else ParseDigits(s[..|s| - 1]) * 10 + DigitValue(s[|s| - 1])
  }

  lemma {:induction false} DigitsRoundTrip(n: nat)
    ensures ParseDigits(Digits(n)) == n
  {
    var s := Digits(n);
    if n >= 10 {
      DigitsRoundTrip(n / 10);
      assert s[..|s| - 1] == Digits(n / 10);
    }
  }

  /** `to_string` of a double holding the integer `v`: an optional minus
      sign, the decimal digits, then six fractional zeros. */
  function ValToString(v: int): (s: string)
    ensures |s| > 7 && s[|s| - 7..] == ".000000"
    ensures ' ' !in s
  {
    (if v < 0 then "-" else "") + Digits(if v < 0 then -v else v) + ".000000"
  }

  /** Reads back the integer that `ValToString` wrote. */
  function ParseVal(s: string): int
  {
    var body := if |s| >= 7 then s[..|s| - 7] else s;
    if |body| > 0 && body[0] == '-' then -(ParseDigits(body[1..]) as int) else ParseDigits(body)
  }

  lemma ParseValSigned(negative: bool, d: string)
    requires |d| > 0 && d[0] != '-'
    ensures ParseVal((if negative then "-" else "") + d + ".000000") ==
      if negative then -(ParseDigits(d) as int) else ParseDigits(d)
  {
    var body := (if negative then "-" else "") + d;
    var s := body + ".000000";
    assert s[..|s| - 7] == body;
    if negative {
      assert body[0] == '-' && body[1..] == d;
    } else {
      assert body == d;
    }
  }

  /** Distinct values are printed as distinct text: the rendering of a value
      determines it. */
  lemma ValToStringRoundTrip(v: int)
    ensures ParseVal(ValToString(v)) == v
  {
    var n: nat := if v < 0 then -v else v;
    DigitsRoundTrip(n);
    ParseValSigned(v < 0, Digits(n));
  }

  /** The token the printer writes for node `n`: its number, or its symbol. */
  function Token(n: Node): string
  {
    match n
    case Arg(v) => ValToString(v)
    case Op(c, _, _) => [c]
  }

  /** The text appended for the visits `vs`: each token followed by one space. */
  function Render(vs: seq<Node>): (s: string)
  {
    if vs == [] then [] else Token(vs[0]) + " " + Render(vs[1..])
  }

  /** The text is empty exactly when nothing was visited, otherwise it ends
      in a space; each visit contributes at least a token character and a
      space. */
  lemma {:induction false} RenderShape(vs: seq<Node>)
    ensures vs == [] <==> Render(vs) == []
    ensures vs != [] ==> Render(vs)[|Render(vs)| - 1] == ' '
    ensures |Render(vs)| >= 2 * |vs|
  {
    if vs != [] {
      RenderShape(vs[1..]);
    }
  }

  lemma {:induction false} RenderConcat(vs: seq<Node>, ws: seq<Node>)
    ensures Render(vs + ws) == Render(vs) + Render(ws)
  {
    if vs == [] {
      assert vs + ws == ws;
    } else {
      assert (vs + ws)[1..] == vs[1..] + ws;
      RenderConcat(vs[1..], ws);
    }
  }

  // ---------------------------------------------------------------------
  // Reading the printed text back into tokens.

  /** Index of the first space in `s`, or `|s|` when there is none. */
  function IndexOfSpace(s: string): (k: nat)
    ensures k <= |s|
    ensures forall i :: 0 <= i < k ==> s[i] != ' '
    ensures k < |s| ==> s[k] == ' '
  {
    if s == [] then 0 else if s[0] == ' ' then 0 else 1 + IndexOfSpace(s[1..])
  }

  /** The space-terminated words of `s` (a final unterminated word is kept). */
  function Split(s: string): seq<string>
    decreases |s|
  {
    if s == [] then []
    else
      var k := IndexOfSpace(s);
      if k == |s| then [s] else [s[..k]] + Split(s[k + 1..])
  }

  lemma SplitWord(w: string, rest: string)
    requires ' ' !in w
    ensures Split(w + " " + rest) == [w] + Split(rest)
  {
    var s := w + " " + rest;
    var k := IndexOfSpace(s);
    assert s[|w|] == ' ';
    assert forall i :: 0 <= i < |w| ==> s[i] == w[i];
    assert k == |w|;
    assert s[..k] == w && s[k + 1..] == rest;
  }

  /** The tokens of the visits `vs`, one per visit. */
  function Tokens(vs: seq<Node>): (ts: seq<string>)
    ensures |ts| == |vs|
    ensures forall i :: 0 <= i < |vs| ==> ts[i] == Token(vs[i])
  {
    seq(|vs|, i requires 0 <= i < |vs| => Token(vs[i]))
  }

  /** No operator among `vs` uses the separator as its symbol. */
  predicate NoSpaceOperator(vs: seq<Node>)
  {
    forall i :: 0 <= i < |vs| ==> vs[i].Op? ==> vs[i].c != ' '
  }

  lemma NoSpaceOperatorTail(vs: seq<Node>)
    requires vs != [] && NoSpaceOperator(vs)
    ensures ' ' !in Token(vs[0]) && NoSpaceOperator(vs[1..])
  {
  }

  /** Splitting the printed text at its spaces gives back the tokens in visit
      order, as long as no operator symbol is itself a space. */
  lemma {:induction false} RenderSplit(vs: seq<Node>)
    requires NoSpaceOperator(vs)
    ensures Split(Render(vs)) == Tokens(vs)
  {
    if vs != [] {
      var w, rest := Token(vs[0]), vs[1..];
      NoSpaceOperatorTail(vs);
      assert Render(vs) == w + " " + Render(rest);
      SplitWord(w, Render(rest));
      RenderSplit(rest);
      assert Tokens(vs) == [w] + Tokens(rest);
    }
  }

  /** `SPostFixPrintVisitor`. */
  class PostFixPrintVisitor {
    var output: string

    constructor ()
      ensures output == ""
    {
      output := "";
    }

    /** Appends the argument's text, then a space. */
    method VisitArgumentNode(n: Node)
      requires n.Arg?
      modifies this
      ensures output == old(output) + ValToString(n.v) + " "
    {
      output := output + ValToString(n.v);
      output := output + " ";
    }

    /** Appends the operator's symbol, then a space. */
    method VisitOperatorNode(n: Node)
      requires n.Op?
      modifies this
      ensures output == old(output) + [n.c] + " "
    {
      output := output + [n.c];
      output := output + " ";
    }

    /** Returns the buffer as it stands; the visitor is not changed. */
    method Print() returns (s: string)
      ensures s == output
    {
      s := output;
    }
  }
}
