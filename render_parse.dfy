/** A reference reader for the fully parenthesised rendering.

    Reading `Render(e)` back gives `e` whenever every variable name in `e`
    is a word that cannot be mistaken for a number or for punctuation. So
    the rendering of such trees loses nothing: two trees that render alike
    are the same tree, and a derivative's rendering identifies it too. */
module RenderParse {
  import opened Wrappers
  import Decimal
  import opened Symbolic

  predicate IsDelimiter(c: char) {
    c == ' ' || c == '(' || c == ')'
  }

  /** A name that reads back as a variable: non-empty, free of spaces and
      parentheses, and starting with neither a digit nor a minus sign. */
  predicate ValidName(n: string) {
    && |n| > 0
    && !Decimal.IsDigit(n[0])
    && n[0] != '-'
    && forall i :: 0 <= i < |n| ==> !IsDelimiter(n[i])
  }

  predicate WellNamed(e: Expr) {
    forall n :: n in Vars(e) ==> ValidName(n)
  }

  /** The length of the word at the front of `s`. */
  function WordLength(s: string): (k: nat)
    ensures k <= |s|
    ensures forall i :: 0 <= i < k ==> !IsDelimiter(s[i])
    ensures k < |s| ==> IsDelimiter(s[k])
  {
    if s == [] || IsDelimiter(s[0]) then 0 else 1 + WordLength(s[1..])
  }

  /** A word is a number or a variable name. */
  function ParseLeaf(w: string): Option<Expr> {
    if Decimal.IsIntLiteral(w) then Some(Const(Decimal.IntValue(w)))
    else if ValidName(w) then Some(Var(w))
    else None
  }

  /** The binary node an operator symbol stands for. */
  function MakeNode(op: char, l: Expr, r: Expr): (n: Option<Expr>)
    ensures n.Some? ==> Symbol(n.value) == op
  {
    if op == '+' then Some(Add(l, r))
    else if op == '-' then Some(Sub(l, r))
    else if op == '*' then Some(Mul(l, r))
    else if op == '/' then Some(Div(l, r))
    else if op == '^' then Some(Pow(l, r))
    else None
  }

  /** Reads one expression from the front of `s` and returns it with the
      text that follows it. */
  function ParseExpr(s: string): (r: Option<(Expr, string)>)
    ensures r.Some? ==> |r.value.1| < |s|
    decreases |s|, 1
  {
    if s == [] then None
    else if s[0] == '(' then ParseInfix(s[1..])
    else ParseWord(s)
  }

  /** Reads "L OP R)" from the front of `t`, the text after an opening
      parenthesis. */
  function ParseInfix(t: string): (r: Option<(Expr, string)>)
    ensures r.Some? ==> |r.value.1| < |t|
    decreases |t|, 2
  {
    match ParseExpr(t)
    case None => None
    case Some((l, s1)) =>
      if |s1| < 3 || s1[0] != ' ' || s1[2] != ' ' then None
      else
        match ParseExpr(s1[3..])
        case None => None
        case Some((r, s2)) =>
          if s2 == [] || s2[0] != ')' then None
          else
            match MakeNode(s1[1], l, r)
            case None => None
            case Some(node) => Some((node, s2[1..]))
  }

  /** Reads a number or a variable name from the front of `s`. */
  function ParseWord(s: string): (r: Option<(Expr, string)>)
    ensures r.Some? ==> |r.value.1| < |s|
  {
    var k := WordLength(s);
    if k == 0 then None
    else
      match ParseLeaf(s[..k])
      case None => None
      case Some(leaf) => Some((leaf, s[k..]))
  }

  /** A rendered tree ends where a space, a closing parenthesis or the end
      of the text follows it. */
  predicate EndsToken(rest: string) {
    rest == [] || rest[0] == ' ' || rest[0] == ')'
  }

  lemma {:induction false} WordLengthOf(w: string, rest: string)
    requires forall i :: 0 <= i < |w| ==> !IsDelimiter(w[i])
    requires EndsToken(rest)
    ensures WordLength(w + rest) == |w|
    decreases |w|
  {
    if w != [] {
      assert (w + rest)[1..] == w[1..] + rest;
      WordLengthOf(w[1..], rest);
    } else {
      assert w + rest == rest;
    }
  }

  lemma LeafRoundTrip(e: Expr, rest: string)
    requires e.Const? || e.Var?
    requires WellNamed(e)
    requires EndsToken(rest)
    ensures ParseExpr(Render(e) + rest) == Some((e, rest))
  {
    var w := Render(e);
    if e.Const? {
      Decimal.IntToStringValue(e.value);
    } else {
      assert e.name in Vars(e);
    }
    WordLengthOf(w, rest);
    assert (w + rest)[..|w|] == w;
    assert (w + rest)[|w|..] == rest;
  }

  /** Reading back the rendering of a well-named tree, followed by anything
      that ends a token, gives the tree and leaves what followed. */
  lemma {:induction false} ParseRender(e: Expr, rest: string)
    requires WellNamed(e)
    requires EndsToken(rest)
    ensures ParseExpr(Render(e) + rest) == Some((e, rest))
  {
    if e.Const? || e.Var? {
      LeafRoundTrip(e, rest);
    } else {
      var l, r := if e.Pow? then e.base else e.left, if e.Pow? then e.exponent else e.right;
      assert Vars(e) == Vars(l) + Vars(r);
      var op := Symbol(e);
      ParseRender(l, [' ', op, ' '] + Render(r) + ")" + rest);
      ParseRender(r, ")" + rest);
      assert MakeNode(op, l, r) == Some(e);
      InfixRoundTrip(Render(l), op, Render(r), rest, l, r, e);
    }
  }

  /** One step of the reader on a parenthesised node, given that each
      operand reads back on its own. */
  lemma InfixRoundTrip(ls: string, op: char, rs: string, rest: string, l: Expr, r: Expr, n: Expr)
    requires ParseExpr(ls + ([' ', op, ' '] + rs + ")" + rest)) == Some((l, [' ', op, ' '] + rs + ")" + rest))
    requires ParseExpr(rs + (")" + rest)) == Some((r, ")" + rest))
    requires MakeNode(op, l, r) == Some(n)
    ensures ParseExpr(Infix(ls, op, rs) + rest) == Some((n, rest))
  {
    var tail := [' ', op, ' '] + rs + ")" + rest;
    InfixText(ls, op, rs, rest);
    InfixStep(ls + tail, tail, op, rs + (")" + rest), ")" + rest, rest, l, r, n);
  }

  lemma InfixText(ls: string, op: char, rs: string, rest: string)
    ensures var s := Infix(ls, op, rs) + rest;
      |s| > 0 && s[0] == '(' && s[1..] == ls + ([' ', op, ' '] + rs + ")" + rest)
    ensures ([' ', op, ' '] + rs + ")" + rest)[3..] == rs + (")" + rest)
  {
  }

  lemma InfixStep(t: string, s1: string, op: char, t2: string, s2: string, rest: string, l: Expr, r: Expr, n: Expr)
    requires ParseExpr(t) == Some((l, s1))
    requires |s1| >= 3 && s1[0] == ' ' && s1[1] == op && s1[2] == ' ' && s1[3..] == t2
    requires ParseExpr(t2) == Some((r, s2))
    requires |s2| > 0 && s2[0] == ')' && s2[1..] == rest
    requires MakeNode(op, l, r) == Some(n)
    ensures ParseInfix(t) == Some((n, rest))
  {
  }

  /** The rendering of well-named trees is unambiguous. */
  lemma RenderInjective(a: Expr, b: Expr)
    requires WellNamed(a) && WellNamed(b)
    requires Render(a) == Render(b)
    ensures a == b
  {
    ParseRender(a, []);
    ParseRender(b, []);
    assert Render(a) + [] == Render(a);
    assert Render(b) + [] == Render(b);
  }

  /** Differentiating a well-named tree gives a well-named tree, so its
      rendering is unambiguous too. */
  lemma DiffWellNamed(e: Expr, v: string)
    requires WellNamed(e)
    requires Diff(e, v).Ok?
    ensures WellNamed(Diff(e, v).value)
  {
  }
}
