/** Symbolic expressions over named variables and their derivatives.

    The seven node kinds form a closed tree type. Nodes are immutable values:
    the arithmetic operators build a new node over their operands, and `Diff`
    builds a new, unsimplified derivative tree, or fails when it meets a power
    whose exponent is not a constant. */
module Symbolic {
  import opened Wrappers
  import Decimal

  datatype Expr =
    | Const(value: int)
    | Var(name: string)
    | Add(left: Expr, right: Expr)
    | Sub(left: Expr, right: Expr)
    | Mul(left: Expr, right: Expr)
    | Div(left: Expr, right: Expr)
    | Pow(base: Expr, exponent: Expr)
  {
    /** `self + other`: the receiver becomes the left operand. */
    function Plus(other: Expr): (r: Expr)
      ensures r.Add? && r.left == this && r.right == other
    {
      Add(this, other)
    }

    /** `self - other`. */
    function Minus(other: Expr): (r: Expr)
      ensures r.Sub? && r.left == this && r.right == other
    {
      Sub(this, other)
    }

    /** `self * other`. */
    function Times(other: Expr): (r: Expr)
      ensures r.Mul? && r.left == this && r.right == other
    {
      Mul(this, other)
    }

    /** `self / other`. */
    function Over(other: Expr): (r: Expr)
      ensures r.Div? && r.left == this && r.right == other
    {
      Div(this, other)
    }

    /** `self ** other`: the receiver becomes the base. No check on the
        exponent is made here; that is deferred to differentiation. */
    function ToThe(other: Expr): (r: Expr)
      ensures r.Pow? && r.base == this && r.exponent == other
    {
      Pow(this, other)
    }
  }

  /** The only error differentiation can raise. */
  datatype DiffError = UnsupportedExponent

  /** The names of the variables that occur in `e`. */
  function Vars(e: Expr): set<string> {
    match e
    case Const(_) => {}
    case Var(n) => {n}
    case Add(f, g) => Vars(f) + Vars(g)
    case Sub(f, g) => Vars(f) + Vars(g)
    case Mul(f, g) => Vars(f) + Vars(g)
    case Div(f, g) => Vars(f) + Vars(g)
    case Pow(b, x) => Vars(b) + Vars(x)
  }

  /** Every node of `e`, `e` itself included. */
  function Nodes(e: Expr): set<Expr> {
    match e
    case Const(_) => {e}
    case Var(_) => {e}
    case Add(f, g) => {e} + Nodes(f) + Nodes(g)
    case Sub(f, g) => {e} + Nodes(f) + Nodes(g)
    case Mul(f, g) => {e} + Nodes(f) + Nodes(g)
    case Div(f, g) => {e} + Nodes(f) + Nodes(g)
    case Pow(b, x) => {e} + Nodes(b) + Nodes(x)
  }

  /** Every power node in `e` has a constant exponent. */
  predicate ConstantExponents(e: Expr) {
    forall p :: p in Nodes(e) && p.Pow? ==> p.exponent.Const?
  }

  /** A tree has only constant exponents exactly when its children have and,
      if it is a power, its own exponent is a constant. */
  lemma ConstantExponentsByChildren(e: Expr)
    ensures e.Const? || e.Var? ==> ConstantExponents(e)
    ensures e.Add? || e.Sub? || e.Mul? || e.Div? ==>
      (ConstantExponents(e) <==> ConstantExponents(e.left) && ConstantExponents(e.right))
    ensures e.Pow? ==>
      (ConstantExponents(e) <==>
        e.exponent.Const? && ConstantExponents(e.base) && ConstantExponents(e.exponent))
  {
  }

  /** The derivative of `e` with respect to the variable named `v`.
      It fails exactly when some power in `e` has a non-constant exponent,
      and the derivative mentions no variable that `e` does not. */
  function Diff(e: Expr, v: string): (r: Result<Expr, DiffError>)
    ensures r.Ok? <==> ConstantExponents(e)
    ensures r.Ok? ==> Vars(r.value) <= Vars(e)
  {
    ConstantExponentsByChildren(e);
    match e
    case Const(_) => Ok(Const(0))
    case Var(n) => Ok(if n == v then Const(1) else Const(0))
    case Add(f, g) =>
      var df :- Diff(f, v);
      var dg :- Diff(g, v);
      Ok(Add(df, dg))
    case Sub(f, g) =>
      var df :- Diff(f, v);
      var dg :- Diff(g, v);
      Ok(Sub(df, dg))
    case Mul(f, g) =>
      var df :- Diff(f, v);
      var dg :- Diff(g, v);
      Ok(Add(Mul(df, g), Mul(f, dg)))
    case Div(f, g) =>
      var df :- Diff(f, v);
      var dg :- Diff(g, v);
      assert Vars(Sub(Mul(df, g), Mul(f, dg))) <= Vars(e);
      assert Vars(Mul(g, g)) == Vars(g);
      Ok(Div(Sub(Mul(df, g), Mul(f, dg)), Mul(g, g)))
    case Pow(b, x) =>
      if x.Const? then
        var db :- Diff(b, v);
        assert Vars(x) == Vars(Const(x.value - 1)) == {};
        assert Vars(Mul(x, Pow(b, Const(x.value - 1)))) == Vars(b);
        Ok(Mul(Mul(x, Pow(b, Const(x.value - 1))), db))
      else
        Err(UnsupportedExponent)
  }

  /** The operator symbol a binary node is rendered with. */
  function Symbol(e: Expr): char {
    match e
    case Add(_, _) => '+'
    case Sub(_, _) => '-'
    case Mul(_, _) => '*'
    case Div(_, _) => '/'
    case Pow(_, _) => '^'
    case _ => ' '
  }

  function Infix(l: string, op: char, r: string): (s: string)
    ensures |s| == |l| + |r| + 5 && s[0] == '(' && s[|s| - 1] == ')'
  {
    "(" + l + [' ', op, ' '] + r + ")"
  }

  /** The fully parenthesised infix text of `e`: every binary node is
      wrapped in its own pair of parentheses. */
  function Render(e: Expr): (r: string)
    ensures !(e.Const? || e.Var?) ==> |r| >= 5 && r[0] == '(' && r[|r| - 1] == ')'
  {
    match e
    case Const(c) => Decimal.IntToString(c)
    case Var(n) => n
    case Add(f, g) => Infix(Render(f), Symbol(e), Render(g))
    case Sub(f, g) => Infix(Render(f), Symbol(e), Render(g))
    case Mul(f, g) => Infix(Render(f), Symbol(e), Render(g))
    case Div(f, g) => Infix(Render(f), Symbol(e), Render(g))
    case Pow(b, x) => Infix(Render(b), Symbol(e), Render(x))
  }

  // ---------------------------------------------------------------------
  // The differentiation rules, one node kind at a time.

  /** A constant differentiates to 0, whatever the variable. */
  lemma DiffConst(c: int, v: string)
    ensures Diff(Const(c), v) == Ok(Const(0))
  {
  }

  /** A variable differentiates to 1 exactly when its name is the variable's
      name, and to 0 exactly when it is not. */
  lemma DiffVar(n: string, v: string)
    ensures Diff(Var(n), v) == Ok(Const(1)) <==> n == v
    ensures Diff(Var(n), v) == Ok(Const(0)) <==> n != v
  {
  }

  /** Sum rule: a sum differentiates to the sum of the derivatives, and fails
      when either operand does. */
  lemma DiffAdd(f: Expr, g: Expr, v: string)
    ensures Diff(Add(f, g), v).Ok? <==> Diff(f, v).Ok? && Diff(g, v).Ok?
    ensures Diff(Add(f, g), v).Ok? ==>
      Diff(Add(f, g), v).value == Add(Diff(f, v).value, Diff(g, v).value)
  {
  }

  /** Difference rule. */
  lemma DiffSub(f: Expr, g: Expr, v: string)
    ensures Diff(Sub(f, g), v).Ok? <==> Diff(f, v).Ok? && Diff(g, v).Ok?
    ensures Diff(Sub(f, g), v).Ok? ==>
      Diff(Sub(f, g), v).value == Sub(Diff(f, v).value, Diff(g, v).value)
  {
  }

  /** Product rule: (f * g)' = f' * g + f * g', with f and g reused as they are. */
  lemma DiffMul(f: Expr, g: Expr, v: string)
    ensures Diff(Mul(f, g), v).Ok? <==> Diff(f, v).Ok? && Diff(g, v).Ok?
    ensures Diff(Mul(f, g), v).Ok? ==>
      Diff(Mul(f, g), v).value == Add(Mul(Diff(f, v).value, g), Mul(f, Diff(g, v).value))
  {
  }

  /** Quotient rule: (f / g)' = (f' * g - f * g') / (g * g). */
  lemma DiffDiv(f: Expr, g: Expr, v: string)
    ensures Diff(Div(f, g), v).Ok? <==> Diff(f, v).Ok? && Diff(g, v).Ok?
    ensures Diff(Div(f, g), v).Ok? ==>
      Diff(Div(f, g), v).value ==
        Div(Sub(Mul(Diff(f, v).value, g), Mul(f, Diff(g, v).value)), Mul(g, g))
  {
  }

  /** Power rule with a constant exponent n: (b ^ n)' = (n * b ^ (n - 1)) * b'. */
  lemma DiffPowConst(b: Expr, n: int, v: string)
    ensures Diff(Pow(b, Const(n)), v).Ok? <==> Diff(b, v).Ok?
    ensures Diff(Pow(b, Const(n)), v).Ok? ==>
      Diff(Pow(b, Const(n)), v).value ==
        Mul(Mul(Const(n), Pow(b, Const(n - 1))), Diff(b, v).value)
  {
  }

  /** Any other exponent is refused, whatever the base. */
  lemma DiffPowOther(b: Expr, x: Expr, v: string)
    requires !x.Const?
    ensures Diff(Pow(b, x), v) == Err(UnsupportedExponent)
  {
  }

  // ---------------------------------------------------------------------
  // Properties of the whole rule set.

  /** The variable only matters through comparison with the names in the
      tree: two variables that occur nowhere in `e` give the same result. */
  lemma {:induction false} DiffAbsentVar(e: Expr, v: string, w: string)
    requires v !in Vars(e) && w !in Vars(e)
    ensures Diff(e, v) == Diff(e, w)
  {
    match e
    case Const(_) =>
    case Var(_) =>
    case Add(f, g) => DiffAbsentVar(f, v, w); DiffAbsentVar(g, v, w);
    case Sub(f, g) => DiffAbsentVar(f, v, w); DiffAbsentVar(g, v, w);
    case Mul(f, g) => DiffAbsentVar(f, v, w); DiffAbsentVar(g, v, w);
    case Div(f, g) => DiffAbsentVar(f, v, w); DiffAbsentVar(g, v, w);
    case Pow(b, x) => DiffAbsentVar(b, v, w);
  }

  /** Whether differentiation succeeds does not depend on the variable. */
  lemma DiffSuccessIndependentOfVar(e: Expr, v: string, w: string)
    ensures Diff(e, v).Ok? <==> Diff(e, w).Ok?
  {
  }

  /** A failing subtree makes the whole tree fail: no partial derivative is
      ever returned. */
  lemma {:induction false} DiffFailurePropagates(e: Expr, p: Expr, v: string)
    requires p in Nodes(e)
    requires Diff(p, v).Err?
    ensures Diff(e, v) == Err(UnsupportedExponent)
  {
    var q :| q in Nodes(p) && q.Pow? && !q.exponent.Const?;
    NodesClosed(e, p);
    assert q in Nodes(e);
    match Diff(e, v)
    case Err(UnsupportedExponent) =>
  }

  /** Every node of a node of `e` is a node of `e`. */
  lemma {:induction false} NodesClosed(e: Expr, p: Expr)
    requires p in Nodes(e)
    ensures Nodes(p) <= Nodes(e)
  {
    if p != e {
      match e
      case Const(_) =>
      case Var(_) =>
      case Add(f, g) => if p in Nodes(f) { NodesClosed(f, p); } else { NodesClosed(g, p); }
      case Sub(f, g) => if p in Nodes(f) { NodesClosed(f, p); } else { NodesClosed(g, p); }
      case Mul(f, g) => if p in Nodes(f) { NodesClosed(f, p); } else { NodesClosed(g, p); }
      case Div(f, g) => if p in Nodes(f) { NodesClosed(f, p); } else { NodesClosed(g, p); }
      case Pow(b, x) => if p in Nodes(b) { NodesClosed(b, p); } else { NodesClosed(x, p); }
    }
  }

  // ---------------------------------------------------------------------
  // Rendering.

  /** A leaf renders as its value or its name; a binary node as
      "(" + left + " OP " + right + ")" with OP one of + - * / ^. */
  lemma RenderShape(e: Expr)
    ensures e.Const? ==> Render(e) == Decimal.IntToString(e.value)
    ensures e.Var? ==> Render(e) == e.name
    ensures e.Add? ==> Render(e) == "(" + Render(e.left) + " + " + Render(e.right) + ")"
    ensures e.Sub? ==> Render(e) == "(" + Render(e.left) + " - " + Render(e.right) + ")"
    ensures e.Mul? ==> Render(e) == "(" + Render(e.left) + " * " + Render(e.right) + ")"
    ensures e.Div? ==> Render(e) == "(" + Render(e.left) + " / " + Render(e.right) + ")"
    ensures e.Pow? ==> Render(e) == "(" + Render(e.base) + " ^ " + Render(e.exponent) + ")"
  {
  }
}
