/** Concrete trees: the example function of the module's entry point and a
    few single cases, each with its exact derivative and rendering. The
    renderings are established one tree level at a time. */
module Demo {
  import opened Wrappers
  import opened Symbolic
  import Decimal

  const X: Expr := Var("x")

  /** f(x) = 3 * x ^ 2 + 2 * x, as the entry point builds it. */
  const F: Expr := Add(Mul(Const(3), Pow(X, Const(2))), Mul(Const(2), X))

  /** The same tree written with the operators. */
  lemma OperatorsBuildF()
    ensures Const(3).Times(X.ToThe(Const(2))).Plus(Const(2).Times(X)) == F
  {
  }

  /** df/dx as the rules build it. */
  const DF: Expr := Add(
    Add(Mul(Const(0), Pow(X, Const(2))), Mul(Const(3), Mul(Mul(Const(2), Pow(X, Const(1))), Const(1)))),
    Add(Mul(Const(0), X), Mul(Const(2), Const(1))))

  /** df/dx, unsimplified: each rule's shape survives, down to the `* 1`
      the power rule leaves for the derivative of the base. */
  lemma DemoDerivative()
    ensures Diff(F, "x") == Ok(DF)
  {
    var square := Pow(X, Const(2));
    var dSquare := Mul(Mul(Const(2), Pow(X, Const(1))), Const(1));
    assert Diff(square, "x") == Ok(dSquare);
    assert Diff(Mul(Const(3), square), "x") == Ok(Add(Mul(Const(0), square), Mul(Const(3), dSquare)));
    assert Diff(Mul(Const(2), X), "x") == Ok(Add(Mul(Const(0), X), Mul(Const(2), Const(1))));
  }

  lemma RenderSquare()
    ensures Render(Pow(X, Const(2))) == "(x ^ 2)"
  {
    assert Render(Const(2)) == "2";
  }

  lemma RenderThreeSquare()
    ensures Render(Mul(Const(3), Pow(X, Const(2)))) == "(3 * (x ^ 2))"
  {
    RenderSquare();
    assert Render(Const(3)) == "3";
  }

  lemma RenderTwoX()
    ensures Render(Mul(Const(2), X)) == "(2 * x)"
  {
    assert Render(Const(2)) == "2";
  }

  /** The rendering of f. */
  lemma DemoFunctionRendering()
    ensures Render(F) == "((3 * (x ^ 2)) + (2 * x))"
  {
    RenderThreeSquare();
    RenderTwoX();
  }

  lemma RenderTwoXPower()
    ensures Render(Mul(Const(2), Pow(X, Const(1)))) == "(2 * (x ^ 1))"
  {
    assert Render(Const(1)) == "1";
    assert Render(Const(2)) == "2";
    assert Render(Pow(X, Const(1))) == "(x ^ 1)";
  }

  lemma RenderSquareDerivative()
    ensures Render(Mul(Mul(Const(2), Pow(X, Const(1))), Const(1))) == "((2 * (x ^ 1)) * 1)"
  {
    RenderTwoXPower();
    assert Render(Const(1)) == "1";
  }

  lemma RenderProductPart()
    ensures Render(Mul(Const(3), Mul(Mul(Const(2), Pow(X, Const(1))), Const(1)))) == "(3 * ((2 * (x ^ 1)) * 1))"
  {
    RenderSquareDerivative();
    assert Render(Const(3)) == "3";
  }

  lemma RenderZeroSquare()
    ensures Render(Mul(Const(0), Pow(X, Const(2)))) == "(0 * (x ^ 2))"
  {
    RenderSquare();
    assert Render(Const(0)) == "0";
  }

  lemma LeftDerivativeText()
    ensures "(" + "(0 * (x ^ 2))" + [' ', '+', ' '] + "(3 * ((2 * (x ^ 1)) * 1))" + ")" ==
      "((0 * (x ^ 2)) + (3 * ((2 * (x ^ 1)) * 1)))"
  {
  }

  lemma RenderLeftDerivative()
    ensures Render(DF.left) == "((0 * (x ^ 2)) + (3 * ((2 * (x ^ 1)) * 1)))"
  {
    RenderZeroSquare();
    RenderProductPart();
    RenderFrom(DF.left, "(0 * (x ^ 2))", "(3 * ((2 * (x ^ 1)) * 1))");
    LeftDerivativeText();
  }

  lemma RenderZeroX()
    ensures Render(Mul(Const(0), X)) == "(0 * x)"
  {
    assert Render(Const(0)) == "0";
  }

  lemma RenderTwoOne()
    ensures Render(Mul(Const(2), Const(1))) == "(2 * 1)"
  {
    assert Render(Const(1)) == "1";
    assert Render(Const(2)) == "2";
  }

  lemma RenderRightDerivative()
    ensures Render(DF.right) == "((0 * x) + (2 * 1))"
  {
    RenderZeroX();
    RenderTwoOne();
  }

  /** Renders a binary node from the renderings of its operands. */
  lemma RenderFrom(e: Expr, ls: string, rs: string)
    requires e.Add? || e.Sub? || e.Mul? || e.Div?
    requires Render(e.left) == ls && Render(e.right) == rs
    ensures Render(e) == "(" + ls + [' ', Symbol(e), ' '] + rs + ")"
  {
  }

  // The lemmas below, down to DerivativePrefix, and NumeratorText,
  // DerivativeText, QuotientPrefix and QuotientText further on, are proof scaffolding only:
  // equalities between string literals, split up so that each stays cheap
  // for the solver. They state nothing about the engine.

  /** Opening a parenthesis in front of a long text, one chunk at a time. */
  lemma OpenParen(a1: string, a2: string, t1: string, t: string)
    requires "(" + a1 == t1 && t1 + a2 == t
    ensures "(" + (a1 + a2) == t
  {
    assert "(" + (a1 + a2) == ("(" + a1) + a2;
  }

  lemma LeftDerivativeChunks()
    ensures "((0 * (x ^ 2)) + (3 * ((2 * (x ^ 1)) * 1)))" == "((0 * (x ^ 2)) + " + "(3 * ((2 * (x ^ 1)) * 1)))"
  {
  }

  lemma LeftDerivativeOpened()
    ensures "(" + "((0 * (x ^ 2)) + " == "(((0 * (x ^ 2)) + "
  {
  }

  lemma LeftDerivativeClosed()
    ensures "(((0 * (x ^ 2)) + " + "(3 * ((2 * (x ^ 1)) * 1)))" == "(((0 * (x ^ 2)) + (3 * ((2 * (x ^ 1)) * 1)))"
  {
  }

  lemma DerivativePrefix()
    ensures "(" + "((0 * (x ^ 2)) + (3 * ((2 * (x ^ 1)) * 1)))" == "(((0 * (x ^ 2)) + (3 * ((2 * (x ^ 1)) * 1)))"
  {
    LeftDerivativeChunks();
    LeftDerivativeOpened();
    LeftDerivativeClosed();
    OpenParen("((0 * (x ^ 2)) + ", "(3 * ((2 * (x ^ 1)) * 1)))", "(((0 * (x ^ 2)) + ", "(((0 * (x ^ 2)) + (3 * ((2 * (x ^ 1)) * 1)))");
  }

  /** The rendering of df/dx. */
  lemma DemoDerivativeRendering()
    ensures Render(DF) == "(((0 * (x ^ 2)) + (3 * ((2 * (x ^ 1)) * 1))) + ((0 * x) + (2 * 1)))"
  {
    RenderLeftDerivative();
    RenderRightDerivative();
    RenderFrom(DF, "((0 * (x ^ 2)) + (3 * ((2 * (x ^ 1)) * 1)))", "((0 * x) + (2 * 1))");
    DerivativeText();
  }

  lemma DerivativeText()
    ensures "(" + "((0 * (x ^ 2)) + (3 * ((2 * (x ^ 1)) * 1)))" + [' ', '+', ' '] + "((0 * x) + (2 * 1))" + ")" ==
      "(((0 * (x ^ 2)) + (3 * ((2 * (x ^ 1)) * 1))) + ((0 * x) + (2 * 1)))"
  {
    DerivativePrefix();
  }

  /** x + 1 */
  const G: Expr := Add(X, Const(1))

  /** d/dx (x / (x + 1)) as the quotient rule builds it. */
  const DQ: Expr := Div(
    Sub(Mul(Const(1), G), Mul(X, Add(Const(1), Const(0)))),
    Mul(G, G))

  /** d/dx (x / (x + 1)) by the quotient rule. */
  lemma QuotientExample()
    ensures Diff(Div(X, G), "x") == Ok(DQ)
  {
    assert Diff(G, "x") == Ok(Add(Const(1), Const(0)));
  }

  lemma RenderG()
    ensures Render(G) == "(x + 1)"
  {
    assert Render(Const(1)) == "1";
  }

  lemma RenderQuotientNumerator()
    ensures Render(DQ.left) == "((1 * (x + 1)) - (x * (1 + 0)))"
  {
    RenderG();
    assert Render(Const(0)) == "0";
    assert Render(Const(1)) == "1";
    assert Render(Mul(Const(1), G)) == "(1 * (x + 1))";
    assert Render(Add(Const(1), Const(0))) == "(1 + 0)";
    assert Render(Mul(X, Add(Const(1), Const(0)))) == "(x * (1 + 0))";
    RenderFrom(DQ.left, "(1 * (x + 1))", "(x * (1 + 0))");
    NumeratorText();
  }

  lemma NumeratorText()
    ensures "(" + "(1 * (x + 1))" + [' ', '-', ' '] + "(x * (1 + 0))" + ")" == "((1 * (x + 1)) - (x * (1 + 0)))"
  {
  }

  lemma RenderQuotientDenominator()
    ensures Render(DQ.right) == "((x + 1) * (x + 1))"
  {
    RenderG();
  }

  lemma QuotientPrefix()
    ensures "(" + "((1 * (x + 1)) - (x * (1 + 0)))" == "(((1 * (x + 1)) - (x * (1 + 0)))"
  {
  }

  lemma QuotientText()
    ensures "(((1 * (x + 1)) - (x * (1 + 0)))" + [' ', '/', ' '] + "((x + 1) * (x + 1))" + ")" ==
      "(((1 * (x + 1)) - (x * (1 + 0))) / ((x + 1) * (x + 1)))"
  {
  }

  /** The rendering of d/dx (x / (x + 1)). */
  lemma QuotientRendering()
    ensures Render(DQ) == "(((1 * (x + 1)) - (x * (1 + 0))) / ((x + 1) * (x + 1)))"
  {
    RenderQuotientNumerator();
    RenderQuotientDenominator();
    RenderFrom(DQ, "((1 * (x + 1)) - (x * (1 + 0)))", "((x + 1) * (x + 1))");
    QuotientPrefix();
    QuotientText();
  }

  /** x ^ y is refused. */
  lemma VariableExponentExample()
    ensures Diff(Pow(X, Var("y")), "x") == Err(UnsupportedExponent)
  {
  }

  lemma RenderMinusOne()
    ensures Render(Const(-1)) == "-1"
  {
    assert Decimal.NatToString(1) == "1";
  }

  lemma RenderZeroPower()
    ensures Render(Mul(Const(0), Pow(X, Const(-1)))) == "(0 * (x ^ -1))"
  {
    RenderMinusOne();
    assert Render(Const(0)) == "0";
    assert Render(Pow(X, Const(-1))) == "(x ^ -1)";
  }

  /** x ^ 0 differentiates with a negative exponent left in the tree. */
  lemma ZeroExponentExample()
    ensures Diff(Pow(X, Const(0)), "x") == Ok(Mul(Mul(Const(0), Pow(X, Const(-1))), Const(1)))
    ensures Render(Mul(Mul(Const(0), Pow(X, Const(-1))), Const(1))) == "((0 * (x ^ -1)) * 1)"
  {
    RenderZeroExponentDerivative();
  }

  lemma RenderZeroExponentDerivative()
    ensures Render(Mul(Mul(Const(0), Pow(X, Const(-1))), Const(1))) == "((0 * (x ^ -1)) * 1)"
  {
    RenderZeroPower();
    assert Render(Const(1)) == "1";
  }

  /** d/dz x = 0. */
  lemma UnrelatedVariableExample()
    ensures Diff(X, "z") == Ok(Const(0))
  {
  }
}
