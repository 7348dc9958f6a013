# mini-grad symbolic differentiation, in Dafny

This project models the symbolic differentiation engine of mini-grad
(`mini-grad/symbolic_differentiation.py`). An expression is a tree of seven
node kinds: constants, variables, and the binary nodes for `+`, `-`, `*`, `/`
and `^`. The operators build a new node over their two operands. `diff` builds
the derivative with respect to a named variable as a new, unsimplified tree. It
raises `NotImplementedError` when it meets a power whose exponent is not a
constant. `__repr__` renders a tree as fully parenthesised infix text.

Modules:

- `Wrappers` (`wrappers.dfy`): `Result` (a value, or the error raised) and `Option`.
- `Decimal` (`decimal.dfy`): Python's `str` of an `int`, with a reader for that
  text. The reader is used to prove that the text determines the number.
- `Symbolic` (`symbolic.dfy`): the `Expr` datatype and its operator functions,
  `Diff`, `Render`, one lemma per differentiation rule, and properties of the
  whole rule set.
- `RenderParse` (`render_parse.dfy`): a reference reader for the rendering. It
  is used to prove that the rendering is unambiguous when every variable name is
  a plain word.
- `Demo` (`demo.dfy`): the example tree of the file's entry point and a few
  single cases, each with its exact derivative and rendering.

The source is pure: nodes are never changed after construction. So the model is
made of datatypes, functions and lemmas, with no classes or methods. Python
dispatches `diff` and `__repr__` through per-class methods; here each is one
`match` over the closed datatype. `NotImplementedError` becomes the value
`Err(UnsupportedExponent)`. The `:-` operator passes it up unchanged, so no
partial tree is ever returned. `diff` takes a `Var` but reads only its `name`,
so `Diff` takes the name string.

## Model

| member | source | states |
|---|---|---|
| `Symbolic.Expr.Plus` | mini-grad/symbolic_differentiation.py:7-8 | `a + b` is an `Add` node with the receiver as left and the argument as right, both stored unchanged |
| `Symbolic.Expr.Minus` | mini-grad/symbolic_differentiation.py:10-11 | `a - b` is a `Sub` node with receiver left and argument right, unchanged |
| `Symbolic.Expr.Times` | mini-grad/symbolic_differentiation.py:13-14 | `a * b` is a `Mul` node with receiver left and argument right, unchanged |
| `Symbolic.Expr.Over` | mini-grad/symbolic_differentiation.py:16-17 | `a / b` is a `Div` node with receiver left and argument right, unchanged |
| `Symbolic.Expr.ToThe` | mini-grad/symbolic_differentiation.py:19-20 | `a ** b` is a `Pow` node with the receiver as base and the argument as exponent; the exponent is not checked at construction |
| `Symbolic.Diff` | mini-grad/symbolic_differentiation.py:33-117 | differentiation succeeds exactly when every power node in the tree has a constant exponent, and the derivative mentions no variable the input does not |
| `Symbolic.DiffConst` | mini-grad/symbolic_differentiation.py:33-34 | a constant differentiates to `Const(0)` whatever the variable |
| `Symbolic.DiffVar` | mini-grad/symbolic_differentiation.py:45-46 | `Var(n)` differentiates to `Const(1)` if and only if `n` is the variable's name, and to `Const(0)` if and only if it is not |
| `Symbolic.DiffAdd` | mini-grad/symbolic_differentiation.py:58-59 | a sum succeeds if and only if both operands do, and its derivative is the sum of theirs |
| `Symbolic.DiffSub` | mini-grad/symbolic_differentiation.py:71-72 | a difference succeeds if and only if both operands do, and its derivative is the difference of theirs |
| `Symbolic.DiffMul` | mini-grad/symbolic_differentiation.py:84-86 | product rule: `(f * g)' = (f' * g) + (f * g')`, with `f` and `g` reused unchanged; fails if and only if an operand fails |
| `Symbolic.DiffDiv` | mini-grad/symbolic_differentiation.py:98-100 | quotient rule: `(f / g)' = ((f' * g) - (f * g')) / (g * g)`; fails if and only if an operand fails |
| `Symbolic.DiffPowConst` | mini-grad/symbolic_differentiation.py:112-115 | power rule for a constant exponent n: `(b ^ n)' = (n * b ^ (n - 1)) * b'`, which succeeds if and only if `b'` does |
| `Symbolic.DiffPowOther` | mini-grad/symbolic_differentiation.py:114-117 | any other exponent fails with the unsupported-exponent error, whatever the base |
| `Symbolic.DiffFailurePropagates` | mini-grad/symbolic_differentiation.py:112-117 | if any subtree fails to differentiate, the whole tree fails; no partial derivative is returned |
| `Symbolic.DiffAbsentVar` | mini-grad/symbolic_differentiation.py:45-46 | the variable matters only through name comparison: two names absent from the tree give the same result |
| `Symbolic.DiffSuccessIndependentOfVar` | mini-grad/symbolic_differentiation.py:112-117 | whether differentiation succeeds does not depend on the variable |
| `Symbolic.Render` | mini-grad/symbolic_differentiation.py:36-120 | the `__repr__` of every node kind; its contract states that every binary node's text is wrapped in its own parentheses, and `Symbolic.RenderShape` and `RenderParse.ParseRender` state the rest of what it promises |
| `Symbolic.RenderShape` | mini-grad/symbolic_differentiation.py:36-120 | a constant renders as its decimal value, a variable as its name, and a binary node as `"(" + L + " OP " + R + ")"` with OP one of `+ - * / ^` |
| `Decimal.NatToString` | mini-grad/symbolic_differentiation.py:36-37 | the decimal text of a natural number is a non-empty run of digits with no leading zero, and is exactly `0` when it starts with `0` |
| `Decimal.IntToString` | mini-grad/symbolic_differentiation.py:36-37 | `str` of an int is decimal text that starts with a minus sign exactly when the value is negative, has no leading zero after the sign, and is exactly `0` when it starts with `0` |
| `Decimal.IntToStringValue` | mini-grad/symbolic_differentiation.py:36-37 | reading the decimal text of `i` gives back `i` |
| `Decimal.IntToStringInjective` | mini-grad/symbolic_differentiation.py:36-37 | distinct constants render as distinct text |
| `RenderParse.ParseRender` | mini-grad/symbolic_differentiation.py:36-120 | reading back the rendering of a tree whose variable names are plain words gives the tree |
| `RenderParse.RenderInjective` | mini-grad/symbolic_differentiation.py:36-120 | two such trees that render alike are the same tree: the fully parenthesised form is unambiguous |
| `RenderParse.DiffWellNamed` | mini-grad/symbolic_differentiation.py:33-117 | a derivative of such a tree is again such a tree, so its rendering is unambiguous too |
| `Demo.OperatorsBuildF` | mini-grad/symbolic_differentiation.py:127 | `Const(3) * x ** Const(2) + Const(2) * x`, written with the operators in Python's precedence, builds the example tree (with a raw `3` or `2` the source would raise `TypeError`, since `Expr` has no reflected operators) |
| `Demo.DemoDerivative` | mini-grad/symbolic_differentiation.py:127-128 | the example tree's derivative is exactly the unsimplified tree the rules compose |
| `Demo.DemoFunctionRendering` | mini-grad/symbolic_differentiation.py:127-130 | the example renders as `((3 * (x ^ 2)) + (2 * x))` |
| `Demo.DemoDerivativeRendering` | mini-grad/symbolic_differentiation.py:128-131 | the derivative renders as `(((0 * (x ^ 2)) + (3 * ((2 * (x ^ 1)) * 1))) + ((0 * x) + (2 * 1)))` |
| `Demo.QuotientExample` | mini-grad/symbolic_differentiation.py:98-100 | `x / (x + 1)` differentiates to the quotient-rule tree |
| `Demo.QuotientRendering` | mini-grad/symbolic_differentiation.py:102-103 | that derivative renders as `(((1 * (x + 1)) - (x * (1 + 0))) / ((x + 1) * (x + 1)))` |
| `Demo.VariableExponentExample` | mini-grad/symbolic_differentiation.py:116-117 | `x ^ y` fails with the unsupported-exponent error |
| `Demo.ZeroExponentExample` | mini-grad/symbolic_differentiation.py:115 | `x ^ 0` differentiates to `(0 * (x ^ -1)) * 1`, which renders with a negative exponent |
| `Demo.UnrelatedVariableExample` | mini-grad/symbolic_differentiation.py:46 | `x` differentiated with respect to `z` is `Const(0)` |

## Left out

- Float constants: `Const.value` is an `int` here. Python also allows a `float`
  (`:30`), whose arithmetic and text form (`2.0`, exponents, `inf`) are not modelled.
- Decimal.IntToString: does not model the limit on converting very large ints to
  text (4300 digits by default in recent Python versions), above which `str` raises.
- Operands that are not expressions: the operators store any `other` as given.
  A raw number as an exponent makes `diff` raise `NotImplementedError` (the
  exponent is not a `Const`); anywhere else `diff` fails with an attribute
  error when it reaches it. `__repr__` renders such an operand with `str`. The
  model types every operand as `Expr`, so such trees cannot be built.
- Node identity: Python nodes are objects and `Mul(g, g)` holds the same object
  twice. Here trees are values, so sharing is not observable. Nothing in the
  source depends on identity.
- Exceptions as a mechanism: the raise is a `Result` value. The error message
  is not modelled because it is the same constant for every failure.
- Recursion depth: Python raises `RecursionError` on very deep trees; the model
  has no depth limit.
- The entry point's printing (`:123-131`): only the tree it builds and the
  strings it would print are modelled, as lemmas.
- `mini-grad/basic_operations.py` (a wrapper over the host's numeric operators)
  and `mini-grad/numerical_differentation.py` (floating-point finite
  differences): neither takes part in the symbolic engine.
