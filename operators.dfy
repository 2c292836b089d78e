/** The operator table of the CGP engine: five scalar operators on reals, each
    with a fixed arity, and the guarded division. */
module Operators {

  /** The operators of the function table, in table order. */
  datatype Op = Add | Sub | Mul | Div | Neg

  /** Number of arguments an operator takes. */
  function Arity(op: Op): nat
  {
    match op
    case Neg => 1
    case _ => 2
  }

  /** The largest arity in the table. */
  const MaxArity: nat := 2

  /** The function table, indexed by a node's function index. */
  const FunctionTable: seq<Op> := [Add, Sub, Mul, Div, Neg]

  /** Divisors whose magnitude is below this threshold are not divided by. */
  const DivThreshold: real := 0.000001

  function Abs(x: real): real
  {
    if x < 0.0 then -x else x
  }

  /** Guarded division: the numerator itself when the divisor is within the
      threshold of zero, otherwise the quotient. */
  function GuardedDiv(a: real, b: real): (r: real)
    ensures Abs(b) < DivThreshold ==> r == a
    ensures Abs(b) >= DivThreshold ==> b != 0.0 && r * b == a
  {
    if Abs(b) < DivThreshold then a else a / b
  }

  /** Calls an operator on exactly as many arguments as it takes. */
  function Apply(op: Op, args: seq<real>): real
    requires |args| == Arity(op)
  {
    match op
    case Add => args[0] + args[1]
    case Sub => args[0] - args[1]
    case Mul => args[0] * args[1]
    case Div => GuardedDiv(args[0], args[1])
    case Neg => -args[0]
  }

  /** Every entry of the table takes one or two arguments, and only negation
      takes one. */
  lemma TableArities(i: nat)
    requires i < |FunctionTable|
    ensures 1 <= Arity(FunctionTable[i]) <= MaxArity
    ensures Arity(FunctionTable[i]) == 1 <==> FunctionTable[i] == Neg
  {
  }

  /** Division by a divisor of at least the threshold in magnitude is exact
      division; anything smaller leaves the numerator unchanged. */
  lemma DivExamples(a: real)
    ensures GuardedDiv(a, 5.0) == a / 5.0
    ensures GuardedDiv(a, 0.000000001) == a
    ensures GuardedDiv(a, -0.0000005) == a
    ensures GuardedDiv(a, 0.0) == a
  {
  }
}
