/**
 Laws of WHERE clauses: the order that comparisons test, truth of connectives, and the arithmetic of expressions
 (apps/antelope/lvm.c).  What running the code of a clause reports is its verdict, so the laws are about that as well.
 */
module AqlLaws {
  import opened Lvm
  import opened AqlSyntax

  // The clause that compares two expressions
  function One(l: Expr, rel: Relation, r: Expr): Clause { Clause(Comparison(l, rel, r), End) }

  predicate Safe(l: Expr, r: Expr, env: Env) { TailsSafe(l.tails, env) && TailsSafe(r.tails, env) }

  function Report(l: Expr, rel: Relation, r: Expr, env: Env): Status { ClauseVerdict(One(l, rel, r), env) }

  /** A comparison is true or false, unless a division by zero makes every comparison an error. */
  lemma Decided(l: Expr, r: Expr, rel: Relation, env: Env)
    ensures Safe(l, r, env) ==> Report(l, rel, r, env) == IsTrue || Report(l, rel, r, env) == IsFalse
    ensures !Safe(l, r, env) ==> Report(l, rel, r, env) == MathError
  {
  }

  /** Exactly one of less, equal and greater is true. */
  lemma Trichotomy(l: Expr, r: Expr, env: Env)
    requires Safe(l, r, env)
    ensures var less, same, more := Report(l, Lt, r, env), Report(l, Eq, r, env), Report(l, Gt, r, env);
      || (less == IsTrue && same == IsFalse && more == IsFalse)
      || (less == IsFalse && same == IsTrue && more == IsFalse)
      || (less == IsFalse && same == IsFalse && more == IsTrue)
  {
  }

  // The relation that is true where this one is false
  function Opposite(rel: Relation): Relation {
    match rel
    case Eq => Neq
    case Neq => Eq
    case Gt => Leq
    case Leq => Gt
    case Lt => Geq
    case Geq => Lt
  }

  // The relation with the sides exchanged
  function Reversed(rel: Relation): Relation {
    match rel
    case Eq => Eq
    case Neq => Neq
    case Gt => Lt
    case Lt => Gt
    case Geq => Leq
    case Leq => Geq
  }

  lemma OppositeReports(l: Expr, rel: Relation, r: Expr, env: Env)
    requires Safe(l, r, env)
    ensures Report(l, rel, r, env) == IsTrue <==> Report(l, Opposite(rel), r, env) == IsFalse
  {
  }

  lemma ReversedReports(l: Expr, rel: Relation, r: Expr, env: Env)
    ensures Report(l, rel, r, env) == Report(r, Reversed(rel), l, env)
  {
  }

  /** Less is transitive, and equal expressions can be exchanged. */
  lemma LessIsOrder(x: Expr, y: Expr, z: Expr, env: Env)
    requires Report(x, Lt, y, env) == IsTrue
    ensures Report(y, Lt, z, env) == IsTrue ==> Report(x, Lt, z, env) == IsTrue
    ensures Report(y, Eq, z, env) == IsTrue ==> Report(x, Lt, z, env) == IsTrue
  {
  }

  // n + (e)
  function Plus(n: int, e: Expr): Expr { Expr(Number(n), Then(Add, Paren(e), Done)) }

  lemma PlusValue(n: int, e: Expr, env: Env)
    ensures ExprValue(Plus(n, e), env) == Apply(Add, n, ExprValue(e, env))
    ensures TailsSafe(Plus(n, e).tails, env) <==> TailsSafe(e.tails, env)
  {
    var tails, sum := Then(Add, Paren(e), Done), Apply(Add, n, ExprValue(e, env));
    assert ArgValue(Paren(e), env) == ExprValue(e, env) && TailsSafe(Done, env);
    assert TailsValue(n, tails, env) == TailsValue(sum, Done, env) == sum;
  }

  /** The next number is greater, with none between, and adding a number to both sides changes no comparison. */
  lemma OrderOfNumbers(x: Expr, y: Expr, n: int, rel: Relation, env: Env)
    requires Safe(x, y, env)
    ensures Report(x, Lt, Plus(1, x), env) == IsTrue
    ensures Report(x, Lt, y, env) == Report(Plus(1, x), Leq, y, env)
    ensures Report(Plus(n, x), rel, Plus(n, y), env) == Report(x, rel, y, env)
    ensures Report(x, Eq, Plus(0, x), env) == IsTrue
  {
    PlusValue(1, x, env);
    PlusValue(0, x, env);
    PlusValue(n, x, env);
    PlusValue(n, y, env);
  }

  // ---------------------------------------------------------------- connectives

  // A comparison joined with what is left of a clause
  function Joined(c: Comparison, conj: bool, rest: Clause): Clause { Clause(c, Link(conj, rest.first, rest.links)) }

  /** AND, OR and errors: both sides are always evaluated, so an error on either is the result. */
  lemma Connectives(c: Comparison, rest: Clause, env: Env)
    ensures var one, other := ClauseVerdict(Clause(c, End), env), ClauseVerdict(rest, env);
      var both, either := ClauseVerdict(Joined(c, true, rest), env), ClauseVerdict(Joined(c, false, rest), env);
      if one == MathError || other == MathError then both == either == MathError
      else
        && both == (if one == IsTrue then other else IsFalse)
        && either == if one == IsFalse then other else IsTrue
  {
    assert LinksTruth(ComparisonTruth(c, env), End, env) == ComparisonTruth(c, env);
    assert LinksSafe(End, env);
  }

  // ---------------------------------------------------------------- arithmetic

  /** Division truncates: the remainder is smaller than the divisor and has the sign of the dividend. */
  lemma DivisionTruncates(x: int, y: int)
    requires y != 0
    ensures var r := Apply(Sub, x, Apply(Mul, y, Apply(Div, x, y)));
      && x == Apply(Add, Apply(Mul, y, Apply(Div, x, y)), r)
      && (if r < 0 then -r else r) < (if y < 0 then -y else y)
      && (r > 0 ==> x > 0) && (r < 0 ==> x < 0)
  {
    var a := if x < 0 then -x else x;
    var k := a / y;
    Quotient(a, y, k);
    Negated(y, k);
    assert Apply(Div, x, y) == if x < 0 then -k else k;
  }

  // The quotient of a number that is not negative
  lemma Quotient(a: int, y: int, k: int)
    requires a >= 0 && y != 0 && k == a / y
    ensures 0 <= a - y * k < if y < 0 then -y else y
    ensures a == 0 ==> y * k == 0
  {
    assert a == y * (a / y) + a % y;
  }

  lemma Negated(y: int, k: int)
    ensures y * -k == -(y * k)
  {
  }

  /** Addition, subtraction and multiplication are those of a ring, in which 1 is the successor of 0. */
  lemma Ring(x: int, y: int, z: int)
    ensures Apply(Add, x, 0) == x && Apply(Add, x, Apply(Add, y, 1)) == Apply(Add, Apply(Add, x, y), 1)
    ensures Apply(Add, x, y) == Apply(Add, y, x) && x < Apply(Add, x, 1)
    ensures Apply(Sub, Apply(Add, x, y), y) == x
    ensures Apply(Mul, x, 0) == 0 && Apply(Mul, x, 1) == x && Apply(Mul, x, y) == Apply(Mul, y, x)
    ensures Apply(Mul, x, Apply(Add, y, z)) == Apply(Add, Apply(Mul, x, y), Apply(Mul, x, z))
  {
    assert x * (y + z) == x * y + x * z;
  }

  /** 7 / 2, -7 / 2, 7 / -2 and -7 / -2 */
  lemma Quotients()
    ensures Apply(Div, 7, 2) == 3 && Apply(Div, -7, 2) == -3
    ensures Apply(Div, 7, -2) == -3 && Apply(Div, -7, -2) == 3
  {
  }
}
