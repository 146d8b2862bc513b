/**
 The life of a WHERE clause: compiled once, then run once per row
 (apps/antelope/aql-parser.c, apps/antelope/lvm.c and the row loop of
 apps/antelope/relation.c).
 */
module AqlWhere {
  import opened Bytes
  import opened Lvm
  import opened AqlSyntax
  import opened AqlParser

  // DB_VM_BYTECODE_SIZE
  const BYTECODE_SIZE := 128

  // The numbers of a clause are values of the C type long.
  predicate TermFits(t: Term) {
    t.Number? ==> IsLong(t.value)
  }

  predicate ExprFits(e: Expr) { TermFits(e.first) && TailsFit(e.tails) }

  predicate TailsFit(tails: Tails) {
    match tails
    case Done => true
    case Then(_, arg, more) =>
      (match arg case Plain(t) => TermFits(t) case Paren(e) => ExprFits(e)) && TailsFit(more)
  }

  predicate ComparisonFits(c: Comparison) { ExprFits(c.l) && ExprFits(c.r) }

  predicate LinksFit(links: Links) {
    match links
    case End => true
    case Link(_, c, more) => ComparisonFits(c) && LinksFit(more)
  }

  predicate ClauseFits(c: Clause) { ComparisonFits(c.first) && LinksFit(c.links) }

  lemma {:induction false} ExprTreeFits(e: Expr, table: seq<string>)
    requires ExprFits(e) && Covers(table, ExprTokens(e)) && |table| <= VARIABLE_LIMIT
    ensures ArithFits(ExprTree(e, table))
  {
    assert TermToken(e.first) in ExprTokens(e);
    assert forall t | t in TailsTokens(e.tails) :: t in ExprTokens(e);
    TailsTreeFits(Leaf(TermOperand(e.first, table)), e.tails, table);
  }

  lemma {:induction false} TailsTreeFits(acc: Arith, tails: Tails, table: seq<string>)
    requires ArithFits(acc) && TailsFit(tails) && Covers(table, TailsTokens(tails)) && |table| <= VARIABLE_LIMIT
    ensures ArithFits(TailsTree(acc, tails, table))
    decreases tails
  {
    if tails.Then? {
      var ts := TailsTokens(tails);
      assert forall t | t in ArgTokens(tails.arg) :: t in ts;
      assert forall t | t in TailsTokens(tails.more) :: t in ts;
      match tails.arg {
        case Plain(t) => assert TermToken(t) in ArgTokens(tails.arg);
        case Paren(e) =>
          assert forall t | t in ExprTokens(e) :: t in ArgTokens(tails.arg);
          ExprTreeFits(e, table);
      }
      TailsTreeFits(Bin(tails.op, acc, ArgTree(tails.arg, table)), tails.more, table);
    }
  }

  lemma ComparisonTreeFits(c: Comparison, table: seq<string>)
    requires ComparisonFits(c) && Covers(table, ComparisonTokens(c)) && |table| <= VARIABLE_LIMIT
    ensures LogicFits(ComparisonTree(c, table))
  {
    assert forall t | t in ExprTokens(c.l) :: t in ComparisonTokens(c);
    assert forall t | t in ExprTokens(c.r) :: t in ComparisonTokens(c);
    ExprTreeFits(c.l, table);
    ExprTreeFits(c.r, table);
  }

  lemma {:induction false} LinksTreeFits(first: Logic, links: Links, table: seq<string>)
    requires LogicFits(first) && LinksFit(links) && Covers(table, LinksTokens(links)) && |table| <= VARIABLE_LIMIT
    ensures LogicFits(LinksTree(first, links, table))
    decreases links
  {
    if links.Link? {
      assert forall t | t in ComparisonTokens(links.c) :: t in LinksTokens(links);
      assert forall t | t in LinksTokens(links.more) :: t in LinksTokens(links);
      ComparisonTreeFits(links.c, table);
      LinksTreeFits(ComparisonTree(links.c, table), links.more, table);
    }
  }

  lemma ClauseTreeFits(c: Clause, table: seq<string>)
    requires ClauseFits(c) && Covers(table, ClauseTokens(c)) && |table| <= VARIABLE_LIMIT
    ensures LogicFits(ClauseTree(c, table))
  {
    assert forall t | t in ComparisonTokens(c.first) :: t in ClauseTokens(c);
    assert forall t | t in LinksTokens(c.links) :: t in ClauseTokens(c);
    ComparisonTreeFits(c.first, table);
    LinksTreeFits(ComparisonTree(c.first, table), c.links, table);
  }

  lemma {:induction false} CostConcat(xs: seq<Token>, ys: seq<Token>)
    ensures Cost(xs + ys) == Cost(xs) + Cost(ys)
    decreases xs
  {
    if xs == [] {
      assert xs + ys == ys;
    } else {
      assert (xs + ys)[1..] == xs[1..] + ys;
      CostConcat(xs[1..], ys);
    }
  }

  lemma CostParts(x: seq<Token>, y: seq<Token>, z: seq<Token>)
    ensures Cost(x + y + z) == Cost(x) + Cost(y) + Cost(z)
  {
    CostConcat(x + y, z);
    CostConcat(x, y);
  }

  lemma CostOne(t: Token)
    ensures Cost([t]) == TokenCost(t)
  {
    assert [t] == [t] + [];
  }

  lemma {:induction false} ExprCodeSize(e: Expr, table: seq<string>)
    ensures |ExprCode(e, table)| == Cost(ExprTokens(e))
  {
    CostOne(TermToken(e.first));
    CostConcat([TermToken(e.first)], TailsTokens(e.tails));
    TailsCodeSize(e.tails, table);
  }

  lemma {:induction false} ArgCodeSize(arg: Arg, table: seq<string>)
    ensures |ArgCode(arg, table)| == Cost(ArgTokens(arg))
  {
    match arg
    case Plain(t) => CostOne(TermToken(t));
    case Paren(e) =>
      CostParts([LeftParen], ExprTokens(e), [RightParen]);
      CostOne(LeftParen);
      CostOne(RightParen);
      ExprCodeSize(e, table);
  }

  lemma {:induction false} TailsCodeSize(tails: Tails, table: seq<string>)
    ensures |TailsCode(tails, table)| == Cost(TailsTokens(tails))
  {
    if tails.Then? {
      CostParts([ArithToken(tails.op)], ArgTokens(tails.arg), TailsTokens(tails.more));
      CostOne(ArithToken(tails.op));
      ArgCodeSize(tails.arg, table);
      TailsCodeSize(tails.more, table);
    }
  }

  lemma ComparisonCodeSize(c: Comparison, table: seq<string>)
    ensures |ComparisonCode(c, table)| == 4 + Cost(ComparisonTokens(c))
  {
    CostParts(ExprTokens(c.l), [CmpToken(c.rel)], ExprTokens(c.r));
    CostOne(CmpToken(c.rel));
    ExprCodeSize(c.l, table);
    ExprCodeSize(c.r, table);
  }

  lemma LinkCost(conj: bool, c: Comparison, more: Links)
    ensures Cost(LinksTokens(Link(conj, c, more))) ==
      TokenCost(if conj then AndToken else OrToken) + Cost(ComparisonTokens(c)) + Cost(LinksTokens(more))
  {
    CostOne(if conj then AndToken else OrToken);
    CostParts([if conj then AndToken else OrToken], ComparisonTokens(c), LinksTokens(more));
  }

  lemma {:induction false} LinksCodeSize(first: seq<byte>, links: Links, table: seq<string>)
    ensures |LinksCode(first, links, table)| == |first| + Cost(LinksTokens(links))
    decreases links
  {
    match links
    case End =>
    case Link(conj, c, more) =>
      ComparisonCodeSize(c, table);
      LinkCost(conj, c, more);
      LinksCodeSize(ComparisonCode(c, table), more, table);
  }

  /** What the parser asks of the code array is exactly room for the clause's code. */
  lemma ClauseCodeSize(c: Clause, table: seq<string>)
    ensures |ClauseCode(c, table)| == 4 + Cost(ClauseTokens(c))
  {
    CostConcat(ComparisonTokens(c.first), LinksTokens(c.links));
    ComparisonCodeSize(c.first, table);
    LinksCodeSize(ComparisonCode(c.first, table), c.links, table);
  }

  // No identifiers are left to read.
  predicate NoIdentifiers(ts: seq<Token>) {
    forall t | t in ts :: !t.Identifier?
  }

  lemma {:induction false} NothingToRegister(names: seq<string>, ts: seq<Token>)
    requires NoIdentifiers(ts)
    ensures RegisterAll(names, ts) == names
    decreases ts
  {
    if ts != [] {
      assert ts == [ts[0]] + ts[1..];
      NothingToRegister(names, ts[1..]);
    }
  }

  // Compiled code and the table of its variables
  ghost predicate Compiled(m: Machine, c: Clause)
    reads m, m.code
  {
    && m.end < m.code.Length && |m.names| <= VARIABLE_LIMIT == |m.values|
    && Covers(m.names, ClauseTokens(c))
    && m.code[..m.end] == ClauseCode(c, m.names)
  }

  method Compile(ts: seq<Token>, ghost c: Clause, ghost tail: seq<Token>) returns (m: Machine, status: nat)
    requires ts == ClauseTokens(c) + tail && EndsClause(Peek(tail)) && NoIdentifiers(tail)
    requires 4 + Cost(ts) < BYTECODE_SIZE && |Identifiers(ts)| <= VARIABLE_LIMIT
    requires |RegisterAll([], ts)| <= VARIABLE_LIMIT
    ensures fresh(m) && fresh(m.code) && status == OK && !m.error && Compiled(m, c)
  {
    m := new Machine(BYTECODE_SIZE);
    ghost var table := RegisterAll([], ts);
    var parser := new Parser(ts, m);
    status := parser.ParseWhere(c, tail, table);
    assert [] + tail == tail;
    NothingToRegister(m.names, tail);
    RegisterConcat([], ClauseTokens(c), tail);
    NothingToRegister(RegisterAll([], ClauseTokens(c)), tail);
    RegisterCovers([], ClauseTokens(c));
  }

  // lvm_set_variable_value for every variable of the clause
  method SetRow(m: Machine, env: Env)
    requires |m.names| <= |m.values|
    modifies m`values
    ensures |m.values| == old(|m.values|) && Agrees(m.names, m.values, env)
  {
    var i := 0;
    while i < |m.names|
      invariant 0 <= i <= |m.names| && |m.values| == old(|m.values|)
      invariant forall k | 0 <= k < i :: m.values[IndexOf(m.names, m.names[k])] == env(m.names[k])
    {
      var _ := m.SetVariableValue(m.names[i], env(m.names[i]));
      i := i + 1;
    }
    forall n | n in m.names
      ensures m.values[IndexOf(m.names, n)] == env(n)
    {
      assert m.names[IndexOf(m.names, n)] == n;
    }
  }

  /**
   Compilation preserves meaning: for every clause with one operator per level, running its code
   for a row reports the truth of the clause on that row, or a math error exactly if some division
   of the clause has a zero divisor, and an error-free run reads exactly the code.
   */
  method RunClause(m: Machine, ghost c: Clause, env: Env) returns (status: Status)
    requires Compiled(m, c) && ClauseFits(c) && OneOperatorEach(c.first) && OneOperatorAll(c.links)
    modifies m`values, m`ip
    ensures status == ClauseVerdict(c, env)
    ensures !status.IsError() ==> m.ip == m.end
    ensures Compiled(m, c)
  {
    SetRow(m, env);
    ghost var tree := ClauseTree(c, m.names);
    ClauseCodeIffOneOperator(c, m.names);
    ClauseTreeFits(c, m.names);
    ClauseTreeMeans(c, m.names, m.values, env);
    assert m.code[..][0..m.end] == m.code[..m.end];
    status := m.Execute(tree);
  }
}
