/**
 WHERE clauses of the Antelope query language: their tokens, their meaning, the bytecode
 that the parser of apps/antelope/aql-parser.c leaves for them, and exactly when that
 bytecode is the prefix encoding of the clause.

 An expression is an operand followed by any number of `operator argument` pairs, an
 argument being an operand or an expression in parentheses.  Operators of one level have
 equal rank and group to the left; AND and OR have equal rank and group to the right.
 */
module AqlSyntax {
  import opened Bytes
  import opened Lvm

  datatype Token =
    | NoToken
    | Identifier(name: string)
    | IntegerValue(value: int)
    | StringValue
    | FloatValue
    | ArithToken(op: ArithOp)
    | CmpToken(rel: Relation)
    | AndToken
    | OrToken
    | LeftParen
    | RightParen
    | OtherToken

  datatype Term = Name(name: string) | Number(value: int)
  datatype Expr = Expr(first: Term, tails: Tails)
  datatype Tails = Done | Then(op: ArithOp, arg: Arg, more: Tails)
  datatype Arg = Plain(t: Term) | Paren(e: Expr)

  datatype Comparison = Comparison(l: Expr, rel: Relation, r: Expr)
  datatype Links = End | Link(conj: bool, c: Comparison, more: Links)
  datatype Clause = Clause(first: Comparison, links: Links)

  // ---------------------------------------------------------------- tokens

  function TermToken(t: Term): Token {
    match t
    case Name(n) => Identifier(n)
    case Number(v) => IntegerValue(v)
  }

  function ExprTokens(e: Expr): (ts: seq<Token>)
    ensures |ts| >= 1 && ts[0] == TermToken(e.first)
  {
    [TermToken(e.first)] + TailsTokens(e.tails)
  }

  function TailsTokens(tails: Tails): seq<Token> {
    match tails
    case Done => []
    case Then(op, arg, more) => [ArithToken(op)] + ArgTokens(arg) + TailsTokens(more)
  }

  function ArgTokens(arg: Arg): (ts: seq<Token>)
    ensures |ts| >= 1
  {
    match arg
    case Plain(t) => [TermToken(t)]
    case Paren(e) => [LeftParen] + ExprTokens(e) + [RightParen]
  }

  function ComparisonTokens(c: Comparison): seq<Token> {
    ExprTokens(c.l) + [CmpToken(c.rel)] + ExprTokens(c.r)
  }

  function LinksTokens(links: Links): seq<Token> {
    match links
    case End => []
    case Link(conj, c, more) => [if conj then AndToken else OrToken] + ComparisonTokens(c) + LinksTokens(more)
  }

  function ClauseTokens(c: Clause): seq<Token> {
    ComparisonTokens(c.first) + LinksTokens(c.links)
  }

  // ---------------------------------------------------------------- the variable table

  function Register(names: seq<string>, name: string): (r: seq<string>)
    ensures name in r && names <= r
  {
    if name in names then names else names + [name]
  }

  // The variable table after all identifiers of `ts` have been registered in order
  function RegisterAll(names: seq<string>, ts: seq<Token>): (r: seq<string>)
    ensures names <= r
    decreases ts
  {
    if ts == [] then names
    else RegisterAll(if ts[0].Identifier? then Register(names, ts[0].name) else names, ts[1..])
  }

  lemma {:induction false} RegisterConcat(names: seq<string>, xs: seq<Token>, ys: seq<Token>)
    ensures RegisterAll(names, xs + ys) == RegisterAll(RegisterAll(names, xs), ys)
    decreases xs
  {
    if xs == [] {
      assert xs + ys == ys;
    } else {
      assert (xs + ys)[1..] == xs[1..] + ys;
      RegisterConcat(if xs[0].Identifier? then Register(names, xs[0].name) else names, xs[1..], ys);
    }
  }

  lemma {:induction false} IndexOfPrefix(names: seq<string>, table: seq<string>, name: string)
    requires names <= table && name in names
    ensures IndexOf(names, name) == IndexOf(table, name)
  {
    if names[0] != name {
      assert names[1..] <= table[1..];
      IndexOfPrefix(names[1..], table[1..], name);
    }
  }

  // ---------------------------------------------------------------- meaning

  type Env = string -> int

  function TermValue(t: Term, env: Env): int {
    match t
    case Name(n) => env(n)
    case Number(v) => v
  }

  function ExprValue(e: Expr, env: Env): int {
    TailsValue(TermValue(e.first, env), e.tails, env)
  }

  // The value of a level whose operators so far have made `acc`
  function TailsValue(acc: int, tails: Tails, env: Env): int
    decreases tails
  {
    match tails
    case Done => acc
    case Then(op, arg, more) => TailsValue(Apply(op, acc, ArgValue(arg, env)), more, env)
  }

  function ArgValue(arg: Arg, env: Env): int {
    match arg
    case Plain(t) => TermValue(t, env)
    case Paren(e) => ExprValue(e, env)
  }

  // No division of the expression has a zero divisor.
  predicate TailsSafe(tails: Tails, env: Env) {
    match tails
    case Done => true
    case Then(op, arg, more) =>
      && (arg.Paren? ==> TailsSafe(arg.e.tails, env))
      && (op == Div ==> ArgValue(arg, env) != 0)
      && TailsSafe(more, env)
  }

  predicate ComparisonTruth(c: Comparison, env: Env) {
    Compare(c.rel, ExprValue(c.l, env), ExprValue(c.r, env))
  }

  predicate ComparisonSafe(c: Comparison, env: Env) {
    TailsSafe(c.l.tails, env) && TailsSafe(c.r.tails, env)
  }

  predicate LinksTruth(first: bool, links: Links, env: Env)
    decreases links
  {
    match links
    case End => first
    case Link(conj, c, more) =>
      var rest := LinksTruth(ComparisonTruth(c, env), more, env);
      if conj then first && rest else first || rest
  }

  predicate LinksSafe(links: Links, env: Env) {
    match links
    case End => true
    case Link(_, c, more) => ComparisonSafe(c, env) && LinksSafe(more, env)
  }

  // What a WHERE clause means for one row
  function ClauseVerdict(c: Clause, env: Env): Status {
    if !(ComparisonSafe(c.first, env) && LinksSafe(c.links, env)) then MathError
    else if LinksTruth(ComparisonTruth(c.first, env), c.links, env) then IsTrue
    else IsFalse
  }

  // ---------------------------------------------------------------- what the parser emits

  function TermOperand(t: Term, table: seq<string>): Operand {
    match t
    case Name(n) => Variable(IndexOf(table, n))
    case Number(v) => Long(v)
  }

  function TermCode(t: Term, table: seq<string>): seq<byte> { ArithBytes(Leaf(TermOperand(t, table))) }

  function OpHead(op: ArithOp): (bytes: seq<byte>)
    ensures |bytes| == 4
  {
    Enum(LVM_ARITH_OP) + Enum(ArithCode(op))
  }

  // The first operator of a level is inserted in front of the level, every later one only in
  // front of its own argument.
  function ExprCode(e: Expr, table: seq<string>): (bytes: seq<byte>)
    ensures |bytes| >= 8
  {
    match e.tails
    case Done => TermCode(e.first, table)
    case Then(op, arg, more) =>
      OpHead(op) + TermCode(e.first, table) + ArgCode(arg, table) + TailsCode(more, table)
  }

  function TailsCode(tails: Tails, table: seq<string>): seq<byte> {
    match tails
    case Done => []
    case Then(op, arg, more) => OpHead(op) + ArgCode(arg, table) + TailsCode(more, table)
  }

  function ArgCode(arg: Arg, table: seq<string>): (bytes: seq<byte>)
    ensures |bytes| >= 8
  {
    match arg
    case Plain(t) => TermCode(t, table)
    case Paren(e) => ExprCode(e, table)
  }

  function RelationHead(rel: Relation): (bytes: seq<byte>)
    ensures |bytes| == 4
  {
    Enum(LVM_CMP_OP) + Enum(RelationCode(rel))
  }

  function ConnectiveHead(conj: bool): (bytes: seq<byte>)
    ensures |bytes| == 4
  {
    Enum(LVM_CMP_OP) + Enum(ConnectiveCode(if conj then And else Or))
  }

  function ComparisonCode(c: Comparison, table: seq<string>): seq<byte> {
    RelationHead(c.rel) + ExprCode(c.l, table) + ExprCode(c.r, table)
  }

  // The code of a comparison whose bytes are `first` with what follows it
  function LinksCode(first: seq<byte>, links: Links, table: seq<string>): seq<byte>
    decreases links
  {
    match links
    case End => first
    case Link(conj, c, more) => ConnectiveHead(conj) + first + LinksCode(ComparisonCode(c, table), more, table)
  }

  function ClauseCode(c: Clause, table: seq<string>): seq<byte> {
    LinksCode(ComparisonCode(c.first, table), c.links, table)
  }

  // ---------------------------------------------------------------- what it should emit

  function ExprTree(e: Expr, table: seq<string>): Arith {
    TailsTree(Leaf(TermOperand(e.first, table)), e.tails, table)
  }

  function TailsTree(acc: Arith, tails: Tails, table: seq<string>): Arith
    decreases tails
  {
    match tails
    case Done => acc
    case Then(op, arg, more) => TailsTree(Bin(op, acc, ArgTree(arg, table)), more, table)
  }

  function ArgTree(arg: Arg, table: seq<string>): Arith {
    match arg
    case Plain(t) => Leaf(TermOperand(t, table))
    case Paren(e) => ExprTree(e, table)
  }

  function ComparisonTree(c: Comparison, table: seq<string>): Logic {
    Cmp(c.rel, ExprTree(c.l, table), ExprTree(c.r, table))
  }

  function LinksTree(first: Logic, links: Links, table: seq<string>): Logic
    decreases links
  {
    match links
    case End => first
    case Link(conj, c, more) =>
      var rest := LinksTree(ComparisonTree(c, table), more, table);
      if conj then Both(first, rest) else Either(first, rest)
  }

  function ClauseTree(c: Clause, table: seq<string>): Logic {
    LinksTree(ComparisonTree(c.first, table), c.links, table)
  }

  // ---------------------------------------------------------------- when the two agree

  // At most one operator per level
  predicate OneOperator(e: Expr) {
    match e.tails
    case Done => true
    case Then(_, arg, more) => more.Done? && (arg.Paren? ==> OneOperator(arg.e))
  }

  predicate OneOperatorEach(c: Comparison) { OneOperator(c.l) && OneOperator(c.r) }

  predicate OneOperatorAll(links: Links) {
    match links
    case End => true
    case Link(_, c, more) => OneOperatorEach(c) && OneOperatorAll(more)
  }

  lemma {:induction false} CodeLength(e: Expr, table: seq<string>)
    ensures |ExprCode(e, table)| == |ArithBytes(ExprTree(e, table))|
  {
    if e.tails.Then? {
      ArgLength(e.tails.arg, table);
      TailsLength(Bin(e.tails.op, Leaf(TermOperand(e.first, table)), ArgTree(e.tails.arg, table)), e.tails.more, table);
    }
  }

  lemma {:induction false} ArgLength(arg: Arg, table: seq<string>)
    ensures |ArgCode(arg, table)| == |ArithBytes(ArgTree(arg, table))|
  {
    if arg.Paren? {
      CodeLength(arg.e, table);
    }
  }

  lemma {:induction false} TailsLength(acc: Arith, tails: Tails, table: seq<string>)
    ensures |ArithBytes(TailsTree(acc, tails, table))| == |ArithBytes(acc)| + |TailsCode(tails, table)|
    decreases tails
  {
    if tails.Then? {
      ArgLength(tails.arg, table);
      TailsLength(Bin(tails.op, acc, ArgTree(tails.arg, table)), tails.more, table);
    }
  }

  // After a second operator the tree starts with two operators in a row.
  lemma {:induction false} TwoOperators(acc: Arith, tails: Tails, table: seq<string>)
    requires acc.Bin? && tails.Then?
    ensures TailsTree(acc, tails, table).Bin? && TailsTree(acc, tails, table).l.Bin?
    decreases tails
  {
    if tails.more.Then? {
      TwoOperators(Bin(tails.op, acc, ArgTree(tails.arg, table)), tails.more, table);
    }
  }

  lemma SameTail<T>(x: seq<T>, y: seq<T>, z: seq<T>)
    ensures x + y == x + z <==> y == z
  {
    assert (x + y)[|x|..] == y && (x + z)[|x|..] == z;
  }

  lemma FirstByte(a: Arith)
    ensures |ArithBytes(a)| >= 8 && ArithBytes(a)[0] == if a.Leaf? then LVM_OPERAND else LVM_ARITH_OP
  {
    if a.Bin? {
      FirstByte(a.l);
    }
  }

  lemma FifthByte(op: ArithOp, a: Arith, rest: seq<byte>)
    ensures (OpHead(op) + (ArithBytes(a) + rest))[4] == if a.Leaf? then LVM_OPERAND else LVM_ARITH_OP
  {
    FirstByte(a);
  }

  lemma TwoOperatorsTree(e: Expr, table: seq<string>)
    requires e.tails.Then? && e.tails.more.Then?
    ensures ExprTree(e, table).Bin? && ExprTree(e, table).l.Bin?
  {
    var op, arg, more := e.tails.op, e.tails.arg, e.tails.more;
    var first := Leaf(TermOperand(e.first, table));
    assert ExprTree(e, table) == TailsTree(first, Then(op, arg, more), table);
    TwoOperators(Bin(op, first, ArgTree(arg, table)), more, table);
  }

  lemma Regroup<T>(x: seq<T>, y: seq<T>, z: seq<T>, w: seq<T>)
    ensures x + y + z + w == x + (y + (z + w))
  {
  }

  lemma TwoOperatorsDiffer(e: Expr, table: seq<string>)
    requires e.tails.Then? && e.tails.more.Then?
    ensures ExprCode(e, table) != ArithBytes(ExprTree(e, table))
  {
    var op, rest, tree := e.tails.op, TailsCode(e.tails.more, table), ExprTree(e, table);
    var first := Leaf(TermOperand(e.first, table));
    TwoOperatorsTree(e, table);
    FifthByte(tree.op, tree.l, ArithBytes(tree.r));
    FifthByte(op, first, ArgCode(e.tails.arg, table) + rest);
    Regroup(OpHead(op), ArithBytes(first), ArgCode(e.tails.arg, table), rest);
  }

  lemma OneTail(first: Arith, op: ArithOp, arg: Arg, table: seq<string>)
    ensures TailsTree(first, Then(op, arg, Done), table) == Bin(op, first, ArgTree(arg, table))
  {
    var acc := Bin(op, first, ArgTree(arg, table));
    assert TailsTree(acc, Done, table) == acc;
  }

  // With one operator, what counts is its argument.
  lemma OneOperatorCode(e: Expr, table: seq<string>)
    requires e.tails.Then? && e.tails.more.Done?
    ensures ExprCode(e, table) == ArithBytes(ExprTree(e, table)) <==>
      ArgCode(e.tails.arg, table) == ArithBytes(ArgTree(e.tails.arg, table))
  {
    var op, arg, first := e.tails.op, e.tails.arg, Leaf(TermOperand(e.first, table));
    OneTail(first, op, arg, table);
    BinBytes(op, first, ArgTree(arg, table));
    OneTailCode(e, table);
    SameTail(OpHead(op) + ArithBytes(first), ArgCode(arg, table), ArithBytes(ArgTree(arg, table)));
  }

  lemma BinBytes(op: ArithOp, x: Arith, y: Arith)
    ensures ArithBytes(Bin(op, x, y)) == OpHead(op) + ArithBytes(x) + ArithBytes(y)
  {
    assert OpHead(op) + ArithBytes(x) + ArithBytes(y) == OpHead(op) + (ArithBytes(x) + ArithBytes(y));
  }

  lemma OneTailCode(e: Expr, table: seq<string>)
    requires e.tails.Then? && e.tails.more.Done?
    ensures ExprCode(e, table) ==
      OpHead(e.tails.op) + ArithBytes(Leaf(TermOperand(e.first, table))) + ArgCode(e.tails.arg, table)
  {
    assert TailsCode(Done, table) == [];
  }

  /** The emitted code of an expression is its prefix encoding exactly if no level has two operators. */
  lemma {:induction false} ExprCodeIffOneOperator(e: Expr, table: seq<string>)
    ensures ExprCode(e, table) == ArithBytes(ExprTree(e, table)) <==> OneOperator(e)
  {
    if e.tails.Then? && e.tails.more.Then? {
      TwoOperatorsDiffer(e, table);
    } else if e.tails.Then? {
      OneOperatorCode(e, table);
      if e.tails.arg.Paren? {
        ExprCodeIffOneOperator(e.tails.arg.e, table);
      }
    }
  }

  lemma SameParts<T>(x: seq<T>, y: seq<T>, x': seq<T>, y': seq<T>)
    requires |x| == |x'|
    ensures x + y == x' + y' <==> x == x' && y == y'
  {
    assert (x + y)[..|x|] == x && (x' + y')[..|x|] == x';
    assert (x + y)[|x|..] == y && (x' + y')[|x|..] == y';
  }

  lemma ComparisonCodeIff(c: Comparison, table: seq<string>)
    ensures ComparisonCode(c, table) == LogicBytes(ComparisonTree(c, table)) <==> OneOperatorEach(c)
    ensures |ComparisonCode(c, table)| == |LogicBytes(ComparisonTree(c, table))|
  {
    CodeLength(c.l, table);
    CodeLength(c.r, table);
    ExprCodeIffOneOperator(c.l, table);
    ExprCodeIffOneOperator(c.r, table);
    var l, r := ArithBytes(ExprTree(c.l, table)), ArithBytes(ExprTree(c.r, table));
    assert ComparisonCode(c, table) == RelationHead(c.rel) + (ExprCode(c.l, table) + ExprCode(c.r, table));
    SameTail(RelationHead(c.rel), ExprCode(c.l, table) + ExprCode(c.r, table), l + r);
    SameParts(ExprCode(c.l, table), ExprCode(c.r, table), l, r);
  }

  lemma {:induction false} LinksCodeIff(first: seq<byte>, tree: Logic, links: Links, table: seq<string>)
    requires |first| == |LogicBytes(tree)|
    ensures LinksCode(first, links, table) == LogicBytes(LinksTree(tree, links, table)) <==>
      first == LogicBytes(tree) && OneOperatorAll(links)
    decreases links
  {
    if links.Link? {
      var code, sub := ComparisonCode(links.c, table), ComparisonTree(links.c, table);
      ComparisonCodeIff(links.c, table);
      LinksCodeIff(code, sub, links.more, table);
      var rest, restTree := LinksCode(code, links.more, table), LogicBytes(LinksTree(sub, links.more, table));
      assert LinksCode(first, links, table) == ConnectiveHead(links.conj) + (first + rest);
      assert LogicBytes(LinksTree(tree, links, table)) == ConnectiveHead(links.conj) + (LogicBytes(tree) + restTree);
      SameTail(ConnectiveHead(links.conj), first + rest, LogicBytes(tree) + restTree);
      SameParts(first, rest, LogicBytes(tree), restTree);
    }
  }

  /** The code of a WHERE clause is its prefix encoding exactly if no level of it has two operators. */
  lemma ClauseCodeIffOneOperator(c: Clause, table: seq<string>)
    ensures ClauseCode(c, table) == LogicBytes(ClauseTree(c, table)) <==>
      OneOperatorEach(c.first) && OneOperatorAll(c.links)
  {
    ComparisonCodeIff(c.first, table);
    LinksCodeIff(ComparisonCode(c.first, table), ComparisonTree(c.first, table), c.links, table);
  }

  // ---------------------------------------------------------------- meaning of the encoding

  // The machine's variables hold what the environment says of every name in the table.
  ghost predicate Agrees(table: seq<string>, vals: seq<int>, env: Env) {
    |vals| >= |table| && forall n | n in table :: vals[IndexOf(table, n)] == env(n)
  }

  // Every identifier among the tokens is in the table.
  ghost predicate Covers(table: seq<string>, ts: seq<Token>) {
    forall t | t in ts && t.Identifier? :: t.name in table
  }

  lemma {:induction false} RegisterCovers(names: seq<string>, ts: seq<Token>)
    ensures Covers(RegisterAll(names, ts), ts)
    decreases ts
  {
    if ts != [] {
      var names1 := if ts[0].Identifier? then Register(names, ts[0].name) else names;
      RegisterCovers(names1, ts[1..]);
      assert ts == [ts[0]] + ts[1..];
      assert names1 <= RegisterAll(names, ts);
    }
  }

  lemma {:induction false} ExprTreeMeans(e: Expr, table: seq<string>, vals: seq<int>, env: Env)
    requires Agrees(table, vals, env) && Covers(table, ExprTokens(e))
    ensures ArithValue(ExprTree(e, table), vals) == ExprValue(e, env)
    ensures ArithSafe(ExprTree(e, table), vals) == TailsSafe(e.tails, env)
  {
    assert TermToken(e.first) in ExprTokens(e);
    assert forall t | t in TailsTokens(e.tails) :: t in ExprTokens(e);
    TailsTreeMeans(Leaf(TermOperand(e.first, table)), e.tails, table, vals, env);
  }

  lemma {:induction false} TailsTreeMeans(acc: Arith, tails: Tails, table: seq<string>, vals: seq<int>, env: Env)
    requires Agrees(table, vals, env) && Covers(table, TailsTokens(tails))
    ensures ArithValue(TailsTree(acc, tails, table), vals) == TailsValue(ArithValue(acc, vals), tails, env)
    ensures ArithSafe(TailsTree(acc, tails, table), vals) == (ArithSafe(acc, vals) && TailsSafe(tails, env))
    decreases tails
  {
    if tails.Then? {
      var ts := TailsTokens(tails);
      assert forall t | t in ArgTokens(tails.arg) :: t in ts;
      assert forall t | t in TailsTokens(tails.more) :: t in ts;
      match tails.arg {
        case Plain(t) => assert TermToken(t) in ArgTokens(tails.arg);
        case Paren(e) =>
          assert forall t | t in ExprTokens(e) :: t in ArgTokens(tails.arg);
          ExprTreeMeans(e, table, vals, env);
      }
      TailsTreeMeans(Bin(tails.op, acc, ArgTree(tails.arg, table)), tails.more, table, vals, env);
    }
  }

  lemma ComparisonTreeMeans(c: Comparison, table: seq<string>, vals: seq<int>, env: Env)
    requires Agrees(table, vals, env) && Covers(table, ComparisonTokens(c))
    ensures LogicTruth(ComparisonTree(c, table), vals) == ComparisonTruth(c, env)
    ensures LogicSafe(ComparisonTree(c, table), vals) == ComparisonSafe(c, env)
  {
    assert forall t | t in ExprTokens(c.l) :: t in ComparisonTokens(c);
    assert forall t | t in ExprTokens(c.r) :: t in ComparisonTokens(c);
    ExprTreeMeans(c.l, table, vals, env);
    ExprTreeMeans(c.r, table, vals, env);
  }

  lemma {:induction false} LinksTreeMeans(first: Logic, links: Links, table: seq<string>, vals: seq<int>, env: Env)
    requires Agrees(table, vals, env) && Covers(table, LinksTokens(links))
    ensures LogicTruth(LinksTree(first, links, table), vals) == LinksTruth(LogicTruth(first, vals), links, env)
    ensures LogicSafe(LinksTree(first, links, table), vals) == (LogicSafe(first, vals) && LinksSafe(links, env))
    decreases links
  {
    if links.Link? {
      assert forall t | t in ComparisonTokens(links.c) :: t in LinksTokens(links);
      assert forall t | t in LinksTokens(links.more) :: t in LinksTokens(links);
      ComparisonTreeMeans(links.c, table, vals, env);
      LinksTreeMeans(ComparisonTree(links.c, table), links.more, table, vals, env);
    }
  }

  /** Running the prefix encoding of a clause tells what the clause means. */
  lemma ClauseTreeMeans(c: Clause, table: seq<string>, vals: seq<int>, env: Env)
    requires Agrees(table, vals, env) && Covers(table, ClauseTokens(c))
    ensures Verdict(ClauseTree(c, table), vals) == ClauseVerdict(c, env)
  {
    assert forall t | t in ComparisonTokens(c.first) :: t in ClauseTokens(c);
    assert forall t | t in LinksTokens(c.links) :: t in ClauseTokens(c);
    ComparisonTreeMeans(c.first, table, vals, env);
    LinksTreeMeans(ComparisonTree(c.first, table), c.links, table, vals, env);
  }

  /**
   With two operators on one level the meaning is lost: the code emitted for the comparison
   `t op1 x op2 y rel z` is that of `t op1 x rel y op2 z`.
   */
  lemma TwoOperatorsMisread(t: Term, op1: ArithOp, x: Term, op2: ArithOp, y: Term, rel: Relation, z: Term,
                            table: seq<string>)
    ensures var two := Expr(t, Then(op1, Plain(x), Then(op2, Plain(y), Done)));
      ComparisonCode(Comparison(two, rel, Expr(z, Done)), table)
      == LogicBytes(Cmp(rel, Bin(op1, ArgTree(Plain(t), table), ArgTree(Plain(x), table)),
                        Bin(op2, ArgTree(Plain(y), table), ArgTree(Plain(z), table))))
  {
    var two := Expr(t, Then(op1, Plain(x), Then(op2, Plain(y), Done)));
    var a, b, c, d := TermCode(t, table), TermCode(x, table), TermCode(y, table), TermCode(z, table);
    var h1, h2 := OpHead(op1), OpHead(op2);
    assert TailsCode(Then(op2, Plain(y), Done), table) == h2 + c by {
      assert TailsCode(Then(op2, Plain(y), Done), table) == h2 + c + TailsCode(Done, table);
    }
    assert ExprCode(two, table) == h1 + a + b + (h2 + c);
    RegroupAll(RelationHead(rel), h1, a, b, h2, c, d);
  }

  lemma RegroupAll<T>(r: seq<T>, h1: seq<T>, a: seq<T>, b: seq<T>, h2: seq<T>, c: seq<T>, d: seq<T>)
    ensures r + (h1 + a + b + (h2 + c)) + d == r + ((h1 + (a + b)) + (h2 + (c + d)))
  {
  }

  /** For example 1 - 1 - 1 > -5 is true, but it runs as 1 - 1 > 1 - -5. */
  lemma MisreadingMatters(env: Env)
    ensures var two := Expr(Number(1), Then(Sub, Plain(Number(1)), Then(Sub, Plain(Number(1)), Done)));
      ClauseVerdict(Clause(Comparison(two, Gt, Expr(Number(-5), Done)), End), env) == IsTrue
    ensures var one := Leaf(Long(1)); Verdict(Cmp(Gt, Bin(Sub, one, one), Bin(Sub, one, Leaf(Long(-5)))), []) == IsFalse
  {
    var one := Plain(Number(1));
    var more := Then(Sub, one, Done);
    assert TailsValue(0, more, env) == TailsValue(-1, Done, env) == -1;
  }
}
