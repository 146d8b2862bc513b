/**
 The part of the Antelope parser that compiles WHERE clauses (apps/antelope/aql-parser.c):
 a recursive-descent parser that writes bytecode while it reads tokens and moves code it
 has already written to make room for operators.

 Every method takes any token stream.  Its ghost arguments name a phrase; when the stream
 spells that phrase at the current position, the method reads exactly its tokens and leaves
 exactly its code.  Otherwise it only stays inside the code array.
 */
module AqlParser {
  import opened Bytes
  import opened Lvm
  import opened AqlSyntax

  // enum aql_status; codes from SYNTAX_ERROR on are errors
  const OK := 2
  const SYNTAX_ERROR := 3

  // The bytes of code that a token can give rise to
  function TokenCost(t: Token): nat {
    match t
    case Identifier(_) => 8
    case IntegerValue(_) => 8
    case ArithToken(_) => 4
    case AndToken => 8
    case OrToken => 8
    case _ => 0
  }

  function Cost(ts: seq<Token>): nat {
    if ts == [] then 0 else TokenCost(ts[0]) + Cost(ts[1..])
  }

  // The next token, if there is one
  function Peek(rest: seq<Token>): Token {
    if rest == [] then NoToken else rest[0]
  }

  // The identifiers of a token stream
  ghost function Identifiers(ts: seq<Token>): set<string> {
    if ts == [] then {}
    else Identifiers(ts[1..]) + if ts[0].Identifier? then {ts[0].name} else {}
  }

  // What a parsing method reads and changes
  datatype State = State(rest: seq<Token>, names: seq<string>, code: seq<byte>, error: bool)

  // The tokens of `phrase` and then those of `tail` stand here, and `table` is what the variable table will be.
  ghost predicate Stands(s: State, phrase: seq<Token>, tail: seq<Token>, table: seq<string>) {
    s.rest == phrase + tail && RegisterAll(s.names, s.rest) == table
  }

  // Everything up to `tail` has been read and `code` is what has been written.
  ghost predicate Reached(s: State, tail: seq<Token>, table: seq<string>, code: seq<byte>, error: bool) {
    Stands(s, [], tail, table) && s.code == code && s.error == error
  }

  // Where reading an expression stops: a closing parenthesis behind it is read as well.
  function Behind(tail: seq<Token>): seq<Token> {
    if Peek(tail) == RightParen then tail[1..] else tail
  }

  // The code of a level that has been read up to `tails`: its next operator goes between `head` and `pending`.
  function TailsInserted(head: seq<byte>, pending: seq<byte>, tails: Tails, table: seq<string>): seq<byte> {
    match tails
    case Done => head + pending
    case Then(op, arg, more) => head + OpHead(op) + pending + ArgCode(arg, table) + TailsCode(more, table)
  }

  lemma ExprInserted(base: seq<byte>, e: Expr, table: seq<string>)
    ensures TailsInserted(base, TermCode(e.first, table), e.tails, table) == base + ExprCode(e, table)
  {
  }

  lemma PairInserted(head: seq<byte>, pending: seq<byte>, tails: Tails, table: seq<string>)
    requires tails.Then?
    ensures TailsInserted(head, pending, tails, table)
         == TailsInserted(head + OpHead(tails.op) + (pending + ArgCode(tails.arg, table)), [], tails.more, table)
  {
    var head' := head + OpHead(tails.op) + (pending + ArgCode(tails.arg, table));
    assert head' == head + OpHead(tails.op) + pending + ArgCode(tails.arg, table);
    assert TailsInserted(head', [], tails.more, table) == head' + TailsCode(tails.more, table);
  }

  // What is left to read of a level, split behind its next operator
  lemma PairTokens(tails: Tails, tail: seq<Token>)
    requires tails.Then?
    ensures var rest := TailsTokens(tails) + tail;
      rest != [] && rest[0] == ArithToken(tails.op) &&
      rest[1..] == ArgTokens(tails.arg) + (TailsTokens(tails.more) + tail)
  {
    assert TailsTokens(tails) + tail
        == [ArithToken(tails.op)] + (ArgTokens(tails.arg) + (TailsTokens(tails.more) + tail));
  }

  // How far the loop of parse_expr has come
  ghost predicate InLoop(s: State, at: nat, tails: Tails, tail: seq<Token>, table: seq<string>,
                         goal: seq<byte>, error: bool)
  {
    && Stands(s, TailsTokens(tails), tail, table) && s.error == error
    && at <= |s.code| && TailsInserted(s.code[..at], s.code[at..], tails, table) == goal
  }

  lemma InLoopPair(s: State, at: nat, tails: Tails, tail: seq<Token>, table: seq<string>, goal: seq<byte>,
                   error: bool, s': State)
    requires tails.Then? && InLoop(s, at, tails, tail, table, goal, error)
    requires Reached(s', TailsTokens(tails.more) + tail, table,
      s.code[..at] + OpHead(tails.op) + (s.code[at..] + ArgCode(tails.arg, table)), error)
    ensures InLoop(s', |s'.code|, tails.more, tail, table, goal, error)
  {
    PairInserted(s.code[..at], s.code[at..], tails, table);
    assert s'.code[..|s'.code|] == s'.code && s'.code[|s'.code|..] == [];
  }

  // How far the loop of parse_where has come
  ghost predicate InChain(s: State, at: nat, links: Links, tail: seq<Token>, table: seq<string>,
                          goal: seq<byte>, error: bool)
  {
    && Stands(s, LinksTokens(links), tail, table) && s.error == error
    && at < |s.code| && s.code[..at] + LinksCode(s.code[at..], links, table) == goal
  }

  lemma LinkTokens(links: Links, tail: seq<Token>)
    requires links.Link?
    ensures var rest := LinksTokens(links) + tail;
      rest != [] && rest[0] == (if links.conj then AndToken else OrToken) &&
      rest[1..] == ComparisonTokens(links.c) + (LinksTokens(links.more) + tail)
  {
    HeadOfThree(if links.conj then AndToken else OrToken, ComparisonTokens(links.c), LinksTokens(links.more), tail);
  }

  lemma HeadOfThree<T>(x: T, y: seq<T>, z: seq<T>, tail: seq<T>)
    ensures [x] + y + z + tail == [x] + (y + (z + tail))
    ensures ([x] + y + z + tail)[1..] == y + (z + tail)
  {
    assert [x] + y + z + tail == [x] + (y + (z + tail));
  }

  lemma LinkInserted(head: seq<byte>, first: seq<byte>, links: Links, table: seq<string>)
    requires links.Link?
    ensures head + LinksCode(first, links, table)
         == head + ConnectiveHead(links.conj) + first + LinksCode(ComparisonCode(links.c, table), links.more, table)
  {
    var rest := LinksCode(ComparisonCode(links.c, table), links.more, table);
    assert LinksCode(first, links, table) == ConnectiveHead(links.conj) + first + rest;
  }

  lemma InChainLink(s: State, at: nat, links: Links, tail: seq<Token>, table: seq<string>, goal: seq<byte>,
                    error: bool, s': State)
    requires links.Link? && InChain(s, at, links, tail, table, goal, error)
    requires Reached(s', LinksTokens(links.more) + tail, table,
      s.code[..at] + ConnectiveHead(links.conj) + s.code[at..] + ComparisonCode(links.c, table), error)
    ensures InChain(s', |s.code| + 4, links.more, tail, table, goal, error)
  {
    LinkInserted(s.code[..at], s.code[at..], links, table);
    SplitAt(s.code[..at] + ConnectiveHead(links.conj) + s.code[at..], ComparisonCode(links.c, table));
    assert [] + (LinksTokens(links.more) + tail) == LinksTokens(links.more) + tail;
  }

  lemma SliceAppend<T>(x: seq<T>, y: seq<T>, at: nat)
    requires at <= |x|
    ensures (x + y)[..at] == x[..at] && (x + y)[at..] == x[at..] + y
  {
  }

  lemma SplitAt<T>(x: seq<T>, y: seq<T>)
    ensures (x + y)[..|x|] == x && (x + y)[|x|..] == y
  {
  }

  // Where no connective follows, the clause is finished.
  lemma InChainStop(s: State, at: nat, links: Links, tail: seq<Token>, table: seq<string>, goal: seq<byte>, error: bool)
    requires InChain(s, at, links, tail, table, goal, error) && Peek(s.rest) != AndToken && Peek(s.rest) != OrToken
    ensures links.End? && Reached(s, tail, table, goal, error)
  {
    if links.Link? {
      LinkTokens(links, tail);
    }
    assert s.code[..at] + s.code[at..] == s.code;
    assert [] + tail == tail;
  }

  // What may follow a clause
  predicate EndsClause(t: Token) {
    !t.ArithToken? && t != RightParen && t != AndToken && t != OrToken
  }

  // What follows a comparison of a clause: a connective, or what follows the clause
  lemma LinkFollows(links: Links, tail: seq<Token>)
    requires EndsClause(Peek(tail))
    ensures !Peek(LinksTokens(links) + tail).ArithToken? && Peek(LinksTokens(links) + tail) != RightParen
  {
    if links.Link? {
      LinkTokens(links, tail);
    } else {
      assert [] + tail == tail;
    }
  }

  // Where no operator follows, the level is finished.
  lemma InLoopStop(s: State, at: nat, tails: Tails, tail: seq<Token>, table: seq<string>, goal: seq<byte>,
                   error: bool, s': State)
    requires InLoop(s, at, tails, tail, table, goal, error) && !Peek(s.rest).ArithToken?
    requires s' == s.(rest := Behind(s.rest)) && RegisterAll(s'.names, s'.rest) == RegisterAll(s.names, s.rest)
    ensures tails.Done? && Reached(s', Behind(tail), table, goal, error)
  {
    if tails.Then? {
      PairTokens(tails, tail);
    }
    assert s.code[..at] + s.code[at..] == s.code;
    assert [] + tail == tail;
  }

  class Parser {
    // The text that is left to read, and what was left before the last token
    var input: seq<Token>
    var prevPos: seq<Token>
    var token: Token
    const p: Machine
    ghost predicate Valid()
      reads this, p, p.code
    {
      && (input == prevPos || (prevPos != [] && input == prevPos[1..]))
      && p.end <= p.code.Length
    }

    // The code written so far with all that the rest of the query can add
    ghost function Demand(): nat
      reads this, p
    {
      p.end + Cost(input)
    }

    ghost function Now(): State
      reads this, p, p.code
      requires p.end <= p.code.Length
    {
      State(input, p.names, p.code[..p.end], p.error)
    }

    // The identifiers of the query have to fit the variable table, whose bound is not checked while parsing.
    constructor (ts: seq<Token>, machine: Machine)
      requires |Identifiers(ts)| <= VARIABLE_LIMIT
      requires machine.names == [] && machine.end <= machine.code.Length
      ensures Valid() && input == ts && p == machine
    {
      input, prevPos, token, p := ts, ts, NoToken, machine;
    }

    // lexer_next
    method Next()
      requires Valid()
      modifies this
      ensures Valid() && prevPos == old(input) && token == Peek(old(input))
      ensures input == if old(input) == [] then [] else old(input)[1..]
      ensures old(Demand()) == TokenCost(token) + Demand()
      ensures RegisterAll(p.names, old(input))
           == RegisterAll(if token.Identifier? then Register(p.names, token.name) else p.names, input)
    {
      prevPos := input;
      if input != [] {
        token := input[0];
        input := input[1..];
      } else {
        token := NoToken;
      }
    }

    // lexer_rewind
    method Rewind()
      requires Valid()
      modifies this`input
      ensures Valid() && input == prevPos
    {
      input := prevPos;
    }

    // parse_op
    method ParseOp() returns (t: Token)
      requires Valid()
      modifies this
      ensures Valid() && prevPos == old(input) && old(Demand()) == TokenCost(token) + Demand()
      ensures token == Peek(old(input))
      ensures t == if token.ArithToken? || token.RightParen? then token else NoToken
      ensures t != NoToken ==>
        old(input) != [] && input == old(input)[1..] && RegisterAll(p.names, old(input)) == RegisterAll(p.names, input)
    {
      Next();
      if token.ArithToken? || token.RightParen? {
        return token;
      }
      return NoToken;
    }

    // parse_cmp
    method ParseCmp() returns (t: Token)
      requires Valid()
      modifies this
      ensures Valid() && old(Demand()) == TokenCost(token) + Demand()
      ensures |input| <= old(|input|) && Cost(input) <= old(Cost(input))
      ensures t == if Peek(old(input)).CmpToken? then Peek(old(input)) else NoToken
      ensures t != NoToken ==>
        old(input) != [] && input == old(input)[1..] && RegisterAll(p.names, old(input)) == RegisterAll(p.names, input)
    {
      Next();
      if token.CmpToken? {
        return token;
      }
      return NoToken;
    }

    // lvm_register_variable and lvm_set_variable
    method UseVariable(name: string, ghost table: seq<string>)
      requires p.end + 8 <= p.code.Length
      modifies p`end, p`names, p.code
      ensures p.end == old(p.end) + 8 && p.names == Register(old(p.names), name)
      ensures p.names <= table ==> p.code[..p.end] == old(p.code[..p.end]) + TermCode(Name(name), table)
    {
      p.RegisterVariable(name);
      p.SetVariable(name);
      if p.names <= table {
        IndexOfPrefix(p.names, table, name);
      }
    }

    // parse_operand
    method ParseOperand(ghost t: Term, ghost tail: seq<Token>, ghost table: seq<string>) returns (ok: bool)
      requires Valid() && Demand() < p.code.Length
      modifies this, p`end, p`names, p.code
      ensures Valid() && |input| <= old(|input|) && Cost(input) <= old(Cost(input)) && Demand() <= old(Demand())
      ensures ok ==> |input| < old(|input|)
      ensures Stands(old(Now()), [TermToken(t)], tail, table) ==>
        ok && Reached(Now(), tail, table, old(Now()).code + TermCode(t, table), p.error)
      ensures Peek(old(input)) == LeftParen ==>
        !ok && Now() == old(Now()).(rest := old(input)[1..]) &&
        RegisterAll(p.names, old(input)) == RegisterAll(p.names, input)
    {
      ghost var was := Now();
      Next();
      ok := true;
      match token {
        case Identifier(name) =>
          UseVariable(name, table);
        case StringValue =>
        case FloatValue =>
        case IntegerValue(v) =>
          p.SetOperand(Long(v));
        case _ =>
          ok := false;
      }
    }

    // shift_for_operator, set_op and set_end: put an operator in front of the code from `at` on
    method InsertOperator(at: nat, op: ArithOp) returns (newAt: nat)
      requires p.end + 4 < p.code.Length
      modifies p`end, p`error, p.code
      ensures newAt == p.end <= old(p.end) + 4
      ensures at < old(p.end) ==>
        && p.error == old(p.error)
        && newAt == old(p.end) + 4
        && p.code[..newAt] == old(p.code[..p.end])[..at] + OpHead(op) + old(p.code[..p.end])[at..]
    {
      ghost var was := p.code[..p.end];
      newAt := p.ShiftForOperator(at);
      ghost var moved := p.code[p.end..];
      p.SetOp(op);
      if at < old(p.end) {
        assert p.code[at + 4..newAt] == p.code[at + 4..][..newAt - at - 4] == moved[4..][..newAt - at - 4];
        assert moved[4..][..newAt - at - 4] == moved[..newAt - at][4..] == was[at..];
      }
      var _ := p.SetEnd(newAt);
      if at < old(p.end) {
        assert p.code[..newAt] == p.code[..at + 4] + p.code[at + 4..newAt];
        assert was[..at] == old(p.code[..at]);
      }
    }

    // The start of parse_expr: an operand, or an expression in parentheses
    method ParseHead(ghost t: Term, ghost tail: seq<Token>, ghost table: seq<string>) returns (ok: bool)
      requires Valid() && Demand() < p.code.Length
      modifies this, p`end, p`error, p`names, p.code
      ensures Valid() && |input| <= old(|input|) && Cost(input) <= old(Cost(input)) && Demand() <= old(Demand())
      ensures ok ==> |input| < old(|input|)
      ensures Stands(old(Now()), [TermToken(t)], tail, table) ==>
        ok && Reached(Now(), tail, table, old(Now()).code + TermCode(t, table), old(p.error))
      decreases |input|, 0
    {
      Next();
      if token == LeftParen {
        ok := ParseExpr(Expr(t, Done), tail, table);
        if ok {
          Next();
          ok := token == RightParen;
        }
      } else {
        Rewind();
        ok := ParseOperand(t, tail, table);
      }
    }

    // parse_expr
    method ParseExpr(ghost e: Expr, ghost tail: seq<Token>, ghost table: seq<string>) returns (ok: bool)
      requires Valid() && Demand() < p.code.Length
      modifies this, p`end, p`error, p`names, p.code
      ensures Valid() && |input| <= old(|input|) && Cost(input) <= old(Cost(input)) && Demand() <= old(Demand())
      ensures Stands(old(Now()), ExprTokens(e), tail, table) && !Peek(tail).ArithToken? ==>
        ok && Reached(Now(), Behind(tail), table, old(Now()).code + ExprCode(e, table), old(p.error))
      decreases |input|, 3
    {
      var savedEnd := p.end;
      ghost var was, rest := Now(), TailsTokens(e.tails) + tail;
      assert ExprTokens(e) + tail == [TermToken(e.first)] + rest;
      ok := ParseHead(e.first, rest, table);
      if !ok {
        return;
      }
      ghost var now := Now();
      if Stands(was, ExprTokens(e), tail, table) {
        assert now.code[..savedEnd] == was.code && now.code[savedEnd..] == TermCode(e.first, table);
        ExprInserted(was.code, e, table);
      }
      ok := ParseTails(savedEnd, e.tails, tail, table);
    }

    // `!PARSE(operand) && !PARSE(expr)`: the argument of an operator.  parse_operand fails on an opening
    // parenthesis but reads it.
    method ParseArg(ghost arg: Arg, ghost tail: seq<Token>, ghost table: seq<string>) returns (ok: bool)
      requires Valid() && Demand() < p.code.Length
      modifies this, p`end, p`error, p`names, p.code
      ensures Valid() && |input| <= old(|input|) && Cost(input) <= old(Cost(input)) && Demand() <= old(Demand())
      ensures Stands(old(Now()), ArgTokens(arg), tail, table) ==>
        ok && Reached(Now(), tail, table, old(Now()).code + ArgCode(arg, table), old(p.error))
      decreases |input|, 4
    {
      ghost var term := if arg.Plain? then arg.t else Number(0);
      ghost var e := if arg.Paren? then arg.e else Expr(term, Done);
      assert arg.Paren? ==> ArgTokens(arg) + tail == [LeftParen] + (ExprTokens(e) + ([RightParen] + tail));
      ok := ParseOperand(term, tail, table);
      if !ok {
        ok := ParseExpr(e, [RightParen] + tail, table);
      }
    }

    // The argument of an operator, and the code of the operator in front of the code from `at` on
    method ParsePair(at: nat, op: ArithOp, ghost arg: Arg, ghost rest: seq<Token>, ghost table: seq<string>)
      returns (ok: bool, newAt: nat)
      requires Valid() && Demand() + 4 < p.code.Length
      modifies this, p`end, p`error, p`names, p.code
      ensures Valid() && |input| <= old(|input|) && Cost(input) <= old(Cost(input)) && Demand() <= old(Demand()) + 4
      ensures at <= old(p.end) && Stands(old(Now()), ArgTokens(arg), rest, table) ==>
        ok && newAt == p.end &&
        Reached(Now(), rest, table,
          old(Now()).code[..at] + OpHead(op) + (old(Now()).code[at..] + ArgCode(arg, table)), old(p.error))
      decreases |input|, 5
    {
      ghost var was := Now();
      newAt := at;
      ok := ParseArg(arg, rest, table);
      if !ok {
        return;
      }
      if at <= |was.code| {
        SliceAppend(was.code, ArgCode(arg, table), at);
      }
      newAt := InsertOperator(at, op);
    }

    // The start of a turn of the loop of parse_expr: whatever ends the loop is handled here.
    method NextOperator() returns (op: Token)
      requires Valid()
      modifies this
      ensures Valid() && |input| <= old(|input|) && Cost(input) <= old(Cost(input)) && Demand() <= old(Demand())
      ensures Peek(old(input)).ArithToken? ==>
        op == Peek(old(input)) && |input| < old(|input|) && Demand() + 4 == old(Demand()) &&
        Now() == old(Now()).(rest := old(input)[1..])
      ensures !Peek(old(input)).ArithToken? ==>
        op == NoToken && Now() == old(Now()).(rest := Behind(old(input)))
      ensures RegisterAll(p.names, input) == RegisterAll(p.names, old(input))
    {
      op := ParseOp();
      if op == NoToken {
        Rewind();
      } else if op == RightParen {
        op := NoToken;
      }
    }

    // One turn of the loop of parse_expr
    method ParseTurn(at: nat, ghost tails: Tails, ghost tail: seq<Token>, ghost table: seq<string>,
                     ghost goal: seq<byte>)
      returns (ok: bool, again: bool, newAt: nat)
      requires Valid() && Demand() < p.code.Length
      modifies this, p`end, p`error, p`names, p.code
      ensures Valid() && |input| <= old(|input|) && Cost(input) <= old(Cost(input)) && Demand() <= old(Demand())
      ensures again ==> |input| < old(|input|)
      ensures !Peek(tail).ArithToken? && InLoop(old(Now()), at, tails, tail, table, goal, old(p.error)) ==>
        ok && again == tails.Then? &&
        if again then InLoop(Now(), newAt, tails.more, tail, table, goal, old(p.error))
        else Reached(Now(), Behind(tail), table, goal, old(p.error))
      decreases |input|, 1
    {
      ghost var was, error := Now(), p.error;
      ghost var good := !Peek(tail).ArithToken? && InLoop(was, at, tails, tail, table, goal, error);
      if good && tails.Then? {
        PairTokens(tails, tail);
      }
      var op := NextOperator();
      if op == NoToken {
        if good {
          InLoopStop(was, at, tails, tail, table, goal, error, Now());
        }
        return true, false, at;
      }
      assert good ==> tails.Then? && op == ArithToken(tails.op);
      ghost var pair := if tails.Then? then tails else Then(Add, Plain(Number(0)), Done);
      again := true;
      ok, newAt := ParsePair(at, op.op, pair.arg, TailsTokens(pair.more) + tail, table);
      if good {
        assert Reached(Now(), TailsTokens(tails.more) + tail, table,
          was.code[..at] + OpHead(tails.op) + (was.code[at..] + ArgCode(tails.arg, table)), error);
        InLoopPair(was, at, tails, tail, table, goal, error, Now());
      }
    }

    // The loop of parse_expr
    method ParseTails(at: nat, ghost tails: Tails, ghost tail: seq<Token>, ghost table: seq<string>)
      returns (ok: bool)
      requires Valid() && Demand() < p.code.Length
      modifies this, p`end, p`error, p`names, p.code
      ensures Valid() && |input| <= old(|input|) && Cost(input) <= old(Cost(input)) && Demand() <= old(Demand())
      ensures at < old(p.end) && Stands(old(Now()), TailsTokens(tails), tail, table) && !Peek(tail).ArithToken? ==>
        ok && Reached(Now(), Behind(tail), table,
          TailsInserted(old(Now()).code[..at], old(Now()).code[at..], tails, table), old(p.error))
      decreases |input|, 2
    {
      var savedEnd: nat, again := at, true;
      ghost var remaining, was, error := tails, Now(), p.error;
      ghost var good := at < p.end && Stands(was, TailsTokens(tails), tail, table) && !Peek(tail).ArithToken?;
      ghost var goal := if at < p.end then TailsInserted(was.code[..at], was.code[at..], tails, table) else [];
      ok := true;
      while again && ok
        invariant Valid() && |input| <= old(|input|) && Cost(input) <= old(Cost(input)) && Demand() <= old(Demand())
        invariant good ==> ok && if again then InLoop(Now(), savedEnd, remaining, tail, table, goal, error)
                                 else Reached(Now(), Behind(tail), table, goal, error)
        decreases |input|, again
      {
        ok, again, savedEnd := ParseTurn(savedEnd, remaining, tail, table, goal);
        remaining := if remaining.Then? then remaining.more else Done;
      }
    }

    // The start of parse_comparison: room for the relation, and the left-hand side behind it
    method ParseLeft(ghost e: Expr, ghost tail: seq<Token>, ghost table: seq<string>)
      returns (ok: bool, start: nat, ghost hole: seq<byte>)
      requires Valid() && Demand() + 4 < p.code.Length
      modifies this, p`end, p`error, p`names, p.code
      ensures Valid() && |input| <= old(|input|) && Cost(input) <= old(Cost(input)) && Demand() <= old(Demand()) + 4
      ensures start == old(p.end)
      ensures |hole| == 4
      ensures !Peek(tail).ArithToken? && Peek(tail) != RightParen && Stands(old(Now()), ExprTokens(e), tail, table) ==>
        ok && Reached(Now(), tail, table, old(Now()).code + hole + ExprCode(e, table), old(p.error))
    {
      ghost var was := Now();
      start := p.JumpToOperand();
      hole := p.code[start..start + 4];
      assert p.code[..p.end] == was.code + hole;
      ok := ParseExpr(e, tail, table);
    }

    // set_relation and set_end: fill the room in front of a left-hand side
    method FillRelation(savedEnd: nat, rel: Relation, ghost base: seq<byte>, ghost hole: seq<byte>, ghost e: seq<byte>)
      requires p.end + 4 <= p.code.Length && savedEnd < p.code.Length
      modifies p`end, p`error, p.code
      ensures p.end == savedEnd && p.error == old(p.error)
      ensures old(p.code[..savedEnd]) == base + hole + e && |hole| == 4 && |base| == old(p.end) ==>
        p.code[..p.end] == base + RelationHead(rel) + e
    {
      ghost var start, ahead, whole := p.end, p.code[p.end..], p.code[..savedEnd];
      ghost var below := p.code[..p.end];
      p.SetRelation(RelationCode(rel));
      assert p.code[start + 4..] == ahead[4..] && p.code[..start + 4] == below + RelationHead(rel);
      if whole == base + hole + e && |hole| == 4 && |base| == start {
        assert below == whole[..start] == base;
        assert ahead[4..][..|e|] == whole[start + 4..] == e;
        assert p.code[..savedEnd] == p.code[..start + 4] + p.code[start + 4..][..|e|];
      }
      var _ := p.SetEnd(savedEnd);
    }

    // parse_comparison up to its relation
    method ParseLeftAndRelation(ghost c: Comparison, ghost right: seq<Token>, ghost table: seq<string>)
      returns (ok: bool)
      requires Valid() && Demand() + 4 < p.code.Length
      modifies this, p`end, p`error, p`names, p.code
      ensures Valid() && |input| <= old(|input|) && Cost(input) <= old(Cost(input)) && Demand() <= old(Demand()) + 4
      ensures Stands(old(Now()), ExprTokens(c.l), [CmpToken(c.rel)] + right, table) ==>
        ok && Reached(Now(), right, table, old(Now()).code + RelationHead(c.rel) + ExprCode(c.l, table), old(p.error))
    {
      ghost var base, error := Now().code, p.error;
      ghost var good := Stands(Now(), ExprTokens(c.l), [CmpToken(c.rel)] + right, table);
      var savedEnd;
      ghost var hole;
      ok, savedEnd, hole := ParseLeft(c.l, [CmpToken(c.rel)] + right, table);
      if !ok {
        assert !good;
        return;
      }
      ghost var left := Now();
      assert good ==> Reached(left, [CmpToken(c.rel)] + right, table, base + hole + ExprCode(c.l, table), error);
      savedEnd := p.SetEnd(savedEnd);
      var relation := ParseCmp();
      if relation == NoToken {
        assert !good;
        return false;
      }
      assert good ==> relation == CmpToken(c.rel) && input == right;
      FillRelation(savedEnd, relation.rel, base, hole, ExprCode(c.l, table));
    }

    // parse_comparison
    method ParseComparison(ghost c: Comparison, ghost tail: seq<Token>, ghost table: seq<string>) returns (ok: bool)
      requires Valid() && Demand() + 4 < p.code.Length
      modifies this, p`end, p`error, p`names, p.code
      ensures Valid() && |input| <= old(|input|) && Cost(input) <= old(Cost(input)) && Demand() <= old(Demand()) + 4
      ensures !Peek(tail).ArithToken? && Peek(tail) != RightParen &&
              Stands(old(Now()), ComparisonTokens(c), tail, table) ==>
        ok && Reached(Now(), tail, table, old(Now()).code + ComparisonCode(c, table), old(p.error))
    {
      ghost var base, right := Now().code, ExprTokens(c.r) + tail;
      assert ComparisonTokens(c) + tail == ExprTokens(c.l) + ([CmpToken(c.rel)] + right);
      ok := ParseLeftAndRelation(c, right, table);
      if ok {
        ok := ParseExpr(c.r, tail, table);
      }
      ghost var left, after := ExprCode(c.l, table), ExprCode(c.r, table);
      assert base + RelationHead(c.rel) + left + after == base + ComparisonCode(c, table);
    }

    // shift_for_operator, set_relation and set_end: put a connective in front of the code from `at` on
    method InsertConnective(at: nat, conj: bool) returns (newAt: nat)
      requires p.end + 4 < p.code.Length
      modifies p`end, p`error, p.code
      ensures newAt == p.end <= old(p.end) + 4
      ensures at < old(p.end) ==>
        && p.error == old(p.error)
        && newAt == old(p.end) + 4
        && p.code[..newAt] == old(p.code[..p.end])[..at] + ConnectiveHead(conj) + old(p.code[..p.end])[at..]
    {
      ghost var was := p.code[..p.end];
      newAt := p.ShiftForOperator(at);
      ghost var moved := p.code[p.end..];
      p.SetRelation(ConnectiveCode(if conj then And else Or));
      if at < old(p.end) {
        assert p.code[at + 4..newAt] == p.code[at + 4..][..newAt - at - 4] == moved[4..][..newAt - at - 4];
        assert moved[4..][..newAt - at - 4] == moved[..newAt - at][4..] == was[at..];
      }
      var _ := p.SetEnd(newAt);
      if at < old(p.end) {
        assert p.code[..newAt] == p.code[..at + 4] + p.code[at + 4..newAt];
        assert was[..at] == old(p.code[..at]);
      }
    }

    // The head of a turn of the loop of parse_where
    method NextConnective() returns (found: bool, conj: bool)
      requires Valid()
      modifies this
      ensures Valid() && |input| <= old(|input|) && Cost(input) <= old(Cost(input)) && Demand() <= old(Demand())
      ensures found <==> Peek(old(input)) == AndToken || Peek(old(input)) == OrToken
      ensures if found then
          conj == (Peek(old(input)) == AndToken) && |input| < old(|input|) && Demand() + 8 == old(Demand()) &&
          Now() == old(Now()).(rest := old(input)[1..])
        else Now() == old(Now())
      ensures RegisterAll(p.names, input) == RegisterAll(p.names, old(input))
    {
      Next();
      found, conj := token == AndToken || token == OrToken, token == AndToken;
      if !found {
        Rewind();
      }
    }

    // What a connective joins: a clause in parentheses, or a comparison
    method ParseProposition(ghost c: Comparison, ghost tail: seq<Token>, ghost table: seq<string>)
      returns (status: nat)
      requires Valid() && Demand() + 4 < p.code.Length
      modifies this, p`end, p`error, p`names, p.code
      ensures Valid() && |input| <= old(|input|) && Cost(input) <= old(Cost(input)) && Demand() <= old(Demand()) + 4
      ensures !Peek(tail).ArithToken? && Peek(tail) != RightParen &&
              Stands(old(Now()), ComparisonTokens(c), tail, table) ==>
        status == OK && Reached(Now(), tail, table, old(Now()).code + ComparisonCode(c, table), old(p.error))
      decreases |input|, 0
    {
      ghost var was := Now();
      Next();
      if token == LeftParen {
        status := ParseWhere(Clause(c, End), tail, table);
        if status >= SYNTAX_ERROR {
          return SYNTAX_ERROR;
        }
        Next();
        status := if token == RightParen then OK else SYNTAX_ERROR;
      } else {
        Rewind();
        assert Now() == was;
        var ok := ParseComparison(c, tail, table);
        // A comparison that fails behind a connective makes parse_where return 0, which is no error code.
        status := if ok then OK else 0;
      }
    }

    // The code of a connective in front of the code from `at` on, and what it joins
    method AddProposition(at: nat, conj: bool, ghost c: Comparison, ghost rest: seq<Token>, ghost table: seq<string>)
      returns (status: nat, newAt: nat)
      requires Valid() && Demand() + 8 < p.code.Length
      modifies this, p`end, p`error, p`names, p.code
      ensures Valid() && |input| <= old(|input|) && Cost(input) <= old(Cost(input)) && Demand() <= old(Demand()) + 8
      ensures at < old(p.end) && !Peek(rest).ArithToken? && Peek(rest) != RightParen &&
              Stands(old(Now()), ComparisonTokens(c), rest, table) ==>
        status == OK && newAt == |old(Now()).code| + 4 &&
        Reached(Now(), rest, table,
          old(Now()).code[..at] + ConnectiveHead(conj) + old(Now()).code[at..] + ComparisonCode(c, table), old(p.error))
      decreases |input|, 1
    {
      ghost var was := Now();
      newAt := InsertConnective(at, conj);
      status := ParseProposition(c, rest, table);
    }

    // A connective that has been read extends the chain.
    method AddLink(at: nat, conj: bool, ghost links: Links, ghost link: Links, ghost tail: seq<Token>,
                   ghost table: seq<string>, ghost goal: seq<byte>, ghost was: State, ghost error: bool)
      returns (status: nat, newAt: nat)
      requires Valid() && Demand() + 8 < p.code.Length && link.Link?
      requires p.error == error && Now().code == was.code
      modifies this, p`end, p`error, p`names, p.code
      ensures Valid() && |input| <= old(|input|) && Cost(input) <= old(Cost(input)) && Demand() <= old(Demand()) + 8
      ensures EndsClause(Peek(tail)) && InChain(was, at, links, tail, table, goal, error) && links == link &&
              conj == link.conj &&
              Stands(old(Now()), ComparisonTokens(link.c), LinksTokens(link.more) + tail, table) ==>
        status == OK && InChain(Now(), newAt, links.more, tail, table, goal, error)
      decreases |input|, 2
    {
      ghost var good := EndsClause(Peek(tail)) && InChain(was, at, links, tail, table, goal, error) && links == link &&
        conj == link.conj && Stands(Now(), ComparisonTokens(link.c), LinksTokens(link.more) + tail, table);
      if good {
        LinkFollows(link.more, tail);
      }
      status, newAt := AddProposition(at, conj, link.c, LinksTokens(link.more) + tail, table);
      if good {
        InChainLink(was, at, links, tail, table, goal, error, Now());
      }
    }

    // One turn of the loop of parse_where
    method ParseLink(at: nat, ghost links: Links, ghost tail: seq<Token>, ghost table: seq<string>,
                     ghost goal: seq<byte>)
      returns (status: nat, again: bool, newAt: nat)
      requires Valid() && Demand() < p.code.Length
      modifies this, p`end, p`error, p`names, p.code
      ensures Valid() && |input| <= old(|input|) && Cost(input) <= old(Cost(input)) && Demand() <= old(Demand())
      ensures again ==> |input| < old(|input|)
      ensures EndsClause(Peek(tail)) && InChain(old(Now()), at, links, tail, table, goal, old(p.error)) ==>
        status == OK && again == links.Link? &&
        if again then InChain(Now(), newAt, links.more, tail, table, goal, old(p.error))
        else Reached(Now(), tail, table, goal, old(p.error))
      decreases |input|, 0
    {
      ghost var was, error := Now(), p.error;
      ghost var good := EndsClause(Peek(tail)) && InChain(was, at, links, tail, table, goal, error);
      ghost var any := Expr(Number(0), Done);
      ghost var link := if links.Link? then links else Link(true, Comparison(any, Eq, any), End);
      if good && links.Link? {
        LinkTokens(links, tail);
        LinkFollows(links.more, tail);
      }
      var found, conj := NextConnective();
      if !found {
        if good {
          InChainStop(was, at, links, tail, table, goal, error);
        }
        return OK, false, at;
      }
      status, newAt := AddLink(at, conj, links, link, tail, table, goal, was, error);
      again := status == OK;
    }

    // The loop of parse_where
    method ParseLinks(ghost links: Links, ghost tail: seq<Token>, ghost table: seq<string>) returns (status: nat)
      requires Valid() && Demand() < p.code.Length
      modifies this, p`end, p`error, p`names, p.code
      ensures Valid() && |input| <= old(|input|) && Cost(input) <= old(Cost(input)) && Demand() <= old(Demand())
      ensures EndsClause(Peek(tail)) && Stands(old(Now()), LinksTokens(links), tail, table) && old(p.end) > 0 ==>
        status == OK && Reached(Now(), tail, table, LinksCode(old(Now()).code, links, table), old(p.error))
      decreases |input|, 1
    {
      ghost var was, error := Now(), p.error;
      ghost var good := EndsClause(Peek(tail)) && Stands(was, LinksTokens(links), tail, table) && p.end > 0;
      ghost var goal, remaining := LinksCode(was.code, links, table), links;
      var savedEnd: nat, again := 0, true;
      assert was.code[..0] == [] && was.code[0..] == was.code && [] + goal == goal;
      status := OK;
      while again
        invariant Valid() && |input| <= old(|input|) && Cost(input) <= old(Cost(input)) && Demand() <= old(Demand())
        invariant good ==> status == OK && if again then InChain(Now(), savedEnd, remaining, tail, table, goal, error)
                                           else Reached(Now(), tail, table, goal, error)
        decreases |input|, again
      {
        status, again, savedEnd := ParseLink(savedEnd, remaining, tail, table, goal);
        remaining := if remaining.Link? then remaining.more else End;
      }
    }

    /**
     parse_where: when the stream spells a clause, exactly its tokens are read and the code array
     holds exactly its code.
     */
    method ParseWhere(ghost c: Clause, ghost tail: seq<Token>, ghost table: seq<string>) returns (status: nat)
      requires Valid() && Demand() + 4 < p.code.Length
      modifies this, p`end, p`error, p`names, p.code
      ensures Valid() && |input| <= old(|input|) && Cost(input) <= old(Cost(input)) && Demand() <= old(Demand()) + 4
      ensures old(p.end) == 0 && EndsClause(Peek(tail)) && Stands(old(Now()), ClauseTokens(c), tail, table) ==>
        status == OK && Reached(Now(), tail, table, ClauseCode(c, table), old(p.error))
      decreases |input|, 2
    {
      ghost var rest, code := LinksTokens(c.links) + tail, ComparisonCode(c.first, table);
      assert ClauseTokens(c) + tail == ComparisonTokens(c.first) + rest;
      if EndsClause(Peek(tail)) {
        LinkFollows(c.links, tail);
      }
      assert [] + code == code;
      var ok := ParseComparison(c.first, rest, table);
      if !ok {
        return SYNTAX_ERROR;
      }
      status := ParseLinks(c.links, tail, table);
    }
  }
}
