/**
 A SELECT with a WHERE clause from its tokens to its answer: the parser, the logic engine, the
 index and the row loop together.
 */
module AqlQuery {
  import opened Bytes
  import opened Options
  import opened Lvm
  import opened LvmDerive
  import opened AqlSyntax
  import W = AqlWhere
  import opened InlineIndex
  import opened RelationSelect
  import opened RelationAnswers

  // `env` gives every variable its value in the row.
  ghost predicate RowEnv(q: Query, row: Tuple, env: Env)
    requires q.Valid() && FitsRow(q, row)
  {
    forall n | n in q.names :: Find(q.attrs, n) < |q.attrs| && env(n) == ValueIn(q, n, row)
  }

  lemma ClauseAccepts(q: Query, c: Clause, row: Tuple, env: Env)
    requires q.Valid() && FitsRow(q, row) && RowEnv(q, row, env)
    requires q.where == Some(ClauseTree(c, q.names)) && Covers(q.names, ClauseTokens(c))
    ensures Accepts(q, row) <==> ClauseVerdict(c, env) == q.wanted
  {
    var vals := Values(q, row);
    forall n | n in q.names
      ensures vals[IndexOf(q.names, n)] == env(n)
    {
      assert vals[IndexOf(q.names, n)] == ValueIn(q, n, row);
    }
    ClauseTreeMeans(c, q.names, vals, env);
  }

  // The code that the parser leaves is the code that the row loop runs.
  lemma CompiledRuns(s: Selection, c: Clause)
    requires W.Compiled(s.machine, c) && W.ClauseFits(c) && OneOperatorEach(c.first) && OneOperatorAll(c.links)
    requires s.query.names == s.machine.names && s.query.where == Some(ClauseTree(c, s.query.names))
    ensures s.Compiled()
  {
    ClauseCodeIffOneOperator(c, s.query.names);
    W.ClauseTreeFits(c, s.query.names);
    assert s.machine.code[..][0..s.machine.end] == s.machine.code[..s.machine.end];
  }

  /**
   For a clause with one operator per level, a SELECT without a usable index answers the projections of
   exactly the rows on which the clause is true, in order; with one it answers what the index reports
   of them.
   */
  method SelectWhere(s: Selection, ghost c: Clause) returns (out: seq<Tuple>, r: Result)
    requires s.Ready() && Sorted(s.query, s.rows) && s.scan == null && s.tupleId == 0 && s.machine.ip == 0
    requires W.Compiled(s.machine, c) && W.ClauseFits(c) && OneOperatorEach(c.first) && OneOperatorAll(c.links)
    requires s.query.where == Some(ClauseTree(c, s.query.names))
    modifies s, s.machine, s.resultRow
    ensures match Planned(s.query)
      case None => r == Finished && out == Answer(s.query, s.rows)
      case Some(p) => IndexAnswer(s.query, s.rows, ReportOf(Column(s.query, s.rows, p.k), p.low, p.high), out, r)
    ensures forall row, env | row in s.rows && RowEnv(s.query, row, env) ::
      Accepts(s.query, row) <==> ClauseVerdict(c, env) == s.query.wanted
  {
    CompiledRuns(s, c);
    forall row, env | row in s.rows && RowEnv(s.query, row, env)
      ensures Accepts(s.query, row) <==> ClauseVerdict(c, env) == s.query.wanted
    {
      ClauseAccepts(s.query, c, row, env);
    }
    out, r := RunQuery(s);
  }
}
