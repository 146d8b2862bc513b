/**
 SELECT and REMOVE of the Antelope database (apps/antelope/relation.c): a step function that
 takes one row at a time, either all rows in order or those an index reports, gives the values
 of the row to the logic engine, and copies the wanted attributes of the rows it accepts.

 A C int has 16 or 32 bits, a long 32.
 */
module RelationSelect {
  import opened Bytes
  import opened Options
  import opened Lvm
  import opened LvmDerive
  import opened InlineIndex

  type Tuple = seq<byte>

  datatype Domain = IntDomain | LongDomain | StringDomain
  datatype Ints = Bits16 | Bits32

  // An attribute of a relation; `noStore` marks attributes that only the predicate needs.
  datatype Attribute = Attribute(name: string, domain: Domain, size: nat, indexed: bool, unique: bool, noStore: bool)

  predicate AttributeOk(a: Attribute) {
    && a.size > 0 && (a.domain.IntDomain? ==> a.size == 2) && (a.domain.LongDomain? ==> a.size == 4)
  }

  predicate Attributes(attrs: seq<Attribute>) { forall a | a in attrs :: AttributeOk(a) }

  // The position of an attribute's value in a row
  function Offset(attrs: seq<Attribute>, k: nat): nat
    requires k <= |attrs|
  {
    if k == 0 then 0 else Offset(attrs, k - 1) + attrs[k - 1].size
  }

  function RowLength(attrs: seq<Attribute>): nat { Offset(attrs, |attrs|) }

  lemma {:induction false} OffsetMonotonic(attrs: seq<Attribute>, k: nat, n: nat)
    requires k <= n <= |attrs|
    ensures Offset(attrs, k) <= Offset(attrs, n)
    decreases n
  {
    if k < n {
      OffsetMonotonic(attrs, k, n - 1);
    }
  }

  function Find(attrs: seq<Attribute>, name: string): (i: nat)
    ensures i <= |attrs|
    ensures i < |attrs| ==> attrs[i].name == name
  {
    if attrs == [] || attrs[0].name == name then 0 else 1 + Find(attrs[1..], name)
  }

  // attribute_find
  method AttributeFind(attrs: seq<Attribute>, name: string) returns (i: nat)
    ensures i == Find(attrs, name)
  {
    i := 0;
    while i < |attrs|
      invariant i <= |attrs|
      invariant Find(attrs, name) == i + Find(attrs[i..], name)
    {
      if attrs[i].name == name {
        break;
      }
      assert attrs[i..][1..] == attrs[i + 1..];
      i := i + 1;
    }
  }

  // get_attribute_value_offset
  method AttributeOffset(attrs: seq<Attribute>, k: nat) returns (offset: nat)
    requires k < |attrs|
    ensures offset == Offset(attrs, k)
  {
    offset := 0;
    for i := 0 to k
      invariant offset == Offset(attrs, i)
    {
      offset := offset + attrs[i].size;
    }
  }

  // A value of C type int
  function ToInt(ints: Ints, v: int): int {
    match ints
    case Bits16 => (v + 0x8000) % 0x1_0000 - 0x8000
    case Bits32 => v
  }

  // db_phy_to_value: a stored value, most significant byte first
  function Decode(bytes: seq<byte>, domain: Domain, ints: Ints): int
    requires (domain.IntDomain? ==> |bytes| == 2) && (domain.LongDomain? ==> |bytes| == 4)
  {
    match domain
    case IntDomain => ToInt(ints, bytes[0] as int * 256 + bytes[1])
    case LongDomain => BytesLong([bytes[3], bytes[2], bytes[1], bytes[0]])
    case StringDomain => 0
  }

  lemma DecodeIsLong(bytes: seq<byte>, domain: Domain, ints: Ints)
    requires (domain.IntDomain? ==> |bytes| == 2) && (domain.LongDomain? ==> |bytes| == 4)
    ensures IsLong(Decode(bytes, domain, ints))
  {
  }

  // ---------------------------------------------------------------- queries

  // Where an attribute of the result comes from and goes to
  datatype Mapping = Mapping(name: string, domain: Domain, size: nat, from: nat, to: nat, noStore: bool)

  /** A query on a relation, as the step function sees it; `names` is the variable table. */
  datatype Query = Query(attrs: seq<Attribute>, result: seq<Attribute>, columns: nat, ints: Ints,
                         names: seq<string>, where: Option<Logic>, wanted: Status)
  {
    // Attribute names differ, and the attributes that are stored come first.
    ghost predicate Valid() {
      && Attributes(attrs) && columns <= |result|
      && (forall k | 0 <= k < |attrs| :: Unique(k))
      && (forall k | 0 <= k < |result| :: Fetched(k))
      && |names| <= VARIABLE_LIMIT && Distinct(names)
      && (forall n | n in names :: Numeric(n))
    }

    predicate Unique(k: nat)
      requires k < |attrs|
    {
      Find(attrs, attrs[k].name) == k
    }

    predicate Fetched(k: nat)
      requires k < |result|
    {
      Matches(result[k]) && (result[k].noStore <==> columns <= k)
    }

    // An attribute of the result is one of the relation.
    predicate Matches(a: Attribute) {
      var i := Find(attrs, a.name);
      i < |attrs| && attrs[i].domain == a.domain && attrs[i].size == a.size
    }

    // A variable is a numeric attribute that is fetched from every row.
    predicate Numeric(name: string) {
      exists k | 0 <= k < |result| :: result[k].name == name && !result[k].domain.StringDomain?
    }

    function From(name: string): nat { Offset(attrs, Find(attrs, name)) }
  }

  predicate Distinct(names: seq<string>) {
    forall i | 0 <= i < |names| :: IndexOf(names, names[i]) == i
  }

  predicate FitsRow(q: Query, row: Tuple) { |row| == RowLength(q.attrs) }

  // The bytes of an attribute in a row
  function Field(q: Query, a: Attribute, row: Tuple): (bytes: seq<byte>)
    requires q.Matches(a) && FitsRow(q, row)
    ensures |bytes| == a.size && q.From(a.name) + a.size <= |row|
  {
    var i := Find(q.attrs, a.name);
    OffsetMonotonic(q.attrs, i + 1, |q.attrs|);
    row[Offset(q.attrs, i)..Offset(q.attrs, i) + a.size]
  }

  // The attribute of the relation with this name
  function Named(q: Query, name: string): (a: Attribute)
    requires Find(q.attrs, name) < |q.attrs| && Attributes(q.attrs)
    ensures a.name == name && q.Matches(a) && AttributeOk(a)
  {
    q.attrs[Find(q.attrs, name)]
  }

  function ValueIn(q: Query, name: string, row: Tuple): int
    requires Find(q.attrs, name) < |q.attrs| && Attributes(q.attrs) && FitsRow(q, row)
  {
    Decode(Field(q, Named(q, name), row), Named(q, name).domain, q.ints)
  }

  lemma NamesAreAttributes(q: Query, name: string)
    requires q.Valid() && name in q.names
    ensures Find(q.attrs, name) < |q.attrs|
  {
    assert q.Numeric(name);
    var k :| 0 <= k < |q.result| && q.result[k].name == name && !q.result[k].domain.StringDomain?;
    assert q.Fetched(k);
  }

  // The values of all variables for one row
  function Values(q: Query, row: Tuple): (vals: seq<int>)
    requires q.Valid() && FitsRow(q, row)
    ensures |vals| == VARIABLE_LIMIT
  {
    seq(VARIABLE_LIMIT, i requires 0 <= i < VARIABLE_LIMIT =>
      if i < |q.names| then NamesAreAttributes(q, q.names[i]); ValueIn(q, q.names[i], row) else 0)
  }

  // Whether the step function accepts the row
  predicate Accepts(q: Query, row: Tuple)
    requires q.Valid() && FitsRow(q, row)
  {
    q.where.Some? ==> Verdict(q.where.value, Values(q, row)) == q.wanted
  }

  // The values of the first `n` attributes of the result
  function Gather(q: Query, n: nat, row: Tuple): (bytes: seq<byte>)
    requires q.Valid() && FitsRow(q, row) && n <= |q.result|
    ensures |bytes| == Offset(q.result, n)
  {
    if n == 0 then [] else Gather(q, n - 1, row) + FieldOf(q, n - 1, row)
  }

  function Projection(q: Query, row: Tuple): seq<byte>
    requires q.Valid() && FitsRow(q, row)
  {
    Gather(q, q.columns, row)
  }

  // What one row contributes to the answer
  function Accepted(q: Query, row: Tuple): seq<Tuple>
    requires q.Valid() && FitsRow(q, row)
  {
    if Accepts(q, row) then [Projection(q, row)] else []
  }

  // The answer to a query: the projections of the accepted rows, in order
  function Answer(q: Query, rows: seq<Tuple>): seq<Tuple>
    requires q.Valid() && forall r | r in rows :: FitsRow(q, r)
  {
    if rows == [] then [] else Accepted(q, rows[0]) + Answer(q, rows[1..])
  }

  // ---------------------------------------------------------------- the choice of an index

  // The values of an attribute in all rows
  function Column(q: Query, rows: seq<Tuple>, k: nat): (keys: seq<int>)
    requires q.Valid() && k < |q.attrs| && forall r | r in rows :: FitsRow(q, r)
    ensures |keys| == |rows|
  {
    assert q.Unique(k);
    seq(|rows|, i requires 0 <= i < |rows| => ValueIn(q, q.attrs[k].name, rows[i]))
  }

  // The last of the first `n` attributes with an index and an interval: the original means to take
  // the smallest interval but never updates the size it compares with.
  function Chosen(q: Query, r: Ranges, n: nat): (c: Option<(nat, Derivation)>)
    requires |q.names| <= |r| && n <= |q.attrs|
    ensures c.Some? ==> c.value.0 < n && q.attrs[c.value.0].indexed
    ensures c.Some? ==> DerivedRange(q.names, r, q.attrs[c.value.0].name) == Some(c.value.1)
  {
    if n == 0 then None
    else
      var attr := q.attrs[n - 1];
      match DerivedRange(q.names, r, attr.name)
      case Some(d) => if attr.indexed then Some((n - 1, d)) else Chosen(q, r, n - 1)
      case None => Chosen(q, r, n - 1)
  }

  // The iterator that select_index starts.  The bounds are longs stored in values marked as int.
  datatype Plan = Plan(k: nat, low: int, high: int)

  function Start(q: Query, r: Ranges): (p: Option<Plan>)
    requires |q.names| <= |r|
    ensures p.Some? ==> p.value.k < |q.attrs| && q.attrs[p.value.k].indexed
  {
    match Chosen(q, r, |q.attrs|)
    case None => None
    case Some((k, d)) => Some(Plan(k, ToInt(q.ints, d.min), ToInt(q.ints, d.max)))
  }

  // An attribute with an index and an interval
  predicate Searchable(q: Query, r: Ranges, k: nat)
    requires |q.names| <= |r| && k < |q.attrs|
  {
    q.attrs[k].indexed && DerivedRange(q.names, r, q.attrs[k].name).Some?
  }

  lemma {:induction false} ChosenIsLast(q: Query, r: Ranges, k: nat, n: nat)
    requires |q.names| <= |r| && k < n <= |q.attrs| && Searchable(q, r, k)
    requires forall j | k < j < n :: !Searchable(q, r, j)
    ensures Chosen(q, r, n) == Some((k, DerivedRange(q.names, r, q.attrs[k].name).value))
  {
    if k < n - 1 {
      assert !Searchable(q, r, n - 1);
      ChosenIsLast(q, r, k, n - 1);
    }
  }

  lemma {:induction false} NoneChosen(q: Query, r: Ranges, n: nat)
    requires |q.names| <= |r| && n <= |q.attrs| && forall j | 0 <= j < n :: !Searchable(q, r, j)
    ensures Chosen(q, r, n) == None
  {
    if n > 0 {
      assert !Searchable(q, r, n - 1);
      NoneChosen(q, r, n - 1);
    }
  }

  /**
   Of several attributes that could be searched the last one is, however large its interval, with the
   bounds of its interval; there is no search only if none could be.
   */
  lemma StartsAtLast(q: Query, r: Ranges, k: nat)
    requires |q.names| <= |r| && k <= |q.attrs| && forall j | k < j < |q.attrs| :: !Searchable(q, r, j)
    ensures k < |q.attrs| && Searchable(q, r, k) ==>
      var d := DerivedRange(q.names, r, q.attrs[k].name).value;
      Start(q, r) == Some(Plan(k, ToInt(q.ints, d.min), ToInt(q.ints, d.max)))
    ensures Start(q, r).None? <==> forall j | 0 <= j < |q.attrs| :: !Searchable(q, r, j)
  {
    if k < |q.attrs| && Searchable(q, r, k) {
      ChosenIsLast(q, r, k, |q.attrs|);
    }
    if forall j | 0 <= j < |q.attrs| :: !Searchable(q, r, j) {
      NoneChosen(q, r, |q.attrs|);
    } else {
      match Chosen(q, r, |q.attrs|)
      case Some(_) =>
      case None => NeverChosen(q, r, |q.attrs|);
    }
  }

  lemma {:induction false} NeverChosen(q: Query, r: Ranges, n: nat)
    requires |q.names| <= |r| && n <= |q.attrs| && Chosen(q, r, n) == None
    ensures forall j | 0 <= j < n :: !Searchable(q, r, j)
  {
    if n > 0 {
      NeverChosen(q, r, n - 1);
    }
  }

  // The index that a query is run through, if any
  function Planned(q: Query): (p: Option<Plan>)
    requires q.Valid()
    ensures p.Some? ==> p.value.k < |q.attrs| && q.attrs[p.value.k].indexed
  {
    if q.where.None? then None
    else match Derive(q.where.value)
         case None => None
         case Some(r) => Start(q, r)
  }

  // Every indexed column is increasing.
  ghost predicate Sorted(q: Query, rows: seq<Tuple>)
    requires q.Valid() && forall r | r in rows :: FitsRow(q, r)
  {
    |rows| <= MAX_ROWS && forall k | 0 <= k < |q.attrs| && q.attrs[k].indexed :: Increasing(Column(q, rows, k))
  }

  // ---------------------------------------------------------------- the attribute map

  function MapOf(q: Query, k: nat): Mapping
    requires k < |q.result|
  {
    var a := q.result[k];
    Mapping(a.name, a.domain, a.size, q.From(a.name), Offset(q.result, k), a.noStore)
  }

  predicate Known(q: Query, k: nat)
    requires k < |q.result|
  {
    Find(q.attrs, q.result[k].name) < |q.attrs|
  }

  // generate_attribute_map
  method GenerateMap(q: Query) returns (ok: bool, maps: seq<Mapping>)
    ensures ok <==> forall k | 0 <= k < |q.result| :: Known(q, k)
    ensures ok ==> |maps| == |q.result| && forall k | 0 <= k < |maps| :: maps[k] == MapOf(q, k)
  {
    maps := [];
    var sum: nat := 0;
    var k: nat := 0;
    while k < |q.result|
      invariant k <= |q.result| && |maps| == k && sum == Offset(q.result, k)
      invariant forall i | 0 <= i < k :: Known(q, i)
      invariant forall i | 0 <= i < k :: maps[i] == MapOf(q, i)
    {
      var to := q.result[k];
      var i := AttributeFind(q.attrs, to.name);
      if i == |q.attrs| {
        assert !Known(q, k);
        return false, [];
      }
      var from := AttributeOffset(q.attrs, i);
      maps := maps + [Mapping(to.name, to.domain, to.size, from, sum, to.noStore)];
      sum := sum + to.size;
      k := k + 1;
    }
    ok := true;
  }

  // ---------------------------------------------------------------- the step function

  datatype Result = GotRow | Ok | Finished | IndexError | Undefined

  /** A handle in use (db_handle_t), with the static row buffers of the original. */
  class Selection {
    const query: Query
    const rows: seq<Tuple>
    const maps: seq<Mapping>
    const machine: Machine
    const resultRow: array<byte>
    var tupleId: nat
    var scan: Iterator?
    var currentRow: nat

    ghost predicate Ready()
      reads machine
    {
      && query.Valid() && (forall r | r in rows :: FitsRow(query, r))
      && |maps| == |query.result| && (forall k | 0 <= k < |maps| :: maps[k] == MapOf(query, k))
      && machine.names == query.names && |machine.values| == VARIABLE_LIMIT
      && (forall i | |query.names| <= i < VARIABLE_LIMIT :: machine.values[i] == 0)
      && resultRow.Length >= RowLength(query.result) && resultRow != machine.code
    }

    ghost predicate Compiled()
      reads machine, machine.code
    {
      query.where.Some? ==> LogicFits(query.where.value) && At(machine.code[..], 0, LogicBytes(query.where.value))
    }

    ghost predicate Valid()
      reads this, machine, machine.code, scan
    {
      Ready() && Compiled() && (scan != null ==> scan.Valid() && |scan.keys| == |rows|)
    }

    // The first part of generate_selection_result
    constructor (query: Query, rows: seq<Tuple>, maps: seq<Mapping>, machine: Machine, resultRow: array<byte>)
      ensures this.query == query && this.rows == rows && this.maps == maps && this.machine == machine
      ensures this.resultRow == resultRow && tupleId == 0 && scan == null && currentRow == 0
    {
      this.query, this.rows, this.maps, this.machine, this.resultRow := query, rows, maps, machine, resultRow;
      tupleId, scan, currentRow := 0, null, 0;
    }

    // What the next call looks at
    ghost function Upcoming(): (r: Lookup)
      requires Valid()
      reads this, machine, machine.code, scan
      ensures r.Row? ==> r.id < |rows|
    {
      if scan != null then Next(scan.Reports(), scan.nextItemNo) else if tupleId < |rows| then Row(tupleId) else Missing
    }

    // The value of one attribute becomes that of the variable of its name.
    method SetVariable(k: nat, row: Tuple)
      requires Ready() && FitsRow(query, row) && k < |maps|
      modifies machine`values
      ensures Ready()
      ensures forall i | 0 <= i < |query.names| ::
        machine.values[i] == if Feeds(query, k, i) then Values(query, row)[i] else old(machine.values[i])
    {
      var m := maps[k];
      if m.domain != StringDomain {
        FieldValue(query, k, row);
        ghost var bytes := FieldOf(query, k, row);
        var value := Decode(row[m.from..m.from + m.size], m.domain, query.ints);
        var known := machine.SetVariableValue(m.name, value);
        assert forall i | 0 <= i < |query.names| :: IndexOf(query.names, query.names[i]) == i;
      }
    }

    // The result row starts with the values of the first `n` attributes.
    ghost predicate Holds(n: nat, row: Tuple)
      requires Ready() && FitsRow(query, row) && n <= |query.result|
      reads machine, resultRow
    {
      Gathered(query, n, row, resultRow[..])
    }

    // The value of one attribute that is stored is copied into the result row.
    method CopyField(k: nat, row: Tuple)
      requires Ready() && FitsRow(query, row) && k < query.columns && Holds(k, row)
      modifies resultRow
      ensures Ready() && Holds(k + 1, row)
    {
      OffsetMonotonic(query.result, k + 1, |query.result|);
      GatheredStep(query, k, row, resultRow[..]);
      var m := maps[k];
      Copy(resultRow, m.to, row[m.from..m.from + m.size]);
    }

    // What is done for one attribute of the result
    method TakeField(k: nat, row: Tuple)
      requires Ready() && FitsRow(query, row) && k < |maps|
      requires Fed(query, row, machine.values, k) && Holds(Min(k, query.columns), row)
      modifies machine`values, resultRow
      ensures Ready() && Fed(query, row, machine.values, k + 1) && Holds(Min(k + 1, query.columns), row)
    {
      ghost var before := machine.values;
      SetVariable(k, row);
      FedStep(query, row, before, machine.values, k);
      assert query.Fetched(k);
      if !maps[k].noStore {
        CopyField(k, row);
      }
    }

    // The loop over the attributes of the result
    method TakeRow(row: Tuple)
      requires Ready() && FitsRow(query, row)
      modifies machine`values, resultRow
      ensures Ready() && machine.values == Values(query, row) && Holds(query.columns, row)
    {
      var k := 0;
      while k < |maps|
        invariant 0 <= k <= |maps| && Ready()
        invariant Fed(query, row, machine.values, k) && Holds(Min(k, query.columns), row)
      {
        TakeField(k, row);
        k := k + 1;
      }
      FedAll(query, row, machine.values);
    }

    // select_index
    method SelectIndex(d: array<Derivation>)
      requires Ready() && d.Length == MAX_VARIABLE_ID && Sorted(query, rows) && scan == null
      modifies this`scan
      ensures Planning(query, rows, scan, Start(query, d[..]))
    {
      var chosen: Option<(nat, Derivation)> := None;
      var unique := false;
      for k := 0 to |query.attrs|
        invariant chosen == Chosen(query, d[..], k)
      {
        var attr := query.attrs[k];
        if attr.indexed {
          var range := GetDerivedRange(machine, d, attr.name);
          if range.Some? {
            chosen, unique := Some((k, range.value)), attr.unique;
          }
        }
      }
      scan := null;
      if chosen.Some? {
        StartScan(chosen.value.0, chosen.value.1, unique);
      }
    }

    // index_get_iterator for an interval
    method StartScan(k: nat, d: Derivation, unique: bool)
      requires Ready() && k < |query.attrs| && query.attrs[k].indexed && Sorted(query, rows)
      modifies this`scan
      ensures Planning(query, rows, scan, Some(Plan(k, ToInt(query.ints, d.min), ToInt(query.ints, d.max))))
    {
      scan := new Iterator(Column(query, rows, k), ToInt(query.ints, d.min), ToInt(query.ints, d.max), unique);
    }

    // The rest of generate_selection_result: deriving intervals and choosing an index
    method PlanScan()
      requires Ready() && Compiled() && Sorted(query, rows) && scan == null && machine.ip == 0
      modifies this`scan, machine`ip
      ensures Ready() && Compiled() && Planning(query, rows, scan, Planned(query))
    {
      if query.where.Some? {
        var d := NoDerivations();
        var status := DeriveRelation(machine, query.where.value, d);
        if !status.IsError() {
          SelectIndex(d);
        }
      }
    }

    // The predicate on the row whose values the variables have
    method Test(row: Tuple) returns (accepted: bool)
      requires Ready() && Compiled() && FitsRow(query, row) && machine.values == Values(query, row)
      modifies machine`ip
      ensures accepted <==> Accepts(query, row)
    {
      if query.where.None? {
        return true;
      }
      var status := machine.Execute(query.where.value);
      accepted := status == query.wanted;
    }

    // The row to look at, from the index or from the counter
    method NextTuple() returns (found: Lookup)
      requires Valid()
      modifies this`tupleId, scan
      ensures Valid() && found == old(Upcoming())
      ensures if scan == null then tupleId == old(tupleId) + 1
        else scan.nextItemNo == old(scan.nextItemNo) + if old(Upcoming()).Row? then 1 else 0
    {
      if scan != null {
        found := scan.IndexGetNext();
        if found.Row? {
          tupleId := found.id + 1;
        }
      } else {
        tupleId := tupleId + 1;
        found := if tupleId > |rows| then Missing else Row(tupleId - 1);
      }
    }

    // The treatment of one row
    method ProcessRow(row: Tuple) returns (r: Result)
      requires Ready() && Compiled() && FitsRow(query, row)
      modifies this`currentRow, machine, resultRow
      ensures Ready() && Compiled() && Holds(query.columns, row)
      ensures r == if Accepts(query, row) then GotRow else Ok
      ensures currentRow == old(currentRow) + if r == GotRow then 1 else 0
    {
      TakeRow(row);
      var accepted := Test(row);
      if accepted {
        currentRow := currentRow + 1;
        return GotRow;
      }
      return Ok;
    }

    // relation_process_select, without aggregation
    method Process() returns (r: Result)
      requires Valid()
      modifies this, machine, resultRow, scan
      ensures Valid() && scan == old(scan)
      ensures if scan == null then tupleId == old(tupleId) + 1
        else scan.nextItemNo == old(scan.nextItemNo) + if old(Upcoming()).Row? then 1 else 0
      ensures match old(Upcoming())
        case Row(id) =>
          r == (if Accepts(query, rows[id]) then GotRow else Ok) && Holds(query.columns, rows[id])
        case Missing => r == if scan != null && scan.nextItemNo == 0 then IndexError else Finished
        case Outside => r == Undefined
      ensures currentRow == old(currentRow) + if r == GotRow then 1 else 0
    {
      var found := NextTuple();
      match found {
        case Row(id) => r := ProcessRow(rows[id]);
        case Missing => r := if scan != null && scan.nextItemNo == 0 then IndexError else Finished;
        case Outside => r := Undefined;
      }
    }

    // One call, and the result row it leaves
    method Fetch() returns (r: Result, got: seq<Tuple>)
      requires Valid()
      modifies this, machine, resultRow, scan
      ensures Valid() && scan == old(scan)
      ensures if scan == null then tupleId == old(tupleId) + 1
        else scan.nextItemNo == old(scan.nextItemNo) + if old(Upcoming()).Row? then 1 else 0
      ensures Step(query, rows, old(Upcoming()), scan != null && scan.nextItemNo == 0, r, got)
    {
      r := Process();
      got := if r == GotRow then [resultRow[..Offset(query.result, query.columns)]] else [];
    }

    // Calls until a scan of all rows is over
    method DrainAll() returns (out: seq<Tuple>, r: Result)
      requires Valid() && scan == null && tupleId == 0
      modifies this, machine, resultRow
      ensures Valid() && r == Finished && out == Answer(query, rows)
    {
      out, r := [], Ok;
      while r != Finished
        invariant Valid() && scan == null
        invariant r == Finished || (tupleId <= |rows| && out == Answer(query, rows[..tupleId]))
        invariant r == Finished ==> out == Answer(query, rows)
        decreases r != Finished, |rows| - tupleId
      {
        ghost var id := tupleId;
        var got;
        r, got := Fetch();
        out := out + got;
        if id < |rows| {
          AnswerStep(query, rows, 0, id);
        } else {
          assert rows[..id] == rows;
        }
      }
    }

    // Calls until a scan through an index is over
    method DrainIndex() returns (out: seq<Tuple>, r: Result)
      requires Valid() && scan != null && scan.nextItemNo == 0
      modifies this, machine, resultRow, scan
      ensures Valid() && IndexAnswer(query, rows, old(scan).Reports(), out, r)
    {
      ghost var report := scan.Reports();
      out, r := [], Ok;
      while r == Ok || r == GotRow
        invariant Valid() && scan == old(scan)
        invariant Going(query, rows, report, scan.nextItemNo, out, r)
        decreases r == Ok || r == GotRow, |rows| - scan.nextItemNo
      {
        ghost var n, before := scan.nextItemNo, out;
        var got;
        r, got := Fetch();
        out := out + got;
        GoingStep(query, rows, report, n, before, r, got);
      }
    }
  }

  // What the calls through an index amount to
  ghost predicate IndexAnswer(q: Query, rows: seq<Tuple>, report: Report, out: seq<Tuple>, r: Result)
    requires q.Valid() && forall r | r in rows :: FitsRow(q, r)
  {
    match report.first
    case Outside => r == Undefined && out == []
    case Missing => r == IndexError && out == []
    case Row(start) => r == Finished && start < report.upto <= |rows| && out == Answer(q, rows[start..report.upto])
  }

  // What the first `n` reports of an index amount to
  ghost predicate Partial(q: Query, rows: seq<Tuple>, report: Report, n: nat, out: seq<Tuple>)
    requires q.Valid() && forall r | r in rows :: FitsRow(q, r)
  {
    match report.first
    case Row(start) =>
      start < report.upto <= |rows| && start + n <= report.upto && out == Answer(q, rows[start..start + n])
    case _ => out == [] && n == 0
  }

  ghost predicate Going(q: Query, rows: seq<Tuple>, report: Report, n: nat, out: seq<Tuple>, r: Result)
    requires q.Valid() && forall r | r in rows :: FitsRow(q, r)
  {
    n <= |rows| &&
    if r == Ok || r == GotRow then Partial(q, rows, report, n, out) else IndexAnswer(q, rows, report, out, r)
  }

  lemma GoingRow(q: Query, rows: seq<Tuple>, report: Report, n: nat, out: seq<Tuple>, r: Result, got: seq<Tuple>)
    requires q.Valid() && (forall r | r in rows :: FitsRow(q, r)) && n <= |rows| && Partial(q, rows, report, n, out)
    requires report.first.Row? && report.first.id + n < report.upto
    requires Step(q, rows, Row(report.first.id + n), n == 0, r, got)
    ensures (r == GotRow || r == Ok) && n < |rows| && Partial(q, rows, report, n + 1, out + got)
  {
    var from, to := report.first.id, report.first.id + n;
    assert got == Accepted(q, rows[to]) && out == Answer(q, rows[from..to]);
    AnswerStep(q, rows, from, to);
    assert Answer(q, rows[from..from + (n + 1)]) == out + got;
  }

  lemma GoingEnd(q: Query, rows: seq<Tuple>, report: Report, n: nat, out: seq<Tuple>, r: Result, got: seq<Tuple>)
    requires q.Valid() && (forall r | r in rows :: FitsRow(q, r)) && n <= |rows| && Partial(q, rows, report, n, out)
    requires !Next(report, n).Row? && Step(q, rows, Next(report, n), n == 0, r, got)
    ensures r != GotRow && r != Ok && IndexAnswer(q, rows, report, out + got, r)
  {
    assert out + got == out;
    if report.first.Row? {
      assert report.first.id + n == report.upto;
    }
  }

  lemma GoingStep(q: Query, rows: seq<Tuple>, report: Report, n: nat, out: seq<Tuple>, r: Result, got: seq<Tuple>)
    requires q.Valid() && (forall r | r in rows :: FitsRow(q, r)) && n <= |rows| && Partial(q, rows, report, n, out)
    requires Step(q, rows, Next(report, n), n == 0, r, got)
    ensures Going(q, rows, report, if Next(report, n).Row? then n + 1 else n, out + got, r)
    ensures r == Ok || r == GotRow ==> n < |rows| && Next(report, n).Row?
  {
    if Next(report, n).Row? {
      GoingRow(q, rows, report, n, out, r, got);
    } else {
      GoingEnd(q, rows, report, n, out, r, got);
    }
  }

  // What one call reports when it looks at `found`
  ghost predicate Step(q: Query, rows: seq<Tuple>, found: Lookup, unused: bool, r: Result, got: seq<Tuple>)
    requires q.Valid() && forall r | r in rows :: FitsRow(q, r)
  {
    match found
    case Row(id) =>
      && id < |rows| && got == Accepted(q, rows[id]) && r == if Accepts(q, rows[id]) then GotRow else Ok
    case Missing => got == [] && r == if unused then IndexError else Finished
    case Outside => got == [] && r == Undefined
  }

  // One more row extends the answer.
  lemma AnswerStep(q: Query, rows: seq<Tuple>, from: nat, to: nat)
    requires q.Valid() && from <= to < |rows| && forall r | r in rows :: FitsRow(q, r)
    ensures Answer(q, rows[from..to + 1]) == Answer(q, rows[from..to]) + Accepted(q, rows[to])
  {
    assert rows[from..to + 1] == rows[from..to] + [rows[to]];
    AnswerConcat(q, rows[from..to], [rows[to]]);
    assert Answer(q, [rows[to]][1..]) == [];
  }

  lemma {:induction false} AnswerConcat(q: Query, xs: seq<Tuple>, ys: seq<Tuple>)
    requires q.Valid() && (forall r | r in xs :: FitsRow(q, r)) && (forall r | r in ys :: FitsRow(q, r))
    ensures Answer(q, xs + ys) == Answer(q, xs) + Answer(q, ys)
    decreases xs
  {
    if xs == [] {
      assert xs + ys == ys;
    } else {
      assert (xs + ys)[1..] == xs[1..] + ys;
      AnswerConcat(q, xs[1..], ys);
    }
  }

  // The variables that the first `k` attributes feed have their values for the row.
  ghost predicate Fed(q: Query, row: Tuple, values: seq<int>, k: nat)
    requires q.Valid() && FitsRow(q, row) && k <= |q.result|
  {
    && |values| == VARIABLE_LIMIT && (forall i | |q.names| <= i < VARIABLE_LIMIT :: values[i] == 0)
    && forall i | 0 <= i < |q.names| && FedBefore(q, k, i) :: values[i] == Values(q, row)[i]
  }

  predicate FedBefore(q: Query, k: nat, i: nat)
    requires k <= |q.result| && i < |q.names|
  {
    exists j | 0 <= j < k :: Feeds(q, j, i)
  }

  lemma FedStep(q: Query, row: Tuple, before: seq<int>, after: seq<int>, k: nat)
    requires q.Valid() && FitsRow(q, row) && k < |q.result| && Fed(q, row, before, k)
    requires |after| == VARIABLE_LIMIT && forall i | |q.names| <= i < VARIABLE_LIMIT :: after[i] == 0
    requires forall i | 0 <= i < |q.names| :: after[i] == if Feeds(q, k, i) then Values(q, row)[i] else before[i]
    ensures Fed(q, row, after, k + 1)
  {
    forall i | 0 <= i < |q.names| && FedBefore(q, k + 1, i)
      ensures Feeds(q, k, i) || FedBefore(q, k, i)
    {
      var j :| 0 <= j < k + 1 && Feeds(q, j, i);
    }
  }

  lemma FedAll(q: Query, row: Tuple, values: seq<int>)
    requires q.Valid() && FitsRow(q, row) && Fed(q, row, values, |q.result|)
    ensures values == Values(q, row)
  {
    forall i | 0 <= i < |q.names|
      ensures FedBefore(q, |q.result|, i)
    {
      assert q.Numeric(q.names[i]);
      var k :| 0 <= k < |q.result| && q.result[k].name == q.names[i] && !q.result[k].domain.StringDomain?;
      assert Feeds(q, k, i);
    }
  }

  // A result row starts with the values of the first `n` attributes.
  ghost predicate Gathered(q: Query, n: nat, row: Tuple, bytes: seq<byte>)
    requires q.Valid() && FitsRow(q, row) && n <= |q.result|
  {
    Offset(q.result, n) <= |bytes| && bytes[..Offset(q.result, n)] == Gather(q, n, row)
  }

  lemma GatheredStep(q: Query, k: nat, row: Tuple, before: seq<byte>)
    requires q.Valid() && FitsRow(q, row) && k < |q.result| && Gathered(q, k, row, before)
    requires Offset(q.result, k + 1) <= |before|
    ensures var m := MapOf(q, k);
      && m.from + m.size <= |row| && m.to + m.size <= |before|
      && Gathered(q, k + 1, row, before[..m.to] + row[m.from..m.from + m.size] + before[m.to + m.size..])
  {
    GatherNext(q, k, row);
    PrefixSpliced(before, Offset(q.result, k), FieldOf(q, k, row));
  }

  lemma GatherNext(q: Query, k: nat, row: Tuple)
    requires q.Valid() && FitsRow(q, row) && k < |q.result|
    ensures Gather(q, k + 1, row) == Gather(q, k, row) + FieldOf(q, k, row)
    ensures Offset(q.result, k + 1) == Offset(q.result, k) + |FieldOf(q, k, row)|
  {
  }

  lemma PrefixSpliced(before: seq<byte>, at: nat, bytes: seq<byte>)
    requires at + |bytes| <= |before|
    ensures var after := before[..at] + bytes + before[at + |bytes|..];
      |after| == |before| && after[..at + |bytes|] == before[..at] + bytes
  {
  }

  // The iterator is the planned one, and new.
  twostate predicate Planning(q: Query, rows: seq<Tuple>, new scan: Iterator?, plan: Option<Plan>)
    requires q.Valid() && (forall r | r in rows :: FitsRow(q, r)) && (plan.Some? ==> plan.value.k < |q.attrs|)
    reads scan
  {
    match plan
    case None => scan == null
    case Some(p) =>
      && scan != null && fresh(scan) && scan.Valid() && scan.nextItemNo == 0
      && scan.keys == Column(q, rows, p.k) && scan.minValue == p.low && scan.maxValue == p.high
  }

  // Attribute `k` of the result gives variable `i` its value.
  predicate Feeds(q: Query, k: nat, i: nat)
    requires k < |q.result| && i < |q.names|
  {
    q.names[i] == q.result[k].name && !q.result[k].domain.StringDomain?
  }

  // The bytes of attribute `k` of the result
  function FieldOf(q: Query, k: nat, row: Tuple): (bytes: seq<byte>)
    requires q.Valid() && FitsRow(q, row) && k < |q.result|
    ensures var m := MapOf(q, k);
      m.from + m.size <= |row| && bytes == row[m.from..m.from + m.size] && |bytes| == q.result[k].size
  {
    assert q.Fetched(k);
    Field(q, q.result[k], row)
  }

  lemma FieldValue(q: Query, k: nat, row: Tuple)
    requires q.Valid() && FitsRow(q, row) && k < |q.result| && !q.result[k].domain.StringDomain?
    ensures AttributeOk(q.result[k])
    ensures forall i | 0 <= i < |q.names| && Feeds(q, k, i) ::
      Values(q, row)[i] == Decode(FieldOf(q, k, row), q.result[k].domain, q.ints)
  {
    var a := q.result[k];
    assert q.Fetched(k);
    assert q.attrs[Find(q.attrs, a.name)] in q.attrs;
    forall i | 0 <= i < |q.names| && Feeds(q, k, i)
      ensures Values(q, row)[i] == Decode(FieldOf(q, k, row), a.domain, q.ints)
    {
      NamesAreAttributes(q, q.names[i]);
    }
  }
}
