/**
 Rows as the fields of their attributes one after the other (apps/antelope/relation.c): how INSERT makes them, what a
 SELECT reads of them and returns, and what a JOIN puts together.
 */
module RowFields {
  import opened Bytes
  import opened Options
  import Lvm
  import opened RelationSelect
  import opened RelationAnswers
  import opened RelationJoin
  import opened PhysicalValues

  type Fields = seq<seq<byte>>

  predicate FieldOk(attrs: seq<Attribute>, fields: Fields, k: nat)
    requires |fields| == |attrs|
  {
    k < |attrs| ==> |fields[k]| == attrs[k].size
  }

  // One field for each attribute, of its size
  ghost predicate OfSizes(attrs: seq<Attribute>, fields: Fields) {
    |fields| == |attrs| && forall k: nat :: FieldOk(attrs, fields, k)
  }

  lemma {:induction false} FieldsBefore(attrs: seq<Attribute>, fields: Fields, k: nat)
    requires OfSizes(attrs, fields) && k <= |attrs|
    ensures |Flatten(fields[..k])| == Offset(attrs, k)
    decreases k
  {
    if k > 0 {
      FieldsBefore(attrs, fields, k - 1);
      FlattenNext(fields, k - 1);
      assert FieldOk(attrs, fields, k - 1);
    }
  }

  lemma FlattenNext(fields: Fields, k: nat)
    requires k < |fields|
    ensures Flatten(fields[..k + 1]) == Flatten(fields[..k]) + fields[k]
    ensures Flatten(fields) == Flatten(fields[..k]) + fields[k] + Flatten(fields[k + 1..])
  {
    assert fields[..k + 1] == fields[..k] + [fields[k]] && fields == fields[..k + 1] + fields[k + 1..];
    FlattenConcat(fields[..k], [fields[k]]);
    FlattenConcat(fields[..k + 1], fields[k + 1..]);
    FlattenOne(fields[k]);
  }

  lemma FlattenOne(field: seq<byte>)
    ensures Flatten([field]) == field
  {
    var one := [field];
    assert |one[1..]| == 0 && Flatten(one) == one[0] + Flatten(one[1..]);
  }

  /** A field stands at the offset of its attribute. */
  lemma FieldAt(attrs: seq<Attribute>, fields: Fields, k: nat)
    requires OfSizes(attrs, fields) && k < |attrs|
    ensures |Flatten(fields)| == RowLength(attrs) && Offset(attrs, k) + attrs[k].size <= RowLength(attrs)
    ensures Flatten(fields)[Offset(attrs, k)..Offset(attrs, k) + attrs[k].size] == fields[k]
  {
    FieldsBefore(attrs, fields, k);
    FieldsBefore(attrs, fields, |attrs|);
    assert fields[..|attrs|] == fields && FieldOk(attrs, fields, k);
    FlattenNext(fields, k);
    OffsetMonotonic(attrs, k + 1, |attrs|);
  }

  // ---------------------------------------------------------------- names

  // The first attribute with the name, and its field
  function Lookup(attrs: seq<Attribute>, fields: Fields, name: string): (found: Option<(Attribute, seq<byte>)>)
    requires |fields| == |attrs|
  {
    if attrs == [] then None
    else if attrs[0].name == name then Some((attrs[0], fields[0]))
    else Lookup(attrs[1..], fields[1..], name)
  }

  lemma {:induction false} LookupFinds(attrs: seq<Attribute>, fields: Fields, name: string)
    requires |fields| == |attrs|
    ensures var k := Find(attrs, name);
      Lookup(attrs, fields, name) == if k < |attrs| then Some((attrs[k], fields[k])) else None
    decreases attrs
  {
    if attrs != [] && attrs[0].name != name {
      LookupFinds(attrs[1..], fields[1..], name);
    }
  }

  // ---------------------------------------------------------------- INSERT

  /**
   A value as INSERT is given it; of an INT also what the union that holds it is as a long, and of a string the memory
   it begins in.
   */
  datatype Value = IntValue(v: int, asLong: int) | LongValue(v: int) | StringValue(memory: seq<byte>)

  predicate SameDomain(a: Attribute, value: Value) {
    match a.domain
    case IntDomain => value.IntValue?
    case LongDomain => !value.StringValue?
    case StringDomain => value.StringValue?
  }

  // The number that is stored
  function NumberOf(a: Attribute, value: Value): int
    requires SameDomain(a, value) && !a.domain.StringDomain?
  {
    if a.domain.LongDomain? && value.IntValue? then value.asLong else value.v
  }

  // The memory of a string reaches as far as the attribute.
  predicate Readable(a: Attribute, value: Value) { value.StringValue? ==> |value.memory| >= a.size }

  // What is stored for a value: a string ends in a zero byte.
  function FieldFor(a: Attribute, value: Value): (field: seq<byte>)
    requires AttributeOk(a) && SameDomain(a, value) && Readable(a, value)
    ensures |field| == a.size
  {
    if a.domain.StringDomain? then value.memory[..a.size - 1] + [0] else Encoded(a.domain, NumberOf(a, value))
  }

  /** A string that is shorter than its attribute is kept, with the zero byte that ends it; others are cut. */
  lemma StringKept(a: Attribute, text: seq<byte>, rest: seq<byte>)
    requires AttributeOk(a) && a.domain.StringDomain? && |text + [0] + rest| >= a.size
    ensures var field := FieldFor(a, StringValue(text + [0] + rest));
      if |text| < a.size then field[..|text| + 1] == text + [0] else field == text[..a.size - 1] + [0]
  {
    var memory := text + [0] + rest;
    if |text| < a.size - 1 {
      assert memory[..a.size - 1][..|text| + 1] == text + [0];
    } else {
      assert memory[..a.size - 1] == text[..a.size - 1];
    }
  }

  ghost predicate Insertable(attrs: seq<Attribute>, values: seq<Value>) {
    |values| == |attrs| && Attributes(attrs) && forall k | 0 <= k < |attrs| :: Readable(attrs[k], values[k])
  }

  function FieldsFor(attrs: seq<Attribute>, values: seq<Value>): (fields: Fields)
    requires |values| == |attrs| && Attributes(attrs)
    requires forall k | 0 <= k < |attrs| :: Readable(attrs[k], values[k]) && SameDomain(attrs[k], values[k])
  {
    seq(|attrs|, k requires 0 <= k < |attrs| => FieldFor(attrs[k], values[k]))
  }

  lemma FieldsForSizes(attrs: seq<Attribute>, values: seq<Value>)
    requires Insertable(attrs, values) && forall k | 0 <= k < |attrs| :: SameDomain(attrs[k], values[k])
    ensures OfSizes(attrs, FieldsFor(attrs, values))
  {
    forall k: nat
      ensures FieldOk(attrs, FieldsFor(attrs, values), k)
    {
      assert k < |attrs| ==> |FieldFor(attrs[k], values[k])| == attrs[k].size;
    }
  }

  // db_value_to_phy for one attribute
  method StoreField(record: array<byte>, at: nat, a: Attribute, value: Value)
    requires AttributeOk(a) && SameDomain(a, value) && Readable(a, value) && at + a.size <= record.Length
    modifies record
    ensures record[..at + a.size] == old(record[..at]) + FieldFor(a, value)
  {
    if a.domain.StringDomain? {
      Copy(record, at, value.memory[..a.size]);
      record[at + a.size - 1] := 0;
    } else {
      ValueToPhy(record, at, a.domain, NumberOf(a, value));
    }
  }

  lemma FlattenSnoc(fields: Fields, field: seq<byte>)
    ensures Flatten(fields + [field]) == Flatten(fields) + field
  {
    FlattenConcat(fields, [field]);
    FlattenOne(field);
  }

  predicate MadeAt(attrs: seq<Attribute>, values: seq<Value>, fields: Fields, i: nat)
    requires |values| == |attrs| && Attributes(attrs)
  {
    i < |attrs| && i < |fields| && Readable(attrs[i], values[i]) && SameDomain(attrs[i], values[i]) &&
    AttributeOk(attrs[i]) && fields[i] == FieldFor(attrs[i], values[i])
  }

  // The fields of the first values
  ghost predicate Made(attrs: seq<Attribute>, values: seq<Value>, fields: Fields)
    requires |values| == |attrs| && Attributes(attrs)
  {
    |fields| <= |attrs| && forall i | 0 <= i < |fields| :: MadeAt(attrs, values, fields, i)
  }

  lemma MadeSnoc(attrs: seq<Attribute>, values: seq<Value>, fields: Fields, field: seq<byte>)
    requires |values| == |attrs| && Attributes(attrs) && Made(attrs, values, fields)
    requires MadeAt(attrs, values, fields + [field], |fields|)
    ensures Made(attrs, values, fields + [field])
  {
    forall i | 0 <= i < |fields + [field]|
      ensures MadeAt(attrs, values, fields + [field], i)
    {
      assert i < |fields| ==> MadeAt(attrs, values, fields, i);
    }
  }

  lemma MadeNext(attrs: seq<Attribute>, values: seq<Value>, fields: Fields)
    requires Insertable(attrs, values) && Made(attrs, values, fields) && |fields| < |attrs|
    requires SameDomain(attrs[|fields|], values[|fields|])
    ensures AttributeOk(attrs[|fields|]) && Readable(attrs[|fields|], values[|fields|])
    ensures Offset(attrs, |fields| + 1) == Offset(attrs, |fields|) + attrs[|fields|].size <= RowLength(attrs)
    ensures Made(attrs, values, fields + [FieldFor(attrs[|fields|], values[|fields|])])
  {
    var k := |fields|;
    assert attrs[k] in attrs;
    OffsetMonotonic(attrs, k + 1, |attrs|);
    MadeSnoc(attrs, values, fields, FieldFor(attrs[k], values[k]));
  }

  lemma MadeAll(attrs: seq<Attribute>, values: seq<Value>, fields: Fields)
    requires Insertable(attrs, values) && Made(attrs, values, fields) && |fields| == |attrs|
    ensures forall k | 0 <= k < |attrs| :: SameDomain(attrs[k], values[k])
    ensures fields == FieldsFor(attrs, values)
  {
    forall k | 0 <= k < |attrs|
      ensures SameDomain(attrs[k], values[k]) && AttributeOk(attrs[k]) && Readable(attrs[k], values[k])
      ensures fields[k] == FieldFor(attrs[k], values[k])
    {
      assert MadeAt(attrs, values, fields, k);
    }
  }

  /** The loop of relation_insert: the record is the fields of the values, or a value has the wrong domain. */
  method FillRecord(attrs: seq<Attribute>, values: seq<Value>, record: array<byte>) returns (ok: bool)
    requires Insertable(attrs, values) && record.Length == RowLength(attrs)
    modifies record
    ensures ok <==> forall k | 0 <= k < |attrs| :: SameDomain(attrs[k], values[k])
    ensures ok ==> record[..] == Flatten(FieldsFor(attrs, values))
  {
    var at, k := 0, 0;
    ghost var fields: Fields := [];
    while k < |attrs|
      invariant |fields| == k <= |attrs| && at == Offset(attrs, k) <= record.Length
      invariant Made(attrs, values, fields) && record[..at] == Flatten(fields)
    {
      if !SameDomain(attrs[k], values[k]) {
        return false;
      }
      MadeNext(attrs, values, fields);
      FlattenSnoc(fields, FieldFor(attrs[k], values[k]));
      StoreField(record, at, attrs[k], values[k]);
      fields := fields + [FieldFor(attrs[k], values[k])];
      at := at + attrs[k].size;
      k := k + 1;
    }
    MadeAll(attrs, values, fields);
    assert record[..] == record[..at];
    ok := true;
  }

  // ---------------------------------------------------------------- SELECT

  /** The variable of an attribute gets the value of its field. */
  lemma ReadsField(q: Query, fields: Fields, name: string)
    requires Attributes(q.attrs) && OfSizes(q.attrs, fields) && Lookup(q.attrs, fields, name).Some?
    ensures FitsRow(q, Flatten(fields)) && Find(q.attrs, name) < |q.attrs|
    ensures var (a, field) := Lookup(q.attrs, fields, name).value;
      (a.domain.IntDomain? ==> |field| == 2) && (a.domain.LongDomain? ==> |field| == 4) &&
      ValueIn(q, name, Flatten(fields)) == Decode(field, a.domain, q.ints)
  {
    LookupFinds(q.attrs, fields, name);
    var k := Find(q.attrs, name);
    FieldAt(q.attrs, fields, k);
    assert q.attrs[k] in q.attrs && FieldOk(q.attrs, fields, k);
  }

  /** What was inserted is what the condition is tested on, if the column can have it. */
  lemma ReadsInserted(q: Query, values: seq<Value>, k: nat)
    requires Insertable(q.attrs, values) && (forall i | 0 <= i < |q.attrs| :: SameDomain(q.attrs[i], values[i]))
    requires k < |q.attrs| && Find(q.attrs, q.attrs[k].name) == k && !q.attrs[k].domain.StringDomain?
    requires Lvm.IsLong(NumberOf(q.attrs[k], values[k]))
    ensures var row, a, v := Flatten(FieldsFor(q.attrs, values)), q.attrs[k], NumberOf(q.attrs[k], values[k]);
      && FitsRow(q, row)
      && (ValueIn(q, a.name, row) == v <==> KeyMin(a.domain, q.ints) <= v <= KeyMax(a.domain, q.ints))
  {
    var fields, a := FieldsFor(q.attrs, values), q.attrs[k];
    FieldsForSizes(q.attrs, values);
    LookupFinds(q.attrs, fields, a.name);
    ReadsField(q, fields, a.name);
    StoredReadIff(a.domain, q.ints, NumberOf(a, values[k]));
  }

  // The fields that the first `n` attributes of the result name
  function Picked(q: Query, fields: Fields, n: nat): Fields
    requires n <= |q.result| && |fields| == |q.attrs|
  {
    if n == 0 then []
    else
      var found := Lookup(q.attrs, fields, q.result[n - 1].name);
      Picked(q, fields, n - 1) + if found.Some? then [found.value.1] else []
  }

  /** The result row has the fields of the attributes that are named, in the order of the names. */
  lemma ProjectsFields(q: Query, fields: Fields)
    requires q.Valid() && OfSizes(q.attrs, fields)
    ensures FitsRow(q, Flatten(fields)) && Projection(q, Flatten(fields)) == Flatten(Picked(q, fields, q.columns))
  {
    RowOfFields(q.attrs, fields);
    GathersFields(q, fields, q.columns);
  }

  lemma RowOfFields(attrs: seq<Attribute>, fields: Fields)
    requires OfSizes(attrs, fields)
    ensures |Flatten(fields)| == RowLength(attrs)
  {
    FieldsBefore(attrs, fields, |attrs|);
    assert fields[..|attrs|] == fields;
  }

  lemma FetchesField(q: Query, fields: Fields, k: nat)
    requires q.Valid() && OfSizes(q.attrs, fields) && FitsRow(q, Flatten(fields)) && k < |q.result|
    ensures var found := Lookup(q.attrs, fields, q.result[k].name);
      found.Some? && FieldOf(q, k, Flatten(fields)) == found.value.1
  {
    assert q.Fetched(k);
    LookupFinds(q.attrs, fields, q.result[k].name);
    FieldAt(q.attrs, fields, Find(q.attrs, q.result[k].name));
  }

  lemma PickedNext(q: Query, fields: Fields, n: nat)
    requires n < |q.result| && |fields| == |q.attrs| && Lookup(q.attrs, fields, q.result[n].name).Some?
    ensures Flatten(Picked(q, fields, n + 1)) ==
      Flatten(Picked(q, fields, n)) + Lookup(q.attrs, fields, q.result[n].name).value.1
  {
    FlattenSnoc(Picked(q, fields, n), Lookup(q.attrs, fields, q.result[n].name).value.1);
  }

  ghost predicate GathersTo(q: Query, fields: Fields, n: nat)
    requires q.Valid() && FitsRow(q, Flatten(fields)) && n <= |q.result| && |fields| == |q.attrs|
  {
    Gather(q, n, Flatten(fields)) == Flatten(Picked(q, fields, n))
  }

  lemma GathersNext(q: Query, fields: Fields, n: nat)
    requires q.Valid() && OfSizes(q.attrs, fields) && FitsRow(q, Flatten(fields)) && n < |q.result|
    requires GathersTo(q, fields, n)
    ensures GathersTo(q, fields, n + 1)
  {
    GatherNext(q, n, Flatten(fields));
    FetchesField(q, fields, n);
    PickedNext(q, fields, n);
  }

  lemma {:induction false} GathersFields(q: Query, fields: Fields, n: nat)
    requires q.Valid() && OfSizes(q.attrs, fields) && FitsRow(q, Flatten(fields)) && n <= |q.result|
    ensures GathersTo(q, fields, n)
    decreases n
  {
    if n > 0 {
      GathersFields(q, fields, n - 1);
      GathersNext(q, fields, n - 1);
    }
  }

  // ---------------------------------------------------------------- JOIN

  // The field of the joined row with this name: from the left, or from the right if the left has none
  function JoinedField(left: seq<Attribute>, lf: Fields, right: seq<Attribute>, rf: Fields, name: string): seq<byte>
    requires |lf| == |left| && |rf| == |right|
  {
    var l, r := Lookup(left, lf, name), Lookup(right, rf, name);
    if l.Some? then l.value.1 else if r.Some? then r.value.1 else []
  }

  // The fields of the first `n` names
  function JoinedFields(left: seq<Attribute>, lf: Fields, right: seq<Attribute>, rf: Fields, names: seq<string>,
                        n: nat): Fields
    requires |lf| == |left| && |rf| == |right| && n <= |names|
  {
    if n == 0 then []
    else JoinedFields(left, lf, right, rf, names, n - 1) + [JoinedField(left, lf, right, rf, names[n - 1])]
  }

  // The sources of the joined row are those of these names.
  ghost predicate Named(q: Equijoin, names: seq<string>) {
    |q.sources| == |names| && forall n: nat | n < |names| :: NamedAt(q, names, n)
  }

  predicate NamedAt(q: Equijoin, names: seq<string>, n: nat)
    requires n < |q.sources| && n < |names|
  {
    Some(q.sources[n]) == SourceOf(q.left.attrs, q.right.attrs, names[n])
  }

  lemma SourceIsField(q: Equijoin, name: string, s: Source, lf: Fields, rf: Fields)
    requires q.Valid() && OfSizes(q.left.attrs, lf) && OfSizes(q.right.attrs, rf)
    requires Some(s) == SourceOf(q.left.attrs, q.right.attrs, name)
    ensures var row := Flatten(if s.left then lf else rf);
      s.from + s.size <= |row| &&
      row[s.from..s.from + s.size] == JoinedField(q.left.attrs, lf, q.right.attrs, rf, name)
  {
    LookupFinds(q.left.attrs, lf, name);
    LookupFinds(q.right.attrs, rf, name);
    if s.left {
      FieldAt(q.left.attrs, lf, Find(q.left.attrs, name));
    } else {
      FieldAt(q.right.attrs, rf, Find(q.right.attrs, name));
    }
  }

  lemma PartIsField(q: Equijoin, names: seq<string>, n: nat, lf: Fields, rf: Fields)
    requires q.Valid() && Named(q, names) && n < |names|
    requires OfSizes(q.left.attrs, lf) && OfSizes(q.right.attrs, rf) && FitsPair(q, Flatten(lf), Flatten(rf))
    ensures Part(q, n, Flatten(lf), Flatten(rf)) == JoinedField(q.left.attrs, lf, q.right.attrs, rf, names[n])
  {
    assert NamedAt(q, names, n);
    SourceIsField(q, names[n], q.sources[n], lf, rf);
  }

  ghost predicate CombinesTo(q: Equijoin, names: seq<string>, n: nat, lf: Fields, rf: Fields)
    requires q.Valid() && Named(q, names) && n <= |names| && FitsPair(q, Flatten(lf), Flatten(rf))
    requires |lf| == |q.left.attrs| && |rf| == |q.right.attrs|
  {
    Combined(q, n, Flatten(lf), Flatten(rf)) == Flatten(JoinedFields(q.left.attrs, lf, q.right.attrs, rf, names, n))
  }

  lemma CombinesNext(q: Equijoin, names: seq<string>, n: nat, lf: Fields, rf: Fields)
    requires q.Valid() && Named(q, names) && n < |names| && FitsPair(q, Flatten(lf), Flatten(rf))
    requires OfSizes(q.left.attrs, lf) && OfSizes(q.right.attrs, rf) && CombinesTo(q, names, n, lf, rf)
    ensures CombinesTo(q, names, n + 1, lf, rf)
  {
    CombinedStep(q, n, Flatten(lf), Flatten(rf));
    PartIsField(q, names, n, lf, rf);
    FlattenSnoc(JoinedFields(q.left.attrs, lf, q.right.attrs, rf, names, n),
      JoinedField(q.left.attrs, lf, q.right.attrs, rf, names[n]));
  }

  lemma {:induction false} CombinesFields(q: Equijoin, names: seq<string>, n: nat, lf: Fields, rf: Fields)
    requires q.Valid() && Named(q, names) && n <= |names| && FitsPair(q, Flatten(lf), Flatten(rf))
    requires OfSizes(q.left.attrs, lf) && OfSizes(q.right.attrs, rf)
    ensures CombinesTo(q, names, n, lf, rf)
    decreases n
  {
    if n > 0 {
      CombinesFields(q, names, n - 1, lf, rf);
      CombinesNext(q, names, n - 1, lf, rf);
    }
  }

  // A relation whose rows are these fields
  ghost predicate HasFields(r: Relation, table: seq<Fields>) {
    && |table| == |r.rows| && forall i | 0 <= i < |table| :: RowIs(r, table, i)
  }

  ghost predicate RowIs(r: Relation, table: seq<Fields>, i: nat)
    requires i < |table| == |r.rows|
  {
    OfSizes(r.attrs, table[i]) && r.rows[i] == Flatten(table[i])
  }

  // The number in the field with this name, or 0 if there is none
  function KeyOf(attrs: seq<Attribute>, fields: Fields, name: string, ints: Ints): int
    requires |fields| == |attrs|
  {
    var found := Lookup(attrs, fields, name);
    if found.None? || found.value.0.domain.StringDomain? then 0
    else if |found.value.1| != if found.value.0.domain.IntDomain? then 2 else 4 then 0
    else Decode(found.value.1, found.value.0.domain, ints)
  }

  /** The equi-join on fields: all pairs with equal keys, left rows outside. */
  ghost function FieldJoin(q: Equijoin, names: seq<string>, lt: seq<Fields>, rt: seq<Fields>, i: nat, j: nat)
    : seq<Tuple>
    requires names != [] && i <= |lt| && j <= |rt|
    requires forall f | f in lt :: |f| == |q.left.attrs|
    requires forall f | f in rt :: |f| == |q.right.attrs|
    decreases |lt| - i, |rt| - j
  {
    if i == |lt| then []
    else if j == |rt| then FieldJoin(q, names, lt, rt, i + 1, 0)
    else
      JoinedPair(q, names, lt[i], rt[j]) + FieldJoin(q, names, lt, rt, i, j + 1)
  }

  // The join that is set up for these names
  ghost predicate JoinOn(q: Equijoin, names: seq<string>) {
    && q.Valid() && names != [] && Named(q, names[1..])
    && q.leftKey == Find(q.left.attrs, names[0]) && q.rightKey == Find(q.right.attrs, names[0])
  }

  lemma KeyIsField(attrs: seq<Attribute>, fields: Fields, name: string, ints: Ints)
    requires Attributes(attrs) && OfSizes(attrs, fields) && Find(attrs, name) < |attrs|
    ensures |Flatten(fields)| == RowLength(attrs)
    ensures ValueOf(attrs, Find(attrs, name), ints, Flatten(fields)) == KeyOf(attrs, fields, name, ints)
  {
    var k := Find(attrs, name);
    LookupFinds(attrs, fields, name);
    FieldAt(attrs, fields, k);
    assert attrs[k] in attrs && FieldOk(attrs, fields, k);
  }

  // The row with the fields of these names
  function JoinedRow(left: seq<Attribute>, lf: Fields, right: seq<Attribute>, rf: Fields, names: seq<string>): Tuple
    requires |lf| == |left| && |rf| == |right|
  {
    Flatten(JoinedFields(left, lf, right, rf, names, |names|))
  }

  lemma PairOfFields(q: Equijoin, names: seq<string>, lf: Fields, rf: Fields)
    requires q.Valid() && Named(q, names) && OfSizes(q.left.attrs, lf) && OfSizes(q.right.attrs, rf)
    ensures FitsPair(q, Flatten(lf), Flatten(rf))
    ensures Pairing(q, Flatten(lf), Flatten(rf)) == JoinedRow(q.left.attrs, lf, q.right.attrs, rf, names)
  {
    RowOfFields(q.left.attrs, lf);
    RowOfFields(q.right.attrs, rf);
    CombinesFields(q, names, |names|, lf, rf);
  }

  // What one pair of rows adds to the join
  ghost function JoinedPair(q: Equijoin, names: seq<string>, lf: Fields, rf: Fields): seq<Tuple>
    requires names != [] && |lf| == |q.left.attrs| && |rf| == |q.right.attrs|
  {
    if KeyOf(q.left.attrs, lf, names[0], q.ints) == KeyOf(q.right.attrs, rf, names[0], q.ints) then
      [JoinedRow(q.left.attrs, lf, q.right.attrs, rf, names[1..])]
    else []
  }

  lemma PairAdds(q: Equijoin, names: seq<string>, lt: seq<Fields>, rt: seq<Fields>, i: nat, j: nat)
    requires JoinOn(q, names) && HasFields(q.left, lt) && HasFields(q.right, rt) && i < |lt| && j < |rt|
    ensures |lt[i]| == |q.left.attrs| && |rt[j]| == |q.right.attrs|
    ensures JoinedPair(q, names, lt[i], rt[j]) == Added(q, i, j)
  {
    assert RowIs(q.left, lt, i) && RowIs(q.right, rt, j);
    KeyIsField(q.left.attrs, lt[i], names[0], q.ints);
    KeyIsField(q.right.attrs, rt[j], names[0], q.ints);
    PairOfFields(q, names[1..], lt[i], rt[j]);
  }

  // The same in the reference
  ghost function Added(q: Equijoin, i: nat, j: nat): seq<Tuple>
    requires q.Valid() && i < |q.left.rows| && j < |q.right.rows|
  {
    if LeftValue(q, i) == RightValue(q, j) then [Pairing(q, q.left.rows[i], q.right.rows[j])] else []
  }

  lemma TableSizes(r: RelationJoin.Relation, table: seq<Fields>)
    requires HasFields(r, table)
    ensures forall f | f in table :: |f| == |r.attrs|
  {
    forall f | f in table
      ensures |f| == |r.attrs|
    {
      var k :| 0 <= k < |table| && table[k] == f;
      assert RowIs(r, table, k);
    }
  }

  // What is left of the loops
  ghost function Left(q: Equijoin, i: nat, j: nat): seq<Tuple>
    requires q.Valid() && i <= |q.left.rows| && j <= |q.right.rows|
  {
    if i == |q.left.rows| then [] else Matching(q, i, j) + NestedLoop(q, i + 1)
  }

  lemma LeftStep(q: Equijoin, i: nat, j: nat)
    requires q.Valid() && i < |q.left.rows| && j <= |q.right.rows|
    ensures j == |q.right.rows| ==> Left(q, i, j) == Left(q, i + 1, 0)
    ensures j < |q.right.rows| ==> Left(q, i, j) == Added(q, i, j) + Left(q, i, j + 1)
  {
  }

  lemma {:induction false} LoopJoinsFields(q: Equijoin, names: seq<string>, lt: seq<Fields>, rt: seq<Fields>, i: nat,
                                           j: nat)
    requires JoinOn(q, names) && HasFields(q.left, lt) && HasFields(q.right, rt) && i <= |lt| && j <= |rt|
    requires (forall f | f in lt :: |f| == |q.left.attrs|) && (forall f | f in rt :: |f| == |q.right.attrs|)
    ensures FieldJoin(q, names, lt, rt, i, j) == Left(q, i, j)
    decreases |lt| - i, |rt| - j
  {
    if i < |lt| {
      LeftStep(q, i, j);
      if j == |rt| {
        LoopJoinsFields(q, names, lt, rt, i + 1, 0);
      } else {
        LoopJoinsFields(q, names, lt, rt, i, j + 1);
        PairAdds(q, names, lt, rt, i, j);
      }
    }
  }

  /**
   A JOIN from its attribute names to its rows: each row has the fields with these names, taken from the left relation,
   or from the right one if the left has none, and there is one for every pair of rows with equal keys, in order.
   */
  method JoinTables(left: Relation, right: Relation, names: seq<string>, ints: Ints, find: Index,
                    ghost lt: seq<Fields>, ghost rt: seq<Fields>)
    returns (setup: Setup, out: seq<Tuple>, r: Outcome)
    requires left.Valid() && right.Valid() && names != [] && HasFields(left, lt) && HasFields(right, rt)
    ensures setup.Ready? ==> JoinOn(setup.q, names) && setup.q.left == left && setup.q.right == right
    ensures setup.Ready? && Enumerates(setup.q, find) ==>
      && (forall f | f in lt :: |f| == |left.attrs|) && (forall f | f in rt :: |f| == |right.attrs|)
      && r == Over && out == FieldJoin(setup.q, names, lt, rt, 0, 0)
  {
    setup := Join(left, right, names, ints);
    out, r := [], Over;
    if setup.Ready? {
      var q := setup.q;
      assert forall n: nat | n < |names| - 1 :: NamedAt(q, names[1..], n);
      var joinRow := new byte[SizeOf(q.sources, |q.sources|)](_ => 0);
      out, r := RunJoin(q, find, joinRow);
      TableSizes(left, lt);
      TableSizes(right, rt);
      LoopJoinsFields(q, names, lt, rt, 0, 0);
    }
  }
}
