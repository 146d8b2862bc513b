/**
 The second reading of a predicate's bytecode (apps/antelope/lvm.c): deriving for each
 variable an interval that its value must lie in for the predicate to hold.

 Longs have 32 bits; the successor and predecessor of a bound wrap around.
 */
module LvmDerive {
  import opened Bytes
  import opened Options
  import opened Lvm

  const LONG_MIN := -0x8000_0000
  const LONG_MAX := 0x7fff_ffff
  // LVM_MAX_VARIABLE_ID
  const MAX_VARIABLE_ID := 8

  datatype Derivation = Derivation(min: int, max: int, derived: bool)

  const UNDERIVED := Derivation(0, 0, false)

  type Ranges = seq<Derivation>

  function Wrap(v: int): int {
    if v > LONG_MAX then v - 0x1_0000_0000 else if v < LONG_MIN then v + 0x1_0000_0000 else v
  }

  // ---------------------------------------------------------------- the derivation as a function

  // The variable that the code takes a comparison to be about, and the value it is compared with.  If
  // the first operand is no variable, the second is read as one even if it is a number.
  function Subject(a: Operand, b: Operand): Option<(nat, int)> {
    match (a, b)
    case (Variable(_), Variable(_)) => None
    case (Variable(i), Long(v)) => Some((i, v))
    case (Long(v), Variable(i)) => Some((i, v))
    case (Long(v), Long(w)) => Some((w % 256, v))
  }

  // The interval for a relation to `v`, whichever side the variable is on
  function Interval(rel: Relation, v: int): Option<Derivation> {
    match rel
    case Eq => Some(Derivation(v, v, true))
    case Neq => None
    case Gt => Some(Derivation(Wrap(v + 1), LONG_MAX, true))
    case Geq => Some(Derivation(v, LONG_MAX, true))
    case Lt => Some(Derivation(LONG_MIN, Wrap(v - 1), true))
    case Leq => Some(Derivation(LONG_MIN, v, true))
  }

  function Nothing(): Ranges { seq(MAX_VARIABLE_ID, _ => UNDERIVED) }

  function DeriveCmp(rel: Relation, a: Operand, b: Operand): (r: Option<Ranges>)
    ensures r.Some? ==> |r.value| == MAX_VARIABLE_ID
  {
    match Subject(a, b)
    case None => None
    case Some((i, v)) =>
      if i >= MAX_VARIABLE_ID then None
      else match Interval(rel, v)
           case None => None
           case Some(d) => Some(Nothing()[i := d])
  }

  function Max(x: int, y: int): int { if x > y then x else y }
  function Min(x: int, y: int): int { if x < y then x else y }

  function Meet(x: Derivation, y: Derivation): Derivation {
    if !x.derived && !y.derived then UNDERIVED
    else if !x.derived then y
    else if !y.derived then x
    else Derivation(Max(x.min, y.min), Min(x.max, y.max), true)
  }

  function Join(x: Derivation, y: Derivation): Derivation {
    if !x.derived && !y.derived then UNDERIVED
    else if !x.derived then y
    else if !y.derived then x
    else Derivation(Min(x.min, y.min), Max(x.max, y.max), true)
  }

  function Zip(f: (Derivation, Derivation) -> Derivation, xs: Ranges, ys: Ranges): (r: Ranges)
    requires |xs| == |ys| == MAX_VARIABLE_ID
    ensures |r| == MAX_VARIABLE_ID
  {
    seq(MAX_VARIABLE_ID, i requires 0 <= i < MAX_VARIABLE_ID => f(xs[i], ys[i]))
  }

  function Derive(p: Logic): (r: Option<Ranges>)
    ensures r.Some? ==> |r.value| == MAX_VARIABLE_ID
  {
    match p
    case Cmp(rel, a, b) => if a.Leaf? && b.Leaf? then DeriveCmp(rel, a.o, b.o) else None
    case Both(x, y) =>
      var dx, dy := Derive(x), Derive(y);
      if dx.Some? && dy.Some? then Some(Zip(Meet, dx.value, dy.value)) else None
    case Either(x, y) =>
      var dx, dy := Derive(x), Derive(y);
      if dx.Some? && dy.Some? then Some(Zip(Join, dx.value, dy.value)) else None
    case Neg(_) => None
  }

  // ---------------------------------------------------------------- the derivation on bytecode

  ghost predicate Clear(d: array<Derivation>)
    reads d
  {
    d.Length == MAX_VARIABLE_ID && forall i | 0 <= i < MAX_VARIABLE_ID :: d[i] == UNDERIVED
  }

  // create_intersection
  method CreateIntersection(result: array<Derivation>, d1: array<Derivation>, d2: array<Derivation>)
    requires Clear(result) && result != d1 && result != d2 && d1.Length == d2.Length == MAX_VARIABLE_ID
    modifies result
    ensures result[..] == Zip(Meet, d1[..], d2[..])
  {
    var i := 0;
    while i < MAX_VARIABLE_ID
      invariant 0 <= i <= MAX_VARIABLE_ID
      invariant forall k | 0 <= k < i :: result[k] == Meet(d1[k], d2[k])
      invariant forall k | i <= k < MAX_VARIABLE_ID :: result[k] == UNDERIVED
    {
      if d1[i].derived || d2[i].derived {
        var min, max;
        if !d2[i].derived {
          min, max := d1[i].min, d1[i].max;
        } else if !d1[i].derived {
          min, max := d2[i].min, d2[i].max;
        } else {
          min := if d1[i].min > d2[i].min then d1[i].min else d2[i].min;
          max := if d1[i].max < d2[i].max then d1[i].max else d2[i].max;
        }
        result[i] := Derivation(min, max, true);
      }
      i := i + 1;
    }
  }

  // create_union
  method CreateUnion(result: array<Derivation>, d1: array<Derivation>, d2: array<Derivation>)
    requires Clear(result) && result != d1 && result != d2 && d1.Length == d2.Length == MAX_VARIABLE_ID
    modifies result
    ensures result[..] == Zip(Join, d1[..], d2[..])
  {
    var i := 0;
    while i < MAX_VARIABLE_ID
      invariant 0 <= i <= MAX_VARIABLE_ID
      invariant forall k | 0 <= k < i :: result[k] == Join(d1[k], d2[k])
      invariant forall k | i <= k < MAX_VARIABLE_ID :: result[k] == UNDERIVED
    {
      if d1[i].derived || d2[i].derived {
        var min, max;
        if !d2[i].derived {
          min, max := d1[i].min, d1[i].max;
        } else if !d1[i].derived {
          min, max := d2[i].min, d2[i].max;
        } else {
          min := if d1[i].min > d2[i].min then d2[i].min else d1[i].min;
          max := if d1[i].max < d2[i].max then d2[i].max else d1[i].max;
        }
        result[i] := Derivation(min, max, true);
      }
      i := i + 1;
    }
  }

  // An array of derivations, set to zero
  method NoDerivations() returns (d: array<Derivation>)
    ensures fresh(d) && Clear(d)
  {
    d := new Derivation[MAX_VARIABLE_ID](_ => UNDERIVED);
  }

  // derive_relation
  method DeriveRelation(m: Machine, ghost p: Logic, d: array<Derivation>) returns (status: Status)
    requires At(m.code[..], m.ip, LogicBytes(p)) && LogicFits(p) && Clear(d)
    modifies m`ip, d
    ensures status == if Derive(p).Some? then IsTrue else DerivationError
    ensures Derive(p).Some? ==> d[..] == Derive(p).value && m.ip == old(m.ip) + |LogicBytes(p)|
    decreases p, 1
  {
    HeadParts(m.code[..], m.ip, LVM_CMP_OP, LogicCode(p), LogicArgs(p));
    var type_ := m.GetEnum();
    var operator := m.GetEnum();
    if IsConnective(operator) {
      status := DeriveConnective(m, operator, p, d);
    } else {
      status := DeriveComparison(m, operator, p, d);
    }
  }

  // The part of derive_relation for a connective
  method DeriveConnective(m: Machine, operator: nat, ghost p: Logic, d: array<Derivation>) returns (status: Status)
    requires !p.Cmp? && operator == LogicCode(p) && LogicFits(p)
    requires At(m.code[..], m.ip, LogicArgs(p)) && Clear(d)
    modifies m`ip, d
    ensures status == if Derive(p).Some? then IsTrue else DerivationError
    ensures Derive(p).Some? ==> d[..] == Derive(p).value && m.ip == old(m.ip) + |LogicArgs(p)|
    decreases p, 0
  {
    if operator != ConnectiveCode(And) && operator != ConnectiveCode(Or) {
      return DerivationError;
    }
    AtParts(m.code[..], m.ip, LogicBytes(p.x), LogicBytes(p.y));
    var d1 := NoDerivations();
    var d2 := NoDerivations();
    status := DeriveRelation(m, p.x, d1);
    if status.IsError() {
      return DerivationError;
    }
    status := DeriveRelation(m, p.y, d2);
    if status.IsError() {
      return DerivationError;
    }
    Combine(operator, p, d, d1, d2);
    return IsTrue;
  }

  // The intervals of both arguments become those of the connective.
  method Combine(operator: nat, ghost p: Logic, d: array<Derivation>, d1: array<Derivation>, d2: array<Derivation>)
    requires (p.Both? || p.Either?) && operator == LogicCode(p)
    requires Derive(p.x).Some? && d1[..] == Derive(p.x).value && Derive(p.y).Some? && d2[..] == Derive(p.y).value
    requires Clear(d) && d != d1 && d != d2
    modifies d
    ensures Derive(p).Some? && d[..] == Derive(p).value
  {
    if operator == ConnectiveCode(And) {
      CreateIntersection(d, d1, d2);
    } else {
      CreateUnion(d, d1, d2);
    }
  }

  // One side of a comparison, which must be an operand
  method NextOperand(m: Machine, ghost a: Arith) returns (ok: bool, o: Operand)
    requires At(m.code[..], m.ip, ArithBytes(a)) && ArithFits(a)
    modifies m`ip
    ensures ok <==> a.Leaf?
    ensures ok ==> o == a.o && m.ip == old(m.ip) + |ArithBytes(a)|
  {
    if a.Leaf? {
      LeafParts(m.code[..], m.ip, a.o);
    } else {
      HeadParts(m.code[..], m.ip, LVM_ARITH_OP, ArithCode(a.op), ArithBytes(a.l) + ArithBytes(a.r));
    }
    var type_ := m.GetEnum();
    if type_ != LVM_OPERAND {
      return false, Long(0);
    }
    o := m.GetOperand(a.o);
    ok := true;
  }

  // The part of derive_relation for one comparison
  method DeriveComparison(m: Machine, operator: nat, ghost p: Logic, d: array<Derivation>) returns (status: Status)
    requires p.Cmp? && operator == RelationCode(p.rel) && LogicFits(p)
    requires At(m.code[..], m.ip, LogicArgs(p)) && Clear(d)
    modifies m`ip, d
    ensures status == if Derive(p).Some? then IsTrue else DerivationError
    ensures Derive(p).Some? ==> d[..] == Derive(p).value && m.ip == old(m.ip) + |LogicArgs(p)|
  {
    AtParts(m.code[..], m.ip, ArithBytes(p.a), ArithBytes(p.b));
    var ok, first := NextOperand(m, p.a);
    if !ok {
      return DerivationError;
    }
    var second;
    ok, second := NextOperand(m, p.b);
    if !ok {
      return DerivationError;
    }
    status := DeriveOperands(operator, p.rel, first, second, d);
  }

  // The interval of a variable, if it is known and one was derived
  function DerivedRange(names: seq<string>, r: Ranges, name: string): (d: Option<Derivation>)
    requires |names| <= |r|
    ensures d.Some? ==> d.value.derived && name in names
  {
    var i := IndexOf(names, name);
    if i < |names| && r[i].derived then Some(r[i]) else None
  }

  // lvm_get_derived_range
  method GetDerivedRange(m: Machine, d: array<Derivation>, name: string) returns (range: Option<Derivation>)
    requires |m.names| <= d.Length
    ensures range == DerivedRange(m.names, d[..], name)
  {
    var i := m.Lookup(name);
    if i < |m.names| && d[i].derived {
      return Some(d[i]);
    }
    return None;
  }

  // The low byte of an operand's value, which a variable keeps its number in
  function IdOf(o: Operand): nat {
    match o
    case Variable(id) => id
    case Long(w) => w % 256
  }

  method DeriveOperands(operator: nat, ghost rel: Relation, first: Operand, second: Operand, d: array<Derivation>)
    returns (status: Status)
    requires operator == RelationCode(rel) && Clear(d)
    modifies d
    ensures status == if DeriveCmp(rel, first, second).Some? then IsTrue else DerivationError
    ensures DeriveCmp(rel, first, second).Some? ==> d[..] == DeriveCmp(rel, first, second).value
  {
    var variableId, value;
    if first.Variable? {
      if second.Variable? {
        return DerivationError;
      }
      variableId, value := first.id, second.value;
    } else {
      variableId, value := IdOf(second), first.value;
    }
    if variableId >= MAX_VARIABLE_ID {
      return DerivationError;
    }
    var min, max := LONG_MIN, LONG_MAX;
    match operator {
      case 0x41 => min, max := value, value;
      case 0x43 => min := Wrap(value + 1);
      case 0x44 => min := value;
      case 0x45 => max := Wrap(value - 1);
      case 0x46 => max := value;
      case _ => return DerivationError;
    }
    d[variableId] := Derivation(min, max, true);
    assert d[..] == Nothing()[variableId := Derivation(min, max, true)];
    return IsTrue;
  }

  // ---------------------------------------------------------------- what the intervals promise

  // The values of the variables are longs.
  ghost predicate Valuation(vals: seq<int>) {
    |vals| == VARIABLE_LIMIT && forall v | v in vals :: IsLong(v)
  }

  predicate Inside(d: Derivation, v: int) { d.derived ==> d.min <= v <= d.max }

  ghost predicate Within(r: Ranges, vals: seq<int>)
    requires |r| == MAX_VARIABLE_ID && |vals| == VARIABLE_LIMIT
  {
    forall i | 0 <= i < VARIABLE_LIMIT :: Inside(r[i], vals[i])
  }

  // No valuation that satisfies the predicate lies outside its intervals.
  ghost predicate Sound(p: Logic)
    requires Derive(p).Some?
  {
    forall vals | Valuation(vals) && LogicTruth(p, vals) :: Within(Derive(p).value, vals)
  }

  // The valuations inside the intervals are those that satisfy the predicate.
  ghost predicate Exact(p: Logic)
    requires Derive(p).Some?
  {
    forall vals | Valuation(vals) :: LogicTruth(p, vals) <==> Within(Derive(p).value, vals)
  }

  predicate SameVariables(x: Ranges, y: Ranges)
    requires |x| == |y| == MAX_VARIABLE_ID
  {
    forall i | 0 <= i < MAX_VARIABLE_ID :: x[i].derived == y[i].derived
  }

  // A comparison of a variable with a number, the variable on the left or the relation an equality
  predicate OrientedCmp(rel: Relation, a: Arith, b: Arith) {
    && a.Leaf? && b.Leaf? && OperandFits(a.o) && OperandFits(b.o)
    && ((a.o.Variable? && b.o.Long?) || (rel.Eq? && a.o.Long? && b.o.Variable?))
  }

  // Every comparison is oriented, and both branches of every OR constrain the same variables.
  predicate Oriented(p: Logic) {
    match p
    case Cmp(rel, a, b) => OrientedCmp(rel, a, b)
    case Both(x, y) => Oriented(x) && Oriented(y)
    case Either(x, y) =>
      && Oriented(x) && Oriented(y)
      && (Derive(x).Some? && Derive(y).Some? ==> SameVariables(Derive(x).value, Derive(y).value))
    case Neg(_) => false
  }

  lemma ZipMeet(x: Ranges, y: Ranges, vals: seq<int>)
    requires |x| == |y| == MAX_VARIABLE_ID && |vals| == VARIABLE_LIMIT
    ensures Within(Zip(Meet, x, y), vals) <==> Within(x, vals) && Within(y, vals)
  {
    var z := Zip(Meet, x, y);
    assert forall i | 0 <= i < VARIABLE_LIMIT :: z[i] == Meet(x[i], y[i]);
    if Within(z, vals) {
      forall i | 0 <= i < VARIABLE_LIMIT
        ensures Inside(x[i], vals[i]) && Inside(y[i], vals[i])
      {
        assert Inside(z[i], vals[i]);
      }
    }
  }

  lemma ZipJoin(x: Ranges, y: Ranges, vals: seq<int>)
    requires |x| == |y| == MAX_VARIABLE_ID && |vals| == VARIABLE_LIMIT && SameVariables(x, y)
    ensures Within(x, vals) || Within(y, vals) ==> Within(Zip(Join, x, y), vals)
  {
    var z := Zip(Join, x, y);
    assert forall i | 0 <= i < VARIABLE_LIMIT :: z[i] == Join(x[i], y[i]);
  }

  lemma CmpWithin(rel: Relation, a: Operand, b: Operand, vals: seq<int>)
    requires DeriveCmp(rel, a, b).Some? && |vals| == VARIABLE_LIMIT
    ensures var (i, v) := Subject(a, b).value;
      Within(DeriveCmp(rel, a, b).value, vals) <==> (i < VARIABLE_LIMIT ==> Inside(Interval(rel, v).value, vals[i]))
  {
  }

  // A relation to a number, and the interval derived for it
  lemma IntervalMeans(rel: Relation, v: int, x: int)
    requires IsLong(v) && IsLong(x) && Interval(rel, v).Some?
    ensures Compare(rel, x, v) ==> Inside(Interval(rel, v).value, x)
    ensures !Wraps(rel, v) ==> (Compare(rel, x, v) <==> Inside(Interval(rel, v).value, x))
    ensures Wraps(rel, v) ==> !Compare(rel, x, v) && Inside(Interval(rel, v).value, x)
  {
  }

  // No long satisfies the comparison, and the bound derived for it wraps around.
  predicate Wraps(rel: Relation, v: int) {
    (rel.Gt? && v == LONG_MAX) || (rel.Lt? && v == LONG_MIN)
  }

  /** Soundness: a valuation that satisfies an oriented predicate lies in all intervals derived for it. */
  lemma {:induction false} DerivationSound(p: Logic, vals: seq<int>)
    requires Oriented(p) && Derive(p).Some? && Valuation(vals) && LogicTruth(p, vals)
    ensures Within(Derive(p).value, vals)
  {
    match p
    case Cmp(rel, a, b) =>
      CmpWithin(rel, a.o, b.o, vals);
      var (i, v) := Subject(a.o, b.o).value;
      IntervalMeans(rel, v, vals[i]);
    case Both(x, y) =>
      DerivationSound(x, vals);
      DerivationSound(y, vals);
      ZipMeet(Derive(x).value, Derive(y).value, vals);
    case Either(x, y) =>
      if LogicTruth(x, vals) {
        DerivationSound(x, vals);
      } else {
        DerivationSound(y, vals);
      }
      ZipJoin(Derive(x).value, Derive(y).value, vals);
    case Neg(_) => assert false;
  }

  // Oriented comparisons joined by AND alone
  predicate Conjunction(p: Logic) {
    match p
    case Cmp(rel, a, b) => OrientedCmp(rel, a, b)
    case Both(x, y) => Conjunction(x) && Conjunction(y)
    case Either(_, _) => false
    case Neg(_) => false
  }

  predicate SomeWraps(p: Logic)
    requires Conjunction(p)
  {
    match p
    case Cmp(rel, a, b) => Wraps(rel, if a.o.Long? then a.o.value else b.o.value)
    case Both(x, y) => SomeWraps(x) || SomeWraps(y)
  }

  // What a conjunction means next to its intervals
  lemma {:induction false} ConjunctionMeans(p: Logic, vals: seq<int>)
    requires Conjunction(p) && Derive(p).Some? && Valuation(vals)
    ensures LogicTruth(p, vals) <==> !SomeWraps(p) && Within(Derive(p).value, vals)
  {
    match p
    case Cmp(rel, a, b) =>
      CmpWithin(rel, a.o, b.o, vals);
      var (i, v) := Subject(a.o, b.o).value;
      IntervalMeans(rel, v, vals[i]);
    case Both(x, y) =>
      ConjunctionMeans(x, vals);
      ConjunctionMeans(y, vals);
      ZipMeet(Derive(x).value, Derive(y).value, vals);
  }

  predicate Empty(d: Derivation) { d.derived && d.min > d.max }

  // The bounds of derived intervals are longs.
  predicate LongBounds(d: Derivation) { IsLong(d.min) && IsLong(d.max) }

  lemma {:induction false} DerivedBounds(p: Logic)
    requires Conjunction(p) && Derive(p).Some?
    ensures forall d | d in Derive(p).value :: LongBounds(d)
  {
    match p
    case Cmp(rel, a, b) =>
    case Both(x, y) =>
      DerivedBounds(x);
      DerivedBounds(y);
      forall d | d in Derive(p).value
        ensures LongBounds(d)
      {
        var i :| 0 <= i < MAX_VARIABLE_ID && Derive(p).value[i] == d;
        assert d == Meet(Derive(x).value[i], Derive(y).value[i]);
        assert Derive(x).value[i] in Derive(x).value && Derive(y).value[i] in Derive(y).value;
      }
  }

  // Intervals none of which is empty contain a valuation.
  lemma Inhabited(r: Ranges) returns (vals: seq<int>)
    requires |r| == MAX_VARIABLE_ID
    requires forall d | d in r :: LongBounds(d)
    requires forall i | 0 <= i < VARIABLE_LIMIT :: !Empty(r[i])
    ensures Valuation(vals) && Within(r, vals)
  {
    vals := seq(VARIABLE_LIMIT, i requires 0 <= i < VARIABLE_LIMIT => r[i].min);
    forall v | v in vals
      ensures IsLong(v)
    {
      var i :| 0 <= i < VARIABLE_LIMIT && vals[i] == v;
      assert LongBounds(r[i]);
    }
  }

  /**
   Exactness: for a conjunction the intervals describe precisely the satisfying valuations, if and
   only if no bound wrapped around or the intervals are contradictory anyway.
   */
  lemma ConjunctionExactIff(p: Logic)
    requires Conjunction(p) && Derive(p).Some?
    ensures Exact(p) <==>
      !SomeWraps(p) || exists i | 0 <= i < VARIABLE_LIMIT :: Empty(Derive(p).value[i])
  {
    var r := Derive(p).value;
    forall vals | Valuation(vals)
      ensures LogicTruth(p, vals) <==> !SomeWraps(p) && Within(r, vals)
    {
      ConjunctionMeans(p, vals);
    }
    if SomeWraps(p) {
      if i :| 0 <= i < VARIABLE_LIMIT && Empty(r[i]) {
        assert forall vals | Valuation(vals) :: !Inside(r[i], vals[i]);
      } else {
        DerivedBounds(p);
        var vals := Inhabited(r);
        assert !LogicTruth(p, vals);
      }
    }
  }

  // ---------------------------------------------------------------- where the intervals mislead

  function Valued(i: nat, x: int): (vals: seq<int>)
    requires i < VARIABLE_LIMIT && IsLong(x)
    ensures Valuation(vals) && vals[i] == x
  {
    seq(VARIABLE_LIMIT, k => if k == i then x else 0)
  }

  predicate Full(d: Derivation) { d.derived && d.min == LONG_MIN && d.max == LONG_MAX }

  // When the interval of a single comparison is right although the constant is on the left
  predicate HarmlesslyReversed(rel: Relation, v: int) {
    match rel
    case Eq => true
    case Neq => true
    case Gt => v == LONG_MIN || v == LONG_MAX
    case Lt => v == LONG_MIN || v == LONG_MAX
    case Geq => v == LONG_MIN
    case Leq => v == LONG_MAX
  }

  predicate SoundComparison(rel: Relation, a: Operand, b: Operand)
    requires DeriveCmp(rel, a, b).Some?
  {
    var (i, v) := Subject(a, b).value;
    a.Variable? || i >= VARIABLE_LIMIT ||
    if b.Variable? then HarmlesslyReversed(rel, v)
    else !Compare(rel, v, b.value) || Full(Interval(rel, v).value)
  }

  /**
   The operator is not turned round when the constant is on the left: this says exactly which
   single comparisons still get an interval that covers all their solutions.
   */
  lemma ComparisonSoundIff(rel: Relation, a: Operand, b: Operand)
    requires OperandFits(a) && OperandFits(b) && DeriveCmp(rel, a, b).Some?
    ensures Sound(Cmp(rel, Leaf(a), Leaf(b))) <==> SoundComparison(rel, a, b)
  {
    var p := Cmp(rel, Leaf(a), Leaf(b));
    var (i, v) := Subject(a, b).value;
    forall vals | Valuation(vals)
      ensures Within(Derive(p).value, vals) <==> (i < VARIABLE_LIMIT ==> Inside(Interval(rel, v).value, vals[i]))
    {
      CmpWithin(rel, a, b, vals);
    }
    if SoundComparison(rel, a, b) {
      forall vals | Valuation(vals) && LogicTruth(p, vals) && i < VARIABLE_LIMIT
        ensures Inside(Interval(rel, v).value, vals[i])
      {
        assert vals[i] in vals;
        assert Compare(rel, OperandValue(a, vals), OperandValue(b, vals));
        if a.Variable? {
          IntervalMeans(rel, v, vals[i]);
        }
      }
    } else {
      var x := Outsider(rel, a, b);
      var vals := Valued(i, x);
      assert LogicTruth(p, vals) && !Inside(Interval(rel, v).value, vals[i]);
    }
  }

  // A value of the variable that satisfies the comparison and lies outside the interval
  function Outsider(rel: Relation, a: Operand, b: Operand): (x: int)
    requires OperandFits(a) && OperandFits(b) && DeriveCmp(rel, a, b).Some? && !SoundComparison(rel, a, b)
    ensures IsLong(x) && !Inside(Interval(rel, Subject(a, b).value.1).value, x)
    ensures b.Variable? ==> Compare(rel, a.value, x)
  {
    var v := Subject(a, b).value.1;
    match rel
    case Gt => if b.Variable? then v - 1 else LONG_MIN
    case Geq => LONG_MIN
    case Lt => if b.Variable? then v + 1 else LONG_MAX
    case Leq => LONG_MAX
    case Eq => if v == LONG_MAX then LONG_MIN else LONG_MAX
    case Neq => 0
  }

  // A comparison of variable `i` with `v`
  function About(rel: Relation, i: nat, v: int): Logic { Cmp(rel, Leaf(Variable(i)), Leaf(Long(v))) }

  predicate Satisfiable(rel: Relation, v: int) { !Wraps(rel, v) }

  // A solution of a satisfiable comparison
  function Solution(rel: Relation, v: int): (x: int)
    requires IsLong(v) && !rel.Neq? && Satisfiable(rel, v)
    ensures IsLong(x) && Compare(rel, x, v)
  {
    match rel
    case Gt => v + 1
    case Lt => v - 1
    case Eq => v
    case Geq => v
    case Leq => v
    case Neq => v
  }

  // A long outside an interval that is not full
  function Outside(rel: Relation, v: int): (x: int)
    requires IsLong(v) && !rel.Neq? && !Full(Interval(rel, v).value)
    ensures IsLong(x) && !Inside(Interval(rel, v).value, x)
  {
    var d := Interval(rel, v).value;
    if d.min > LONG_MIN then LONG_MIN else LONG_MAX
  }

  // The two intervals of an OR of comparisons on different variables
  lemma EitherWithin(relX: Relation, i: nat, v: int, relY: Relation, j: nat, w: int)
    requires i != j && i < VARIABLE_LIMIT && j < VARIABLE_LIMIT && !relX.Neq? && !relY.Neq?
    ensures var p := Either(About(relX, i, v), About(relY, j, w));
      Derive(p).Some? && forall vals | |vals| == VARIABLE_LIMIT ::
        Within(Derive(p).value, vals) <==>
        Inside(Interval(relX, v).value, vals[i]) && Inside(Interval(relY, w).value, vals[j])
  {
    var x, y := About(relX, i, v), About(relY, j, w);
    var p := Either(x, y);
    var dx, dy := Interval(relX, v).value, Interval(relY, w).value;
    assert Derive(x).value == Nothing()[i := dx] && Derive(y).value == Nothing()[j := dy];
    var r := Zip(Join, Nothing()[i := dx], Nothing()[j := dy]);
    assert Derive(p) == Some(r);
    JoinOfTwo(i, dx, j, dy, r);
    forall vals | |vals| == VARIABLE_LIMIT
      ensures Within(r, vals) <==> Inside(dx, vals[i]) && Inside(dy, vals[j])
    {
      WithinTwo(i, j, r, vals);
    }
  }

  lemma JoinOfTwo(i: nat, dx: Derivation, j: nat, dy: Derivation, r: seq<Derivation>)
    requires i != j && i < VARIABLE_LIMIT && j < VARIABLE_LIMIT && dx.derived && dy.derived
    requires r == Zip(Join, Nothing()[i := dx], Nothing()[j := dy])
    ensures r[i] == dx && r[j] == dy
    ensures forall k | 0 <= k < VARIABLE_LIMIT && k != i && k != j :: !r[k].derived
  {
    forall k | 0 <= k < VARIABLE_LIMIT
      ensures r[k] == if k == i then dx else if k == j then dy else UNDERIVED
    {
      JoinAt(Nothing()[i := dx], Nothing()[j := dy], k);
    }
  }

  lemma JoinAt(xs: Ranges, ys: Ranges, k: nat)
    requires |xs| == |ys| == MAX_VARIABLE_ID && k < MAX_VARIABLE_ID
    ensures Zip(Join, xs, ys)[k] == Join(xs[k], ys[k])
  {
  }

  lemma WithinTwo(i: nat, j: nat, r: seq<Derivation>, vals: seq<int>)
    requires i < VARIABLE_LIMIT && j < VARIABLE_LIMIT && |r| == MAX_VARIABLE_ID && |vals| == VARIABLE_LIMIT
    requires forall k | 0 <= k < VARIABLE_LIMIT && k != i && k != j :: !r[k].derived
    ensures Within(r, vals) <==> Inside(r[i], vals[i]) && Inside(r[j], vals[j])
  {
  }

  /**
   An OR keeps the interval of a variable that only one side constrains: for an OR of comparisons
   on two variables this is right exactly if each interval is full or the other side has no solution.
   */
  lemma EitherSoundIff(relX: Relation, i: nat, v: int, relY: Relation, j: nat, w: int)
    requires i != j && i < VARIABLE_LIMIT && j < VARIABLE_LIMIT && IsLong(v) && IsLong(w)
    requires !relX.Neq? && !relY.Neq?
    ensures var p := Either(About(relX, i, v), About(relY, j, w));
      Derive(p).Some? && (Sound(p) <==>
        (Full(Interval(relX, v).value) || !Satisfiable(relY, w)) &&
        (Full(Interval(relY, w).value) || !Satisfiable(relX, v)))
  {
    var x, y := About(relX, i, v), About(relY, j, w);
    var p := Either(x, y);
    EitherWithin(relX, i, v, relY, j, w);
    if !Full(Interval(relX, v).value) && Satisfiable(relY, w) {
      var vals := Valued(j, Solution(relY, w))[i := Outside(relX, v)];
      assert Valuation(vals) && LogicTruth(p, vals) && !Within(Derive(p).value, vals);
    } else if !Full(Interval(relY, w).value) && Satisfiable(relX, v) {
      var vals := Valued(i, Solution(relX, v))[j := Outside(relY, w)];
      assert Valuation(vals) && LogicTruth(p, vals) && !Within(Derive(p).value, vals);
    } else {
      forall vals | Valuation(vals) && LogicTruth(p, vals)
        ensures Within(Derive(p).value, vals)
      {
        assert vals[i] in vals && vals[j] in vals;
        IntervalMeans(relX, v, vals[i]);
        IntervalMeans(relY, w, vals[j]);
        assert LogicTruth(x, vals) == Compare(relX, vals[i], v) && LogicTruth(y, vals) == Compare(relY, vals[j], w);
        assert Inside(Interval(relX, v).value, vals[i]) && Inside(Interval(relY, w).value, vals[j]);
      }
    }
  }
}
