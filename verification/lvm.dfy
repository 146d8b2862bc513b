/**
 The logic engine of the Antelope database (apps/antelope/lvm.c): predicates as bytecode
 in prefix notation, the operations that write bytecode into one byte array, and the
 recursive evaluator that runs it.

 Sizes are those of the 16-bit target of the repository: two bytes for an enumeration,
 four for a long, little-endian, hence six for an operand.  Arithmetic of the evaluator is
 unbounded; division truncates towards zero as in C.
 */
module Lvm {
  import opened Bytes

  const LVM_ARITH_OP := 0x10
  const LVM_OPERAND := 0x20
  const LVM_CMP_OP := 0x40
  // LVM_MAX_VARIABLE_ID - 1, the number of entries of the variable table
  const VARIABLE_LIMIT := 7

  datatype Status = IsFalse | IsTrue | SemanticError | MathError | ExecutionError | DerivationError {
    // LVM_ERROR
    predicate IsError() { !IsFalse? && !IsTrue? }
  }

  datatype ArithOp = Add | Sub | Mul | Div
  datatype Relation = Eq | Neq | Gt | Geq | Lt | Leq
  datatype Connective = And | Or | Not

  datatype Operand = Variable(id: nat) | Long(value: int)

  // The programs of the machine
  datatype Arith = Leaf(o: Operand) | Bin(op: ArithOp, l: Arith, r: Arith)
  datatype Logic =
    | Cmp(rel: Relation, a: Arith, b: Arith)
    | Both(x: Logic, y: Logic)
    | Either(x: Logic, y: Logic)
    | Neg(x: Logic)

  // ---------------------------------------------------------------- encoding

  function ArithCode(op: ArithOp): byte {
    match op
    case Add => 0x11
    case Sub => 0x12
    case Mul => 0x13
    case Div => 0x14
  }

  function RelationCode(rel: Relation): byte {
    match rel
    case Eq => 0x41
    case Neq => 0x42
    case Gt => 0x43
    case Geq => 0x44
    case Lt => 0x45
    case Leq => 0x46
  }

  function ConnectiveCode(c: Connective): byte {
    match c
    case And => 0x81
    case Or => 0x82
    case Not => 0x83
  }

  // A two-byte enumeration in memory
  function Enum(code: byte): seq<byte> { [code, 0] }

  // IS_CONNECTIVE
  predicate IsConnective(code: nat) { code / 0x80 % 2 == 1 }

  predicate IsLong(v: int) { -0x8000_0000 <= v < 0x8000_0000 }

  function LongBytes(v: int): (bytes: seq<byte>)
    ensures |bytes| == 4
  {
    var u0 := v % 0x1_0000_0000;
    var u1 := u0 / 256;
    var u2 := u1 / 256;
    [u0 % 256, u1 % 256, u2 % 256, u2 / 256]
  }

  function BytesLong(bytes: seq<byte>): int
    requires |bytes| == 4
  {
    var u: int := ((bytes[3] as int * 256 + bytes[2]) * 256 + bytes[1]) * 256 + bytes[0];
    if u < 0x8000_0000 then u else u - 0x1_0000_0000
  }

  lemma LongRoundTrip(v: int)
    requires IsLong(v)
    ensures BytesLong(LongBytes(v)) == v
  {
  }

  function OperandBytes(o: Operand): (bytes: seq<byte>)
    ensures |bytes| == 6
  {
    match o
    case Variable(id) => Enum(0) + [id % 256, 0, 0, 0]
    case Long(v) => Enum(2) + LongBytes(v)
  }

  function ArithBytes(a: Arith): seq<byte> {
    match a
    case Leaf(o) => Enum(LVM_OPERAND) + OperandBytes(o)
    case Bin(op, l, r) => Enum(LVM_ARITH_OP) + Enum(ArithCode(op)) + (ArithBytes(l) + ArithBytes(r))
  }

  // The operator of a predicate, and the bytes of its arguments
  function LogicCode(p: Logic): byte {
    match p
    case Cmp(rel, _, _) => RelationCode(rel)
    case Both(_, _) => ConnectiveCode(And)
    case Either(_, _) => ConnectiveCode(Or)
    case Neg(_) => ConnectiveCode(Not)
  }

  function LogicArgs(p: Logic): seq<byte>
    decreases p, 0
  {
    match p
    case Cmp(_, a, b) => ArithBytes(a) + ArithBytes(b)
    case Both(x, y) => LogicBytes(x) + LogicBytes(y)
    case Either(x, y) => LogicBytes(x) + LogicBytes(y)
    case Neg(x) => LogicBytes(x)
  }

  function LogicBytes(p: Logic): seq<byte>
    decreases p, 1
  {
    Enum(LVM_CMP_OP) + Enum(LogicCode(p)) + LogicArgs(p)
  }

  // ---------------------------------------------------------------- meaning

  // C division
  function TruncDiv(a: int, b: int): int
    requires b != 0
  {
    if a >= 0 then a / b else -((-a) / b)
  }

  predicate OperandFits(o: Operand) {
    match o
    case Variable(id) => id < VARIABLE_LIMIT
    case Long(v) => IsLong(v)
  }

  predicate ArithFits(a: Arith) {
    match a
    case Leaf(o) => OperandFits(o)
    case Bin(_, l, r) => ArithFits(l) && ArithFits(r)
  }

  predicate LogicFits(p: Logic) {
    match p
    case Cmp(_, a, b) => ArithFits(a) && ArithFits(b)
    case Both(x, y) => LogicFits(x) && LogicFits(y)
    case Either(x, y) => LogicFits(x) && LogicFits(y)
    case Neg(x) => LogicFits(x)
  }

  function OperandValue(o: Operand, vals: seq<int>): int {
    match o
    case Variable(id) => if id < |vals| then vals[id] else 0
    case Long(v) => v
  }

  function Apply(op: ArithOp, x: int, y: int): int {
    match op
    case Add => x + y
    case Sub => x - y
    case Mul => x * y
    case Div => if y == 0 then 0 else TruncDiv(x, y)
  }

  // The value of an expression; a division by zero counts as 0 here and is excluded by ArithSafe.
  function ArithValue(a: Arith, vals: seq<int>): int {
    match a
    case Leaf(o) => OperandValue(o, vals)
    case Bin(op, l, r) => Apply(op, ArithValue(l, vals), ArithValue(r, vals))
  }

  // No division has a zero divisor.
  predicate ArithSafe(a: Arith, vals: seq<int>) {
    match a
    case Leaf(_) => true
    case Bin(op, l, r) => ArithSafe(l, vals) && ArithSafe(r, vals) && (op == Div ==> ArithValue(r, vals) != 0)
  }

  predicate Compare(rel: Relation, x: int, y: int) {
    match rel
    case Eq => x == y
    case Neq => x != y
    case Gt => x > y
    case Geq => x >= y
    case Lt => x < y
    case Leq => x <= y
  }

  predicate LogicTruth(p: Logic, vals: seq<int>) {
    match p
    case Cmp(rel, a, b) => Compare(rel, ArithValue(a, vals), ArithValue(b, vals))
    case Both(x, y) => LogicTruth(x, vals) && LogicTruth(y, vals)
    case Either(x, y) => LogicTruth(x, vals) || LogicTruth(y, vals)
    case Neg(x) => !LogicTruth(x, vals)
  }

  predicate LogicSafe(p: Logic, vals: seq<int>) {
    match p
    case Cmp(_, a, b) => ArithSafe(a, vals) && ArithSafe(b, vals)
    case Both(x, y) => LogicSafe(x, vals) && LogicSafe(y, vals)
    case Either(x, y) => LogicSafe(x, vals) && LogicSafe(y, vals)
    case Neg(x) => LogicSafe(x, vals)
  }

  // What running the whole predicate reports
  function Verdict(p: Logic, vals: seq<int>): Status {
    if !LogicSafe(p, vals) then MathError else if LogicTruth(p, vals) then IsTrue else IsFalse
  }

  // ---------------------------------------------------------------- bytes at a position

  // Two enumerations and what follows them
  lemma HeadParts(code: seq<byte>, ip: int, x: byte, y: byte, rest: seq<byte>)
    requires At(code, ip, Enum(x) + Enum(y) + rest)
    ensures ip + 4 + |rest| <= |code| && At(code, ip + 4, rest)
    ensures code[ip] == x && code[ip + 1] == 0 && code[ip + 2] == y && code[ip + 3] == 0
  {
    AtParts(code, ip, Enum(x) + Enum(y), rest);
    var head := code[ip..ip + 4];
    assert head == [x, 0, y, 0] && head[0] == code[ip] && head[1] == code[ip + 1];
    assert head[2] == code[ip + 2] && head[3] == code[ip + 3];
  }

  lemma LeafParts(code: seq<byte>, ip: int, o: Operand)
    requires At(code, ip, ArithBytes(Leaf(o)))
    ensures ip + 8 <= |code| && code[ip] == LVM_OPERAND && code[ip + 1] == 0 && At(code, ip + 2, OperandBytes(o))
  {
    AtParts(code, ip, Enum(LVM_OPERAND), OperandBytes(o));
    var head := code[ip..ip + 2];
    assert head == [LVM_OPERAND, 0] && head[0] == code[ip] && head[1] == code[ip + 1];
  }

  // The index of `name` in the variable table, or the table's size
  function IndexOf(names: seq<string>, name: string): (i: nat)
    ensures i <= |names|
    ensures i < |names| ==> names[i] == name
    ensures i == |names| <==> name !in names
  {
    if names == [] || names[0] == name then 0 else 1 + IndexOf(names[1..], name)
  }

  // ---------------------------------------------------------------- the machine

  /**
   One instance of the machine, with the table of registered variables, which the original
   keeps in static memory beside it.
   */
  class Machine {
    const code: array<byte>
    var end: nat
    var ip: nat
    var error: bool
    var names: seq<string>
    var values: seq<int>

    constructor (size: nat)
      ensures fresh(code) && code.Length == size
      ensures end == 0 && ip == 0 && !error && names == [] && values == seq(VARIABLE_LIMIT, _ => 0)
    {
      code := new byte[size](_ => 0);
      end, ip, error, names, values := 0, 0, false, [], seq(VARIABLE_LIMIT, _ => 0);
    }

    // -------------------------------------------------------------- writing code

    // lvm_jump_to_operand: leave room for an operator that is written later
    method JumpToOperand() returns (oldEnd: nat)
      modifies this`end, this`error
      ensures oldEnd == old(end)
      ensures if oldEnd + 4 >= code.Length then end == oldEnd && error else end == oldEnd + 4 && error == old(error)
    {
      oldEnd := end;
      end := end + 4;
      if end >= code.Length {
        error := true;
        end := oldEnd;
      }
    }

    // lvm_shift_for_operator: make room for an operator at `at`.  The original tests for two
    // bytes of room where it needs four.
    method ShiftForOperator(at: nat) returns (newEnd: nat)
      requires end + 4 <= code.Length
      modifies this`end, this`error, code
      ensures if at >= old(end) then
          newEnd == 0 && end == old(end) && error && code[..] == old(code[..])
        else
          newEnd == old(end) + 4 && end == at && error == old(error) &&
          code[..at] == old(code[..at]) && code[at + 4..newEnd] == old(code[at..end])
    {
      var oldEnd := end;
      if end + 2 > code.Length || at >= oldEnd {
        error := true;
        return 0;
      }
      forall i | 0 <= i < oldEnd - at {
        code[at + 4 + i] := code[at + i];
      }
      end := at;
      assert code[at + 4..oldEnd + 4] == old(code[at..end]);
      return oldEnd + 4;
    }

    // lvm_set_end
    method SetEnd(at: nat) returns (oldEnd: nat)
      modifies this`end, this`error
      ensures oldEnd == old(end)
      ensures if at >= code.Length then end == old(end) && error else end == at && error == old(error)
    {
      oldEnd := end;
      if at >= code.Length {
        error := true;
      } else {
        end := at;
      }
    }

    // memcpy of some bytes to the end of the code
    method Put(bytes: seq<byte>)
      requires end + |bytes| <= code.Length
      modifies this`end, code
      ensures end == old(end) + |bytes| && code[..end] == old(code[..end]) + bytes
      ensures code[end..] == old(code[end..])[|bytes|..]
    {
      forall i | 0 <= i < |bytes| {
        code[end + i] := bytes[i];
      }
      end := end + |bytes|;
    }

    // lvm_set_op
    method SetOp(op: ArithOp)
      requires end + 4 <= code.Length
      modifies this`end, code
      ensures end == old(end) + 4
      ensures code[..end] == old(code[..end]) + (Enum(LVM_ARITH_OP) + Enum(ArithCode(op)))
      ensures code[end..] == old(code[end..])[4..]
    {
      Put(Enum(LVM_ARITH_OP));
      Put(Enum(ArithCode(op)));
    }

    // lvm_set_relation, for relations and connectives alike
    method SetRelation(operator: byte)
      requires end + 4 <= code.Length
      modifies this`end, code
      ensures end == old(end) + 4
      ensures code[..end] == old(code[..end]) + (Enum(LVM_CMP_OP) + Enum(operator))
      ensures code[end..] == old(code[end..])[4..]
    {
      Put(Enum(LVM_CMP_OP));
      Put(Enum(operator));
    }

    // lvm_set_operand
    method SetOperand(o: Operand)
      requires end + 8 <= code.Length
      modifies this`end, code
      ensures end == old(end) + 8
      ensures code[..end] == old(code[..end]) + ArithBytes(Leaf(o))
    {
      Put(Enum(LVM_OPERAND));
      Put(OperandBytes(o));
    }

    // lookup
    method Lookup(name: string) returns (i: nat)
      ensures i == IndexOf(names, name)
    {
      i := 0;
      while i < |names|
        invariant i <= |names|
        invariant IndexOf(names, name) == i + IndexOf(names[i..], name)
      {
        if names[i] == name {
          break;
        }
        assert names[i..][1..] == names[i + 1..];
        i := i + 1;
      }
    }

    // lvm_register_variable; the bound of the table is left to the caller.
    method RegisterVariable(name: string)
      modifies this`names
      ensures names == if name in old(names) then old(names) else old(names) + [name]
    {
      var id := Lookup(name);
      if id == |names| {
        names := names + [name];
      }
    }

    // lvm_set_variable
    method SetVariable(name: string)
      requires end + 8 <= code.Length
      modifies this`end, code
      ensures end == old(end) + 8
      ensures code[..end] == old(code[..end]) + ArithBytes(Leaf(Variable(IndexOf(names, name))))
    {
      var id := Lookup(name);
      SetOperand(Variable(id));
    }

    // lvm_set_variable_value, for registered names
    method SetVariableValue(name: string, value: int) returns (known: bool)
      requires |names| <= |values|
      modifies this`values
      ensures known <==> name in names
      ensures values == if known then old(values)[IndexOf(names, name) := value] else old(values)
    {
      var id := Lookup(name);
      known := id < |names|;
      if known {
        values := values[id := value];
      }
    }

    // -------------------------------------------------------------- running code

    // get_type and get_operator
    method GetEnum() returns (e: nat)
      requires ip + 2 <= code.Length
      modifies this`ip
      ensures ip == old(ip) + 2 && e == code[old(ip)] + 256 * code[old(ip) + 1] as int
    {
      e := code[ip] + 256 * code[ip + 1] as int;
      ip := ip + 2;
    }

    // get_operand
    method GetOperand(ghost o: Operand) returns (operand: Operand)
      requires At(code[..], ip, OperandBytes(o)) && OperandFits(o)
      modifies this`ip
      ensures ip == old(ip) + 6 && operand == o
    {
      ghost var bytes := OperandBytes(o);
      assert code[ip] == bytes[0] && code[ip + 1] == bytes[1];
      var type_ := code[ip] + 256 * code[ip + 1] as int;
      var stored := code[ip + 2..ip + 6];
      assert stored == bytes[2..];
      if type_ == 2 {
        operand := Long(BytesLong(stored));
        assert stored == LongBytes(o.value);
        LongRoundTrip(o.value);
      } else {
        operand := Variable(stored[0]);
      }
      ip := ip + 6;
    }

    // get_operand followed by operand_to_long
    method GetOperandValue(ghost o: Operand) returns (value: int)
      requires At(code[..], ip, OperandBytes(o)) && OperandFits(o) && |values| == VARIABLE_LIMIT
      modifies this`ip
      ensures ip == old(ip) + 6 && value == OperandValue(o, values)
    {
      var operand := GetOperand(o);
      match operand {
        case Long(v) => value := v;
        case Variable(id) => value := values[id];
      }
    }

    // One argument of an arithmetic operator or a relation: a nested operator or an operand
    method NextValue(ghost a: Arith) returns (status: Status, value: int)
      requires At(code[..], ip, ArithBytes(a)) && ArithFits(a) && |values| == VARIABLE_LIMIT
      modifies this`ip
      ensures status == if ArithSafe(a, values) then IsTrue else MathError
      ensures !status.IsError() ==> value == ArithValue(a, values) && ip == old(ip) + |ArithBytes(a)|
      decreases a, 1
    {
      if a.Leaf? {
        LeafParts(code[..], ip, a.o);
      } else {
        HeadParts(code[..], ip, LVM_ARITH_OP, ArithCode(a.op), ArithBytes(a.l) + ArithBytes(a.r));
      }
      assert code[ip] == (if a.Leaf? then LVM_OPERAND else LVM_ARITH_OP) && code[ip + 1] == 0;
      var type_ := GetEnum();
      assert type_ == if a.Leaf? then LVM_OPERAND else LVM_ARITH_OP;
      if type_ == LVM_ARITH_OP {
        var operator := GetEnum();
        status, value := EvalExpr(operator, a);
      } else if type_ == LVM_OPERAND {
        value := GetOperandValue(a.o);
        status := IsTrue;
      } else {
        status, value := SemanticError, 0;
        assert false;
      }
    }

    // eval_expr
    method EvalExpr(operator: nat, ghost a: Arith) returns (status: Status, value: int)
      requires a.Bin? && operator == ArithCode(a.op) && ArithFits(a) && |values| == VARIABLE_LIMIT
      requires At(code[..], ip, ArithBytes(a.l) + ArithBytes(a.r))
      modifies this`ip
      ensures status == if ArithSafe(a, values) then IsTrue else MathError
      ensures !status.IsError() ==>
        value == ArithValue(a, values) && ip == old(ip) + |ArithBytes(a.l)| + |ArithBytes(a.r)|
      decreases a, 0
    {
      AtParts(code[..], ip, ArithBytes(a.l), ArithBytes(a.r));
      var x, y;
      status, x := NextValue(a.l);
      if status.IsError() {
        return status, 0;
      }
      status, y := NextValue(a.r);
      if status.IsError() {
        return status, 0;
      }
      status, value := Calculate(operator, x, y, a.op);
    }

    // The final switch of eval_expr
    method Calculate(operator: nat, x: int, y: int, ghost op: ArithOp) returns (status: Status, value: int)
      requires operator == ArithCode(op)
      ensures status == if op == Div && y == 0 then MathError else IsTrue
      ensures !status.IsError() ==> value == Apply(op, x, y)
    {
      status := IsTrue;
      match operator {
        case 0x11 => value := x + y;
        case 0x12 => value := x - y;
        case 0x13 => value := x * y;
        case 0x14 =>
          if y == 0 {
            return MathError, 0;
          }
          value := TruncDiv(x, y);
        case _ => return ExecutionError, 0;
      }
    }

    // One argument of a connective
    method NextLogic(ghost p: Logic) returns (status: Status)
      requires At(code[..], ip, LogicBytes(p)) && LogicFits(p) && |values| == VARIABLE_LIMIT
      modifies this`ip
      ensures status == Verdict(p, values)
      ensures !status.IsError() ==> ip == old(ip) + |LogicBytes(p)|
      decreases p, 2
    {
      HeadParts(code[..], ip, LVM_CMP_OP, LogicCode(p), LogicArgs(p));
      var type_ := GetEnum();
      if type_ != LVM_CMP_OP {
        return SemanticError;
      }
      var operator := GetEnum();
      status := EvalLogic(operator, p);
    }

    // eval_logic
    method EvalLogic(operator: nat, ghost p: Logic) returns (status: Status)
      requires operator == LogicCode(p) && LogicFits(p) && |values| == VARIABLE_LIMIT
      requires At(code[..], ip, LogicArgs(p))
      modifies this`ip
      ensures status == Verdict(p, values)
      ensures !status.IsError() ==> ip == old(ip) + |LogicArgs(p)|
      decreases p, 1
    {
      if IsConnective(operator) {
        status := EvalConnective(operator, p);
      } else {
        status := EvalComparison(operator, p);
      }
    }

    // The part of eval_logic for relations
    method EvalComparison(operator: nat, ghost p: Logic) returns (status: Status)
      requires p.Cmp? && operator == RelationCode(p.rel) && LogicFits(p) && |values| == VARIABLE_LIMIT
      requires At(code[..], ip, ArithBytes(p.a) + ArithBytes(p.b))
      modifies this`ip
      ensures status == Verdict(p, values)
      ensures !status.IsError() ==> ip == old(ip) + |ArithBytes(p.a)| + |ArithBytes(p.b)|
      decreases p, 0
    {
      AtParts(code[..], ip, ArithBytes(p.a), ArithBytes(p.b));
      var x, y;
      status, x := NextValue(p.a);
      if status.IsError() {
        return;
      }
      status, y := NextValue(p.b);
      if status.IsError() {
        return;
      }
      status := CompareValues(operator, x, y, p.rel);
    }

    // The final switch of eval_logic
    method CompareValues(operator: nat, x: int, y: int, ghost rel: Relation) returns (status: Status)
      requires operator == RelationCode(rel)
      ensures status == if Compare(rel, x, y) then IsTrue else IsFalse
    {
      match operator {
        case 0x41 => status := if x == y then IsTrue else IsFalse;
        case 0x42 => status := if x != y then IsTrue else IsFalse;
        case 0x43 => status := if x > y then IsTrue else IsFalse;
        case 0x44 => status := if x >= y then IsTrue else IsFalse;
        case 0x45 => status := if x < y then IsTrue else IsFalse;
        case 0x46 => status := if x <= y then IsTrue else IsFalse;
        case _ => status := ExecutionError;
      }
    }

    // The part of eval_logic for connectives: all arguments are evaluated before they are combined.
    method EvalConnective(operator: nat, ghost p: Logic) returns (status: Status)
      requires operator == LogicCode(p) && !p.Cmp? && LogicFits(p) && |values| == VARIABLE_LIMIT
      requires At(code[..], ip, LogicArgs(p))
      modifies this`ip
      ensures status == Verdict(p, values)
      ensures !status.IsError() ==> ip == old(ip) + |LogicArgs(p)|
      decreases p, 0
    {
      if !p.Neg? {
        AtParts(code[..], ip, LogicBytes(p.x), LogicBytes(p.y));
      }
      var first := NextLogic(p.x);
      if first.IsError() {
        return first;
      }
      if operator == ConnectiveCode(Not) {
        return if first == IsTrue then IsFalse else IsTrue;
      }
      var second := NextLogic(p.y);
      if second.IsError() {
        return second;
      }
      if operator == ConnectiveCode(And) {
        return if first == IsTrue && second == IsTrue then IsTrue else IsFalse;
      } else {
        return if first == IsTrue || second == IsTrue then IsTrue else IsFalse;
      }
    }

    /** lvm_execute: running the bytes of a predicate reports its verdict and reads exactly those bytes. */
    method Execute(ghost p: Logic) returns (status: Status)
      requires At(code[..], 0, LogicBytes(p)) && LogicFits(p) && |values| == VARIABLE_LIMIT
      modifies this`ip
      ensures status == Verdict(p, values)
      ensures !status.IsError() ==> ip == |LogicBytes(p)|
    {
      ip := 0;
      status := ExecutionError;
      HeadParts(code[..], ip, LVM_CMP_OP, LogicCode(p), LogicArgs(p));
      var type_ := GetEnum();
      if type_ == LVM_CMP_OP {
        var operator := GetEnum();
        status := EvalLogic(operator, p);
      }
    }
  }
}
