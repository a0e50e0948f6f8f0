/**
  The logic virtual machine of Antelope (apps/antelope/lvm.c).

  A WHERE clause is kept as prefix code in a byte buffer.  This module models
  the buffer at byte granularity: an object stored in it (a node type, an
  operator, an operand) occupies as many cells as it has bytes, the first cell
  naming the object and the others being its tail.  Sizes are those of a 32-bit
  target: enumerations and `long` take four bytes, an operand takes eight.

  The specification part below gives the code of a syntax tree (`Encode`), the
  meaning of a syntax tree (`Value`, `Truth`) and what the machine does on an
  arbitrary buffer (`RunExpr`, `RunLogic`).  `RunArgMeaning` and
  `RunClauseMeaning` connect them.
 */
module Lvm {
  import opened Segments

  const LONG_MAX: int := 0x7FFF_FFFF
  const LONG_MIN: int := -0x8000_0000

  type long = x: int | LONG_MIN <= x <= LONG_MAX

  /** Two's complement wrap-around of a result that does not fit a long. */
  function Wrap(x: int): long {
    (x - LONG_MIN) % 0x1_0000_0000 + LONG_MIN
  }

  /** C division truncates towards zero. */
  function Quotient(a: int, b: int): int
    requires b != 0
  {
    var q := (if a < 0 then -a else a) / (if b < 0 then -b else b);
    if (a < 0) != (b < 0) then -q else q
  }

  datatype Status = FALSE | TRUE | SEMANTIC_ERROR | MATH_ERROR | EXECUTION_ERROR | DERIVATION_ERROR {
    predicate IsError() { !FALSE? && !TRUE? }
  }

  datatype NodeType = ARITH_OP | OPERAND | CMP_OP | NO_TYPE

  datatype Operator =
    | ADD | SUB | MUL | DIV
    | EQ | NEQ | GE | GEQ | LE | LEQ   // in the source GE is ">" and LE is "<"
    | AND | OR | NOT
    | NO_OP
  {
    predicate IsArith() { ADD? || SUB? || MUL? || DIV? }
    predicate IsRelation() { EQ? || NEQ? || GE? || GEQ? || LE? || LEQ? }
    predicate IsConnective() { AND? || OR? || NOT? }
  }

  datatype Operand = Variable(id: nat) | Long(l: long) | NoOperand

  /** One byte of the code buffer. */
  datatype Cell = Zero | TypeHead(t: NodeType) | OpHead(o: Operator) | OperandHead(x: Operand) | Tail

  const SIZEOF_NODE_TYPE: nat := 4
  const SIZEOF_OPERATOR: nat := 4
  const SIZEOF_OPERAND: nat := 8

  /** The number of variables that the scans over the tables go through: AQL_ATTRIBUTE_LIMIT - 1. */
  const LVM_MAX_VARIABLE_ID: nat := 4

  /** The number of entries that the tables are declared with: the last slot lies behind them. */
  const DECLARED_VARIABLES: nat := 3

  function TypeBytes(t: NodeType): (s: seq<Cell>)
    ensures |s| == SIZEOF_NODE_TYPE
  {
    [TypeHead(t), Tail, Tail, Tail]
  }

  function OperatorBytes(o: Operator): (s: seq<Cell>)
    ensures |s| == SIZEOF_OPERATOR
  {
    [OpHead(o), Tail, Tail, Tail]
  }

  function OperandBytes(x: Operand): (s: seq<Cell>)
    ensures |s| == SIZEOF_OPERAND
  {
    [OperandHead(x), Tail, Tail, Tail, Tail, Tail, Tail, Tail]
  }

  /** The bytes of an operator node and of an operand node. */
  function OpNode(t: NodeType, o: Operator): (s: seq<Cell>)
    ensures |s| == SIZEOF_NODE_TYPE + SIZEOF_OPERATOR
  {
    TypeBytes(t) + OperatorBytes(o)
  }

  function OperandNode(x: Operand): (s: seq<Cell>)
    ensures |s| == SIZEOF_NODE_TYPE + SIZEOF_OPERAND
  {
    TypeBytes(OPERAND) + OperandBytes(x)
  }

  // ----- reading the buffer ---------------------------------------------------

  function ReadType(code: seq<Cell>, ip: nat): NodeType {
    if ip < |code| && code[ip].TypeHead? && Has(code, ip, TypeBytes(code[ip].t)) then code[ip].t else NO_TYPE
  }

  function ReadOperator(code: seq<Cell>, ip: nat): Operator {
    if ip < |code| && code[ip].OpHead? && Has(code, ip, OperatorBytes(code[ip].o)) then code[ip].o else NO_OP
  }

  function ReadOperand(code: seq<Cell>, ip: nat): Operand {
    if ip < |code| && code[ip].OperandHead? && Has(code, ip, OperandBytes(code[ip].x)) then code[ip].x else NoOperand
  }

  lemma ReadOpNode(code: seq<Cell>, ip: nat, t: NodeType, o: Operator)
    requires Has(code, ip, OpNode(t, o))
    ensures ReadType(code, ip) == t && ReadOperator(code, ip + SIZEOF_NODE_TYPE) == o
  {
    HasSplit(code, ip, TypeBytes(t), OperatorBytes(o));
    assert code[ip] == code[ip..ip + 4][0];
    assert code[ip + 4] == code[ip + 4..ip + 8][0];
  }

  lemma ReadOperandNode(code: seq<Cell>, ip: nat, x: Operand)
    requires Has(code, ip, OperandNode(x))
    ensures ReadType(code, ip) == OPERAND && ReadOperand(code, ip + SIZEOF_NODE_TYPE) == x
  {
    HasSplit(code, ip, TypeBytes(OPERAND), OperandBytes(x));
    assert code[ip] == code[ip..ip + 4][0];
    assert code[ip + 4] == code[ip + 4..ip + 12][0];
  }

  /** An operator node in front of other code is read back and leaves that code. */
  lemma ReadHead(code: seq<Cell>, ip: nat, t: NodeType, o: Operator, rest: seq<Cell>)
    requires Has(code, ip, OpNode(t, o) + rest)
    ensures ReadType(code, ip) == t && ReadOperator(code, ip + SIZEOF_NODE_TYPE) == o
    ensures Has(code, ip + SIZEOF_NODE_TYPE + SIZEOF_OPERATOR, rest)
  {
    HasSplit(code, ip, OpNode(t, o), rest);
    ReadOpNode(code, ip, t, o);
  }

  // ----- what the machine does on any buffer ------------------------------------

  /** A step ends with a status, a value (when the status is TRUE) and a new `ip`. */
  datatype Outcome = Outcome(status: Status, value: long, ip: nat)

  function OperandValue(vals: seq<long>, x: Operand): long {
    match x
    case Long(l) => l
    case Variable(id) => if id < |vals| then vals[id] else 0
    case NoOperand => 0
  }

  function Arith(op: Operator, a: long, b: long): (Status, long) {
    match op
    case ADD => (TRUE, Wrap(a + b))
    case SUB => (TRUE, Wrap(a - b))
    case MUL => (TRUE, Wrap(a * b))
    case DIV => if b == 0 then (MATH_ERROR, 0) else (TRUE, Wrap(Quotient(a, b)))
    case _ => (EXECUTION_ERROR, 0)
  }

  function Compare(op: Operator, a: long, b: long): Status {
    match op
    case EQ => if a == b then TRUE else FALSE
    case NEQ => if a != b then TRUE else FALSE
    case GE => if a > b then TRUE else FALSE
    case GEQ => if a >= b then TRUE else FALSE
    case LE => if a < b then TRUE else FALSE
    case LEQ => if a <= b then TRUE else FALSE
    case _ => EXECUTION_ERROR
  }

  function Left(code: seq<Cell>, ip: nat): nat {
    if ip < |code| then |code| - ip else 0
  }

  /** One argument of an operator: a nested operation or an operand. */
  function RunArg(code: seq<Cell>, vals: seq<long>, ip: nat): (r: Outcome)
    ensures r.ip >= ip + SIZEOF_NODE_TYPE
    ensures !r.status.IsError() ==> ip < |code|
    decreases Left(code, ip), 1
  {
    var next := ip + SIZEOF_NODE_TYPE;
    match ReadType(code, ip)
    case ARITH_OP => RunExpr(code, vals, next + SIZEOF_OPERATOR, ReadOperator(code, next))
    case OPERAND => Outcome(TRUE, OperandValue(vals, ReadOperand(code, next)), next + SIZEOF_OPERAND)
    case _ => Outcome(SEMANTIC_ERROR, 0, next)
  }

  function RunExpr(code: seq<Cell>, vals: seq<long>, ip: nat, op: Operator): (r: Outcome)
    ensures r.ip >= ip
    decreases Left(code, ip), 2
  {
    var a := RunArg(code, vals, ip);
    if a.status.IsError() then a else
    var b := RunArg(code, vals, a.ip);
    if b.status.IsError() then b else
    var (status, value) := Arith(op, a.value, b.value);
    Outcome(status, value, b.ip)
  }

  /** One argument of a connective: only a relation or another connective will do. */
  function RunClause(code: seq<Cell>, vals: seq<long>, ip: nat): (r: Outcome)
    ensures r.ip >= ip + SIZEOF_NODE_TYPE
    ensures !r.status.IsError() ==> ip < |code|
    decreases Left(code, ip), 1
  {
    var next := ip + SIZEOF_NODE_TYPE;
    if ReadType(code, ip) != CMP_OP then Outcome(SEMANTIC_ERROR, 0, next)
    else RunLogic(code, vals, next + SIZEOF_OPERATOR, ReadOperator(code, next))
  }

  /** Both sides of a connective are evaluated, even when one decides the result. */
  function RunLogic(code: seq<Cell>, vals: seq<long>, ip: nat, op: Operator): (r: Outcome)
    ensures r.ip >= ip
    decreases Left(code, ip), 2
  {
    if op.IsConnective() then
      var a := RunClause(code, vals, ip);
      if a.status.IsError() then a else
      if op.NOT? then Outcome(Negate(a.status), 0, a.ip) else
      var b := RunClause(code, vals, a.ip);
      if b.status.IsError() then b else
      Outcome(Connect(op, a.status, b.status), 0, b.ip)
    else
      var a := RunArg(code, vals, ip);
      if a.status.IsError() then a else
      var b := RunArg(code, vals, a.ip);
      if b.status.IsError() then b else
      Outcome(Compare(op, a.value, b.value), 0, b.ip)
  }

  function Negate(s: Status): Status {
    if s == FALSE then TRUE else FALSE
  }

  function Connect(op: Operator, a: Status, b: Status): Status {
    if op.AND? then (if a == TRUE && b == TRUE then TRUE else FALSE)
    else (if a == TRUE || b == TRUE then TRUE else FALSE)
  }

  /** A whole execution (lvm_execute). */
  function Run(code: seq<Cell>, vals: seq<long>): Outcome {
    if ReadType(code, 0) != CMP_OP then Outcome(EXECUTION_ERROR, 0, SIZEOF_NODE_TYPE)
    else RunLogic(code, vals, SIZEOF_NODE_TYPE + SIZEOF_OPERATOR, ReadOperator(code, SIZEOF_NODE_TYPE))
  }

  // ----- syntax trees, their code and their meaning -------------------------------

  datatype Expr =
    | Leaf(x: Operand)
    | Bin(op: Operator, left: Expr, right: Expr)
  {
    predicate Valid() {
      match this
      case Leaf(_) => true
      case Bin(op, l, r) => op.IsArith() && l.Valid() && r.Valid()
    }
  }

  datatype Pred =
    | Cmp(rel: Operator, lhs: Expr, rhs: Expr)
    | Both(op: Operator, left: Pred, right: Pred)
    | Neg(arg: Pred)
  {
    predicate Valid() {
      match this
      case Cmp(rel, a, b) => rel.IsRelation() && a.Valid() && b.Valid()
      case Both(op, a, b) => (op.AND? || op.OR?) && a.Valid() && b.Valid()
      case Neg(a) => a.Valid()
    }
  }

  function EncodeExpr(e: Expr): (s: seq<Cell>)
    ensures |s| >= SIZEOF_NODE_TYPE
  {
    match e
    case Leaf(x) => OperandNode(x)
    case Bin(op, l, r) => OpNode(ARITH_OP, op) + (EncodeExpr(l) + EncodeExpr(r))
  }

  function Encode(p: Pred): (s: seq<Cell>)
    ensures |s| >= SIZEOF_NODE_TYPE + SIZEOF_OPERATOR
  {
    match p
    case Cmp(rel, a, b) => OpNode(CMP_OP, rel) + (EncodeExpr(a) + EncodeExpr(b))
    case Both(op, a, b) => OpNode(CMP_OP, op) + (Encode(a) + Encode(b))
    case Neg(a) => OpNode(CMP_OP, NOT) + Encode(a)
  }

  /** The value of an expression, or the error that its leftmost failing operation gives. */
  function Value(vals: seq<long>, e: Expr): (Status, long) {
    match e
    case Leaf(x) => (TRUE, OperandValue(vals, x))
    case Bin(op, l, r) =>
      var a := Value(vals, l);
      if a.0.IsError() then a else
      var b := Value(vals, r);
      if b.0.IsError() then b else Arith(op, a.1, b.1)
  }

  function Truth(vals: seq<long>, p: Pred): Status {
    match p
    case Cmp(rel, l, r) =>
      var a := Value(vals, l);
      if a.0.IsError() then a.0 else
      var b := Value(vals, r);
      if b.0.IsError() then b.0 else Compare(rel, a.1, b.1)
    case Both(op, l, r) =>
      var a := Truth(vals, l);
      if a.IsError() then a else
      var b := Truth(vals, r);
      if b.IsError() then b else Connect(op, a, b)
    case Neg(q) =>
      var a := Truth(vals, q);
      if a.IsError() then a else Negate(a)
  }

  /** On the code of an expression the machine computes its value and stops right after it. */
  lemma {:induction false} RunArgMeaning(code: seq<Cell>, vals: seq<long>, ip: nat, e: Expr)
    requires Has(code, ip, EncodeExpr(e))
    ensures var r := RunArg(code, vals, ip);
            var (status, value) := Value(vals, e);
            && r.status == status
            && (!status.IsError() ==> r.value == value && r.ip == ip + |EncodeExpr(e)|)
    decreases e
  {
    hide Has, OpNode, Arith;
    match e
    case Leaf(x) =>
      ReadOperandNode(code, ip, x);
    case Bin(op, l, r) =>
      ReadHead(code, ip, ARITH_OP, op, EncodeExpr(l) + EncodeExpr(r));
      var args := ip + SIZEOF_NODE_TYPE + SIZEOF_OPERATOR;
      HasSplit(code, args, EncodeExpr(l), EncodeExpr(r));
      RunArgMeaning(code, vals, args, l);
      RunArgMeaning(code, vals, args + |EncodeExpr(l)|, r);
  }

  lemma {:induction false} RunClauseMeaning(code: seq<Cell>, vals: seq<long>, ip: nat, p: Pred)
    requires p.Valid()
    requires Has(code, ip, Encode(p))
    ensures var r := RunClause(code, vals, ip);
            && r.status == Truth(vals, p)
            && (!r.status.IsError() ==> r.ip == ip + |Encode(p)|)
    decreases p
  {
    hide Has, OpNode, EncodeExpr, Value, RunArg, Compare;
    var args := ip + SIZEOF_NODE_TYPE + SIZEOF_OPERATOR;
    match p
    case Cmp(rel, l, r) =>
      RunComparison(code, vals, ip, rel, l, r);
    case Both(op, l, r) =>
      ReadHead(code, ip, CMP_OP, op, Encode(l) + Encode(r));
      HasSplit(code, args, Encode(l), Encode(r));
      RunClauseMeaning(code, vals, args, l);
      RunClauseMeaning(code, vals, args + |Encode(l)|, r);
    case Neg(q) =>
      ReadHead(code, ip, CMP_OP, NOT, Encode(q));
      RunClauseMeaning(code, vals, args, q);
  }

  lemma RunComparison(code: seq<Cell>, vals: seq<long>, ip: nat, rel: Operator, l: Expr, r: Expr)
    requires rel.IsRelation()
    requires Has(code, ip, Encode(Cmp(rel, l, r)))
    ensures var o := RunClause(code, vals, ip);
            && o.status == Truth(vals, Cmp(rel, l, r))
            && (!o.status.IsError() ==> o.ip == ip + |Encode(Cmp(rel, l, r))|)
  {
    hide Has, OpNode, Arith, Compare, EncodeExpr, RunArg, Value;
    var args := ip + SIZEOF_NODE_TYPE + SIZEOF_OPERATOR;
    ReadHead(code, ip, CMP_OP, rel, EncodeExpr(l) + EncodeExpr(r));
    HasSplit(code, args, EncodeExpr(l), EncodeExpr(r));
    RunArgMeaning(code, vals, args, l);
    RunArgMeaning(code, vals, args + |EncodeExpr(l)|, r);
  }

  /** lvm_execute on the code of a predicate gives its truth value, or its leftmost
      error, and consumes the code exactly; what follows the code does not matter. */
  lemma ExecuteMeaning(code: seq<Cell>, vals: seq<long>, p: Pred)
    requires p.Valid()
    requires Encode(p) <= code
    ensures var r := Run(code, vals);
            && r.status == Truth(vals, p)
            && (!r.status.IsError() ==> r.ip == |Encode(p)|)
  {
    assert Has(code, 0, Encode(p));
    RunClauseMeaning(code, vals, 0, p);
    ClauseType(code, p);
  }

  lemma ClauseType(code: seq<Cell>, p: Pred)
    requires Has(code, 0, Encode(p))
    ensures ReadType(code, 0) == CMP_OP
  {
    match p
    case Cmp(rel, l, r) => ReadHead(code, 0, CMP_OP, rel, EncodeExpr(l) + EncodeExpr(r));
    case Both(op, l, r) => ReadHead(code, 0, CMP_OP, op, Encode(l) + Encode(r));
    case Neg(q) => ReadHead(code, 0, CMP_OP, NOT, Encode(q));
  }

  // ----- what the operators compute -------------------------------------------------------------

  /** The two numbers differ by a multiple of 2^32. */
  predicate Congruent(v: int, x: int) { (v - x) % 0x1_0000_0000 == 0 }

  lemma WrapCongruent(x: int)
    ensures Congruent(Wrap(x), x)
  {
  }

  /** At most one long is congruent to a number. */
  lemma CongruentUnique(v: long, w: long, x: int)
    requires Congruent(v, x) && Congruent(w, x)
    ensures v == w
  {
  }

  /** `q` is `a` divided by `b`, truncated towards zero: the remainder is smaller than the
      divisor and has the sign of the dividend. */
  predicate Truncated(a: int, b: int, q: int) {
    var r := a - q * b;
    && -Magnitude(b) < r < Magnitude(b)
    && (r == 0 || (r < 0 <==> a < 0))
  }

  function Magnitude(x: int): int { if x < 0 then -x else x }

  lemma QuotientTruncated(a: int, b: int)
    requires b != 0
    ensures Truncated(a, b, Quotient(a, b))
    ensures -Magnitude(a) <= Quotient(a, b) <= Magnitude(a)
    ensures Quotient(a, b) == Magnitude(a) ==> a == 0 || b == 1 || b == -1
    ensures b == 1 ==> Quotient(a, b) == a
  {
    var x, y := Magnitude(a), Magnitude(b);
    DivisionParts(x, y);
    SignedProduct(x / y, b);
  }

  lemma ProductOrder(q: nat, y: nat, k: nat)
    requires y >= k
    ensures q * y >= q * k
  {
    assert q * y == q * k + q * (y - k);
  }

  lemma DivisionParts(x: nat, y: nat)
    requires y > 0
    ensures x == x / y * y + x % y && 0 <= x % y < y && 0 <= x / y <= x
    ensures x / y == x ==> x == 0 || y == 1
  {
    var q := x / y;
    assert x == q * y + x % y;
    ProductOrder(q, y, 1);
    if y > 1 {
      ProductOrder(q, y, 2);
    }
  }

  lemma SignedProduct(q: int, b: int)
    ensures q * b == if b < 0 then -(q * Magnitude(b)) else q * Magnitude(b)
    ensures (-q) * b == if b < 0 then q * Magnitude(b) else -(q * Magnitude(b))
  {
  }

  /** At most one number is that quotient. */
  lemma TruncatedUnique(a: int, b: int, q: int, p: int)
    requires b != 0 && Truncated(a, b, q) && Truncated(a, b, p)
    ensures q == p
  {
    var d := q - p;
    assert (a - p * b) - (a - q * b) == d * b;
    if d != 0 {
      assert Magnitude(d * b) >= Magnitude(b) by { ProductMagnitude(d, b); }
    }
  }

  lemma ProductMagnitude(d: int, b: int)
    requires d != 0
    ensures Magnitude(d * b) >= Magnitude(b)
  {
    SignedProduct(d, b);
    if d > 0 {
      ProductOrder(Magnitude(b), d, 1);
    } else {
      SignedProduct(-d, b);
      ProductOrder(Magnitude(b), -d, 1);
    }
  }

  /**
    An operation on two values: sum, difference and product modulo 2^32, the quotient truncated
    towards zero, and an error exactly for a zero divisor.  The one quotient that is no long,
    LONG_MIN / -1, wraps around.
   */
  lemma OperationMeaning(vals: seq<long>, op: Operator, l: Expr, r: Expr, a: long, b: long)
    requires Value(vals, l) == (TRUE, a) && Value(vals, r) == (TRUE, b)
    ensures var (status, v) := Value(vals, Bin(op, l, r));
            match op
            case ADD => status == TRUE && Congruent(v, (a as int) + b)
            case SUB => status == TRUE && Congruent(v, (a as int) - b)
            case MUL => status == TRUE && Congruent(v, (a as int) * b)
            case DIV =>
              && (status == MATH_ERROR <==> b == 0)
              && (b != 0 ==> status == TRUE)
              && (a == LONG_MIN && b == -1 ==> v == LONG_MIN)
              && (b != 0 && !(a == LONG_MIN && b == -1) ==> Truncated(a, b, v))
            case _ => status == EXECUTION_ERROR
  {
    hide Quotient, Wrap, Congruent, Truncated;
    match op {
      case ADD => WrapCongruent((a as int) + b);
      case SUB => WrapCongruent((a as int) - b);
      case MUL => WrapCongruent((a as int) * b);
      case DIV =>
        if b != 0 {
          QuotientTruncated(a, b);
          if a == LONG_MIN && b == -1 {
            assert Quotient(a, b) == -LONG_MIN by { MinQuotient(); }
          }
          WrapLong(Quotient(a, b));
        }
      case _ =>
    }
  }

  lemma MinQuotient()
    ensures Quotient(LONG_MIN, -1) == -LONG_MIN
  {
  }

  lemma WrapLong(x: int)
    requires LONG_MIN <= x <= -LONG_MIN
    ensures Wrap(x) == if x == -LONG_MIN then LONG_MIN else x
  {
  }

  /** The machine computes the same on the code of the operation. */
  lemma MachineOperation(code: seq<Cell>, vals: seq<long>, ip: nat, op: Operator, l: Expr, r: Expr, a: long, b: long)
    requires Has(code, ip, EncodeExpr(Bin(op, l, r)))
    requires Value(vals, l) == (TRUE, a) && Value(vals, r) == (TRUE, b)
    ensures var o := RunArg(code, vals, ip);
            && (op == ADD ==> o.status == TRUE && Congruent(o.value, (a as int) + b))
            && (op == SUB ==> o.status == TRUE && Congruent(o.value, (a as int) - b))
            && (op == MUL ==> o.status == TRUE && Congruent(o.value, (a as int) * b))
            && (op == DIV && b == 0 ==> o.status == MATH_ERROR)
            && (op == DIV && b != 0 && !(a == LONG_MIN && b == -1) ==> o.status == TRUE && Truncated(a, b, o.value))
  {
    hide Value, Has, Arith, RunArg, EncodeExpr, Truncated, Congruent;
    RunArgMeaning(code, vals, ip, Bin(op, l, r));
    OperationMeaning(vals, op, l, r, a, b);
  }

  /** Operands: a constant is itself, a variable what its slot holds. */
  lemma OperandMeaning(vals: seq<long>, id: nat, c: long)
    ensures Value(vals, Leaf(Long(c))) == (TRUE, c)
    ensures id < |vals| ==> Value(vals, Leaf(Variable(id))) == (TRUE, vals[id])
  {
  }

  /** A comparison of two values holds exactly when the numbers are so related. */
  lemma ComparisonMeaning(vals: seq<long>, rel: Operator, l: Expr, r: Expr, a: long, b: long)
    requires rel.IsRelation() && Value(vals, l) == (TRUE, a) && Value(vals, r) == (TRUE, b)
    ensures var t := Truth(vals, Cmp(rel, l, r));
            && (t == TRUE || t == FALSE)
            && (rel == EQ ==> (t == TRUE <==> a == b)) && (rel == NEQ ==> (t == TRUE <==> a != b))
            && (rel == GE ==> (t == TRUE <==> a > b)) && (rel == GEQ ==> (t == TRUE <==> a >= b))
            && (rel == LE ==> (t == TRUE <==> a < b)) && (rel == LEQ ==> (t == TRUE <==> a <= b))
  {
  }

  /** Connectives of predicates without errors are those of logic. */
  lemma ConnectiveMeaning(vals: seq<long>, p: Pred, q: Pred)
    requires !Truth(vals, p).IsError() && !Truth(vals, q).IsError()
    ensures Truth(vals, Both(AND, p, q)) == TRUE <==> Truth(vals, p) == TRUE && Truth(vals, q) == TRUE
    ensures Truth(vals, Both(OR, p, q)) == TRUE <==> Truth(vals, p) == TRUE || Truth(vals, q) == TRUE
    ensures Truth(vals, Neg(p)) == TRUE <==> Truth(vals, p) == FALSE
    ensures !Truth(vals, Both(AND, p, q)).IsError() && !Truth(vals, Both(OR, p, q)).IsError()
    ensures !Truth(vals, Neg(p)).IsError()
  {
  }

  /** The leftmost error is the result, also behind a side that decides the connective. */
  lemma LeftmostError(vals: seq<long>, op: Operator, rel: Operator, l: Expr, r: Expr, p: Pred, q: Pred)
    requires op.IsArith() && rel.IsRelation()
    ensures var e := if Value(vals, l).0.IsError() then Value(vals, l).0 else Value(vals, r).0;
            e.IsError() ==> Value(vals, Bin(op, l, r)).0 == e == Truth(vals, Cmp(rel, l, r))
    ensures var e := if Truth(vals, p).IsError() then Truth(vals, p) else Truth(vals, q);
            e.IsError() ==> Truth(vals, Both(AND, p, q)) == e == Truth(vals, Both(OR, p, q))
    ensures Truth(vals, p).IsError() ==> Truth(vals, Neg(p)) == Truth(vals, p)
  {
  }
}
