/**
  The compiler of WHERE clauses (apps/antelope/aql-parser.c) over the code
  buffer of the virtual machine (apps/antelope/lvm.c), as functions on values.

  The parser emits operands as it meets them and later inserts the operator in
  front of code it has already written, by moving that code up.  `ParseWhere`
  is the parser on an arbitrary token sequence; `Clause` is the source syntax;
  `EmitWhere` is the code of a clause, and `Tree` the tree the clause denotes.
 */
module WhereCompiler {
  import opened Segments
  import opened Lvm

  // ----- the buffer and its cursor ------------------------------------------------

  /** `fault` records an access outside the buffer, which C leaves undefined. */
  datatype Buffer = Buffer(code: seq<Cell>, end: nat, error: bool, fault: bool)

  const OP_NODE: nat := SIZEOF_NODE_TYPE + SIZEOF_OPERATOR

  /** lvm_set_type followed by the memcpy of an operator or operand. */
  function Put(b: Buffer, s: seq<Cell>): Buffer {
    if b.end + |s| <= |b.code| then
      b.(code := b.code[..b.end] + s + b.code[b.end + |s|..], end := b.end + |s|)
    else
      b.(end := b.end + |s|, fault := true)
  }

  function JumpToOperand(b: Buffer): (Buffer, nat) {
    if b.end + OP_NODE >= |b.code| then (b.(error := true), b.end)
    else (b.(end := b.end + OP_NODE), b.end)
  }

  /** Opens a gap for an operator at `at` by moving the code from there on up. */
  function ShiftForOperator(b: Buffer, at: nat): (Buffer, nat) {
    if b.end + SIZEOF_OPERATOR > |b.code| || at >= b.end then (b.(error := true), 0)
    else if b.end + OP_NODE > |b.code| then (b.(end := at, fault := true), b.end + OP_NODE)
    else
      (b.(code := b.code[..at + OP_NODE] + b.code[at..b.end] + b.code[b.end + OP_NODE..], end := at),
       b.end + OP_NODE)
  }

  function SetEnd(b: Buffer, end: nat): (Buffer, nat) {
    if end >= |b.code| then (b.(error := true), b.end)
    else (b.(end := end), b.end)
  }

  /** At the end of the buffer: jump and set stay inside it or set the error flag; the shift tests for the 4 bytes
      of an operator and moves the code by the 8 bytes of a node, so that with 4 to 7 bytes left it writes behind the
      buffer without an error. */
  lemma BufferLimits(b: Buffer, at: nat, end: nat, s: seq<Cell>)
    requires b.end <= |b.code| && !b.error && !b.fault
    ensures JumpToOperand(b).0 == if b.end + 8 < |b.code| then b.(end := b.end + 8) else b.(error := true)
    ensures SetEnd(b, end).0 == if end < |b.code| then b.(end := end) else b.(error := true)
    ensures var (r, next) := ShiftForOperator(b, at);
            && (r.error <==> |b.code| - b.end < 4 || at >= b.end)
            && (r.fault <==> 4 <= |b.code| - b.end < 8 && at < b.end)
            && (!r.error ==> r.end == at && next == b.end + 8)
    ensures Put(b, s).end == b.end + |s| && (Put(b, s).fault <==> |b.code| - b.end < |s|)
  {
  }

  // ----- the variable table -------------------------------------------------------

  const LVM_MAX_NAME_LENGTH: nat := 12

  /** The slot of `name`, or the first unused slot, or the table size. */
  function LookupFrom(names: seq<string>, name: string, i: nat): (id: nat)
    requires i <= |names|
    ensures i <= id <= |names|
    ensures forall k :: i <= k < id ==> names[k] != "" && names[k] != name
    ensures id < |names| ==> names[id] == "" || names[id] == name
    decreases |names| - i
  {
    if i == |names| || names[i] == "" || names[i] == name then i else LookupFrom(names, name, i + 1)
  }

  function Lookup(names: seq<string>, name: string): (id: nat)
    ensures id <= |names|
    ensures forall k :: 0 <= k < id ==> names[k] != "" && names[k] != name
    ensures id < |names| ==> names[id] == "" || names[id] == name
  {
    LookupFrom(names, name, 0)
  }

  function Truncate(name: string): string {
    if |name| <= LVM_MAX_NAME_LENGTH then name else name[..LVM_MAX_NAME_LENGTH]
  }

  /** lvm_register_variable: a full table leaves the name out. */
  function Register(names: seq<string>, name: string): (r: seq<string>)
    ensures |r| == |names|
  {
    var id := Lookup(names, name);
    if id < |names| && names[id] == "" then names[id := Truncate(name)] else names
  }

  /** lvm_set_variable: nothing is emitted for a name the table has no slot for. */
  function SetVariable(b: Buffer, names: seq<string>, name: string): Buffer {
    var id := Lookup(names, name);
    if id < |names| then Put(b, OperandNode(Variable(id))) else b
  }

  // ----- the parser -----------------------------------------------------------------

  datatype Token =
    | IDENTIFIER(name: string) | INTEGER_VALUE(l: long) | STRING_VALUE | FLOAT_VALUE
    | LEFT_PAREN | RIGHT_PAREN
    | ARITHMETIC(op: Operator)      // ADD, SUB, MUL, DIV
    | COMPARISON(rel: Operator)     // GT, LT, GEQ, LEQ, EQUAL, NOT_EQUAL
    | CONNECTIVE(conn: Operator)    // AND, OR
    | OTHER                         // any other keyword
    | NONE                          // the end of the text

  /** OK, SYNTAX_ERROR, and the 0 that `RETURN(r)` hands on (apps/antelope/aql-parser.c:438-441). */
  datatype AqlStatus = OK | SYNTAX_ERROR | ZERO {
    predicate IsError() { SYNTAX_ERROR? }
  }

  datatype State = State(pos: nat, prev: nat, buf: Buffer, names: seq<string>)

  /** lexer_next: at the end of the text the position stays. */
  function Next(ts: seq<Token>, s: State): (r: (Token, State))
    requires s.pos <= |ts|
    ensures r.1.pos <= |ts|
  {
    if s.pos < |ts| then (ts[s.pos], s.(prev := s.pos, pos := s.pos + 1))
    else (NONE, s.(prev := s.pos))
  }

  function Rewind(s: State): State { s.(pos := s.prev) }

  function ParseOperand(ts: seq<Token>, s: State): (r: (AqlStatus, State))
    requires s.pos <= |ts|
    ensures s.pos <= r.1.pos <= |ts|
    ensures r.0.OK? ==> s.pos < r.1.pos
    ensures r.0.OK? || r.0.SYNTAX_ERROR?
  {
    var (t, n) := Next(ts, s);
    match t
    case IDENTIFIER(name) =>
      var names := Register(n.names, name);
      (OK, n.(names := names, buf := SetVariable(n.buf, names, name)))
    case STRING_VALUE => (OK, n)
    case FLOAT_VALUE => (OK, n)
    case INTEGER_VALUE(l) => (OK, n.(buf := Put(n.buf, OperandNode(Long(l)))))
    case _ => (SYNTAX_ERROR, n)
  }

  function ParseExpr(ts: seq<Token>, s: State): (r: (AqlStatus, State))
    requires s.pos <= |ts|
    ensures s.pos <= r.1.pos <= |ts|
    ensures r.0.OK? ==> s.pos < r.1.pos
    ensures r.0.OK? || r.0.SYNTAX_ERROR?
    decreases |ts| - s.pos, 1
  {
    var savedEnd := s.buf.end;
    var (t, n) := Next(ts, s);
    if t.LEFT_PAREN? then
      var (r, s1) := ParseExpr(ts, n);
      if r.IsError() then (SYNTAX_ERROR, s1) else
      var (t2, s2) := Next(ts, s1);
      if !t2.RIGHT_PAREN? then (SYNTAX_ERROR, s2) else ParseOps(ts, s2, savedEnd)
    else
      var (r, s1) := ParseOperand(ts, Rewind(n));
      if r.IsError() then (SYNTAX_ERROR, s1) else ParseOps(ts, s1, savedEnd)
  }

  /** Puts an operator in front of the code from `at` on; gives the new end. */
  function InsertOperator(b: Buffer, at: nat, t: NodeType, op: Operator): (Buffer, nat) {
    var (b1, end) := ShiftForOperator(b, at);
    (SetEnd(Put(b1, OpNode(t, op)), end).0, end)
  }

  /** The loop of parse_expr. */
  function ParseOps(ts: seq<Token>, s: State, savedEnd: nat): (r: (AqlStatus, State))
    requires s.pos <= |ts|
    ensures s.pos <= r.1.pos <= |ts|
    ensures r.0.OK? || r.0.SYNTAX_ERROR?
    decreases |ts| - s.pos, 0
  {
    var (t, n) := Next(ts, s);
    if t.RIGHT_PAREN? then (OK, n)
    else if !t.ARITHMETIC? then (OK, Rewind(n))
    else
      var (r1, s1) := ParseOperand(ts, n);
      var (r2, s2) := if r1.IsError() then ParseExpr(ts, s1) else (r1, s1);
      if r2.IsError() then (SYNTAX_ERROR, s2) else
      var (b, end) := InsertOperator(s2.buf, savedEnd, ARITH_OP, t.op);
      ParseOps(ts, s2.(buf := b), end)
  }

  function ParseComparison(ts: seq<Token>, s: State): (r: (AqlStatus, State))
    requires s.pos <= |ts|
    ensures s.pos <= r.1.pos <= |ts|
    ensures r.0.OK? ==> s.pos < r.1.pos
    ensures r.0.OK? || r.0.SYNTAX_ERROR?
  {
    var (b, savedEnd) := JumpToOperand(s.buf);
    var (r1, s1) := ParseExpr(ts, s.(buf := b));
    if r1.IsError() then (SYNTAX_ERROR, s1) else
    var (b1, end) := SetEnd(s1.buf, savedEnd);
    var (t, s2) := Next(ts, s1.(buf := b1));
    if !t.COMPARISON? then (SYNTAX_ERROR, s2) else
    var b2 := SetEnd(Put(s2.buf, OpNode(CMP_OP, t.rel)), end).0;
    var (r3, s3) := ParseExpr(ts, s2.(buf := b2));
    if r3.IsError() then (SYNTAX_ERROR, s3) else (OK, s3)
  }

  function ParseWhere(ts: seq<Token>, s: State): (r: (AqlStatus, State))
    requires s.pos <= |ts|
    ensures s.pos <= r.1.pos <= |ts|
    ensures r.0.OK? ==> s.pos < r.1.pos
    decreases |ts| - s.pos, 1
  {
    var (r, s1) := ParseComparison(ts, s);
    if r.IsError() then (SYNTAX_ERROR, s1) else ParseConnectives(ts, s1, 0)
  }

  /** The loop of parse_where. */
  function ParseConnectives(ts: seq<Token>, s: State, savedEnd: nat): (r: (AqlStatus, State))
    requires s.pos <= |ts|
    ensures s.pos <= r.1.pos <= |ts|
    decreases |ts| - s.pos, 0
  {
    var (t, n) := Next(ts, s);
    if !t.CONNECTIVE? then (OK, Rewind(n)) else
    var (b, end) := InsertOperator(n.buf, savedEnd, CMP_OP, t.conn);
    var s1 := n.(buf := b);
    var (t2, s2) := Next(ts, s1);
    if t2.LEFT_PAREN? then
      var (r3, s3) := ParseWhere(ts, s2);
      if r3.IsError() then (SYNTAX_ERROR, s3) else
      var (t4, s4) := Next(ts, s3);
      if !t4.RIGHT_PAREN? then (SYNTAX_ERROR, s4) else ParseConnectives(ts, s4, end)
    else
      var (r3, s3) := ParseComparison(ts, Rewind(s2));
      if r3.IsError() then (ZERO, s3) else ParseConnectives(ts, s3, end)
  }

  // ----- source syntax, its tokens, its code and its tree -----------------------------

  datatype Atom = Ident(name: string) | Num(l: long)

  /** An operand followed by operators of the same level: a op b op (c op d) ... */
  datatype Chain = Chain(first: Atom, ops: Ops)
  datatype Ops = Done | Step(op: Operator, arg: Arg, more: Ops)
  datatype Arg = Simple(a: Atom) | Paren(c: Chain)

  datatype Comparison = Comparison(lhs: Chain, rel: Operator, rhs: Chain)
  datatype Clause = Last(c: Comparison) | Link(c: Comparison, conn: Operator, rest: Clause)

  predicate ValidChain(c: Chain) { ValidOps(c.ops) }

  predicate ValidOps(ops: Ops) {
    match ops
    case Done => true
    case Step(op, arg, more) => op.IsArith() && (arg.Paren? ==> ValidChain(arg.c)) && ValidOps(more)
  }

  predicate ValidClause(w: Clause) {
    match w
    case Last(c) => c.rel.IsRelation() && ValidChain(c.lhs) && ValidChain(c.rhs)
    case Link(c, conn, rest) =>
      && c.rel.IsRelation() && ValidChain(c.lhs) && ValidChain(c.rhs)
      && (conn.AND? || conn.OR?) && ValidClause(rest)
  }

  function AtomToken(a: Atom): Token {
    match a
    case Ident(name) => IDENTIFIER(name)
    case Num(l) => INTEGER_VALUE(l)
  }

  function Tokens(c: Chain): (ts: seq<Token>)
    ensures |ts| > 0 && ts[0] == AtomToken(c.first)
  {
    [AtomToken(c.first)] + OpsTokens(c.ops)
  }

  function OpsTokens(ops: Ops): seq<Token> {
    match ops
    case Done => []
    case Step(op, arg, more) => [ARITHMETIC(op)] + ArgTokens(arg) + OpsTokens(more)
  }

  function ArgTokens(arg: Arg): seq<Token> {
    match arg
    case Simple(a) => [AtomToken(a)]
    case Paren(c) => [LEFT_PAREN] + Tokens(c) + [RIGHT_PAREN]
  }

  function ComparisonTokens(c: Comparison): seq<Token> {
    Tokens(c.lhs) + [COMPARISON(c.rel)] + Tokens(c.rhs)
  }

  function ClauseTokens(w: Clause): seq<Token> {
    match w
    case Last(c) => ComparisonTokens(c)
    case Link(c, conn, rest) => ComparisonTokens(c) + [CONNECTIVE(conn)] + ClauseTokens(rest)
  }

  function AtomOperand(names: seq<string>, a: Atom): Operand {
    match a
    case Ident(name) => Variable(Lookup(names, name))
    case Num(l) => Long(l)
  }

  /** The code of a chain: the first operator goes before the first two operands,
      every later one before its own right operand. */
  function EmitChain(names: seq<string>, c: Chain): (s: seq<Cell>)
    ensures |s| > 0
  {
    EmitOps(names, c.ops, OperandNode(AtomOperand(names, c.first)))
  }

  function EmitOps(names: seq<string>, ops: Ops, left: seq<Cell>): (s: seq<Cell>)
    ensures |s| >= |left|
  {
    match ops
    case Done => left
    case Step(op, arg, more) =>
      OpNode(ARITH_OP, op) + left + EmitArg(names, arg) + EmitOps(names, more, [])
  }

  function EmitArg(names: seq<string>, arg: Arg): (s: seq<Cell>)
    ensures |s| > 0
  {
    match arg
    case Simple(a) => OperandNode(AtomOperand(names, a))
    case Paren(c) => EmitChain(names, c)
  }

  function EmitComparison(names: seq<string>, c: Comparison): (s: seq<Cell>)
    ensures |s| > 0
  {
    OpNode(CMP_OP, c.rel) + EmitChain(names, c.lhs) + EmitChain(names, c.rhs)
  }

  function EmitClause(names: seq<string>, w: Clause): (s: seq<Cell>)
    ensures |s| > 0
  {
    match w
    case Last(c) => EmitComparison(names, c)
    case Link(c, conn, rest) => OpNode(CMP_OP, conn) + EmitComparison(names, c) + EmitClause(names, rest)
  }

  /** The tree of a chain: operators of one level associate to the left. */
  function ChainTree(names: seq<string>, c: Chain): Expr {
    OpsTree(names, c.ops, Leaf(AtomOperand(names, c.first)))
  }

  function OpsTree(names: seq<string>, ops: Ops, left: Expr): Expr {
    match ops
    case Done => left
    case Step(op, arg, more) => OpsTree(names, more, Bin(op, left, ArgTree(names, arg)))
  }

  function ArgTree(names: seq<string>, arg: Arg): Expr {
    match arg
    case Simple(a) => Leaf(AtomOperand(names, a))
    case Paren(c) => ChainTree(names, c)
  }

  /** The tree of a clause: c1 op1 (c2 op2 (... cn)). */
  function ClauseTree(names: seq<string>, w: Clause): Pred {
    match w
    case Last(c) => Cmp(c.rel, ChainTree(names, c.lhs), ChainTree(names, c.rhs))
    case Link(c, conn, rest) =>
      Both(conn, Cmp(c.rel, ChainTree(names, c.lhs), ChainTree(names, c.rhs)), ClauseTree(names, rest))
  }

  /** At most one arithmetic operator at every level. */
  predicate OneOp(c: Chain) {
    match c.ops
    case Done => true
    case Step(_, arg, more) => more.Done? && (arg.Paren? ==> OneOp(arg.c))
  }

  predicate OneOpClause(w: Clause) {
    match w
    case Last(c) => OneOp(c.lhs) && OneOp(c.rhs)
    case Link(c, _, rest) => OneOp(c.lhs) && OneOp(c.rhs) && OneOpClause(rest)
  }

  // ----- what the variable table keeps --------------------------------------------------

  /** Used slots come first and hold different names. */
  predicate TableOk(t: seq<string>) {
    && (forall i, j :: 0 <= i < j < |t| && t[j] != "" ==> t[i] != "")
    && (forall i, j :: 0 <= i < j < |t| && t[j] != "" ==> t[i] != t[j])
  }

  predicate Extends(t: seq<string>, u: seq<string>) {
    |t| == |u| && forall i :: 0 <= i < |t| && t[i] != "" ==> u[i] == t[i]
  }

  predicate ValidName(name: string) { 0 < |name| <= LVM_MAX_NAME_LENGTH }

  function ChainNames(c: Chain): seq<string> {
    AtomNames(c.first) + OpsNames(c.ops)
  }

  function OpsNames(ops: Ops): seq<string> {
    match ops
    case Done => []
    case Step(_, arg, more) => ArgNames(arg) + OpsNames(more)
  }

  function ArgNames(arg: Arg): seq<string> {
    match arg
    case Simple(a) => AtomNames(a)
    case Paren(c) => ChainNames(c)
  }

  function AtomNames(a: Atom): seq<string> {
    if a.Ident? then [a.name] else []
  }

  function ClauseNames(w: Clause): seq<string> {
    match w
    case Last(c) => ChainNames(c.lhs) + ChainNames(c.rhs)
    case Link(c, _, rest) => ChainNames(c.lhs) + ChainNames(c.rhs) + ClauseNames(rest)
  }

  function RegisterAll(t: seq<string>, l: seq<string>): (r: seq<string>)
    ensures |r| == |t|
    decreases l
  {
    if l == [] then t else RegisterAll(Register(t, l[0]), l[1..])
  }

  lemma {:induction false} RegisterAllConcat(t: seq<string>, a: seq<string>, b: seq<string>)
    ensures RegisterAll(t, a + b) == RegisterAll(RegisterAll(t, a), b)
    decreases a
  {
    if a == [] {
      assert a + b == b;
    } else {
      assert (a + b)[1..] == a[1..] + b;
      RegisterAllConcat(Register(t, a[0]), a[1..], b);
    }
  }

  lemma RegisterOk(t: seq<string>, name: string)
    requires TableOk(t) && ValidName(name)
    ensures TableOk(Register(t, name)) && Extends(t, Register(t, name))
    ensures Lookup(t, name) < |t| ==> name in Register(t, name)
  {
    var id := Lookup(t, name);
    if id < |t| {
      var u := Register(t, name);
      assert u[id] == name;
      forall k | id < k < |t| && t[id] == ""
        ensures u[k] == ""
      {
      }
    }
  }

  /** A table that grows to `t` along valid names: it stays well formed and only gains slots. */
  lemma {:induction false} RegisterAllExtends(t: seq<string>, l: seq<string>)
    requires TableOk(t) && forall n <- l :: ValidName(n)
    ensures TableOk(RegisterAll(t, l)) && Extends(t, RegisterAll(t, l))
    decreases l
  {
    if l != [] {
      assert l[0] in l;
      RegisterOk(t, l[0]);
      RegisterAllExtends(Register(t, l[0]), l[1..]);
    }
  }

  /** Once a name has a slot, later registrations do not move it. */
  lemma LookupStable(t: seq<string>, u: seq<string>, name: string)
    requires TableOk(t) && TableOk(u) && Extends(t, u) && name != "" && name in t
    ensures Lookup(t, name) == Lookup(u, name) < |t|
  {
  }

  /** The names of a clause all get a slot of the table `t`. */
  predicate Covers(t: seq<string>, l: seq<string>) {
    TableOk(t) && forall n <- l :: ValidName(n) && n in t
  }

  lemma RegisterKnown(t: seq<string>, u: seq<string>, name: string)
    requires TableOk(t) && Covers(u, [name]) && Extends(Register(t, name), u)
    ensures name in Register(t, name) && Lookup(Register(t, name), name) == Lookup(u, name) < |u|
  {
    assert name in [name];
    RegisterOk(t, name);
    LookupStable(Register(t, name), u, name);
  }

  // ----- what the parser leaves in the buffer -----------------------------------------------

  /** The buffer holds `s` up to its end, and nothing has gone wrong yet. */
  predicate Holds(b: Buffer, s: seq<Cell>) {
    b.end == |s| <= |b.code| && b.code[..|s|] == s && !b.error && !b.fault
  }

  lemma PutHolds(b: Buffer, s: seq<Cell>, x: seq<Cell>)
    requires Holds(b, s) && |s| + |x| <= |b.code|
    ensures Holds(Put(b, x), s + x) && |Put(b, x).code| == |b.code|
  {
  }

  /** Opening a gap at `|s|` and filling it puts the operator between `s` and `x`. */
  lemma InsertHolds(b: Buffer, s: seq<Cell>, x: seq<Cell>, t: NodeType, op: Operator)
    requires Holds(b, s + x) && |x| > 0 && |s| + |x| + OP_NODE < |b.code|
    ensures var (r, end) := InsertOperator(b, |s|, t, op);
            && Holds(r, s + OpNode(t, op) + x) && |r.code| == |b.code|
            && end == |s| + OP_NODE + |x|
  {
    hide OpNode;
    var (b1, end) := ShiftForOperator(b, |s|);
    assert b.code[..|s|] == b.code[..|s + x|][..|s|] == s;
    assert b.code[|s|..b.end] == b.code[..|s + x|][|s|..] == x;
    var b2 := Put(b1, OpNode(t, op));
    assert b2.code[..end] == s + OpNode(t, op) + x;
  }

  /** The place that parse_comparison keeps free is filled once the operator is known. */
  lemma FillHolds(b: Buffer, s: seq<Cell>, gap: seq<Cell>, x: seq<Cell>, op: Operator)
    requires Holds(b, s + gap + x) && |gap| == OP_NODE && |s + gap + x| < |b.code|
    ensures var (b1, end) := SetEnd(b, |s|);
            var r := SetEnd(Put(b1, OpNode(CMP_OP, op)), end).0;
            && Holds(r, s + OpNode(CMP_OP, op) + x) && |r.code| == |b.code|
  {
    hide OpNode;
    var (b1, end) := SetEnd(b, |s|);
    var all := s + gap + x;
    assert b.code[..|s|] == b.code[..|all|][..|s|] == s;
    assert b.code[|s| + OP_NODE..|all|] == b.code[..|all|][|s| + OP_NODE..] == x;
    var b2 := Put(b1, OpNode(CMP_OP, op));
    assert b2.code[..end] == s + OpNode(CMP_OP, op) + x;
  }

  /** A chain ends before a `)`, which the parser takes with it, or before a token that
      is no operator, which it leaves. */
  predicate Follows(ts: seq<Token>, pos: nat, closed: bool) {
    if closed then pos < |ts| && ts[pos].RIGHT_PAREN?
    else pos <= |ts| && (pos < |ts| ==> !ts[pos].RIGHT_PAREN? && !ts[pos].ARITHMETIC?)
  }

  /** The outcome of parsing: the position, the code and the table. */
  predicate Parsed(r: (AqlStatus, State), s: State, pos: nat, code: seq<Cell>, names: seq<string>) {
    r.0.OK? && r.1.pos == pos && Holds(r.1.buf, code) && |r.1.buf.code| == |s.buf.code| && r.1.names == names
  }

  /** The table `t`, seen from a parser whose own table is `names`, will cover the names `l`. */
  predicate Reaches(names: seq<string>, l: seq<string>, t: seq<string>) {
    TableOk(names) && Covers(t, l) && Extends(RegisterAll(names, l), t)
  }

  lemma RegisterNone(names: seq<string>)
    ensures RegisterAll(names, []) == names
  {
  }

  lemma ReachesSplit(names: seq<string>, a: seq<string>, b: seq<string>, t: seq<string>)
    requires Reaches(names, a + b, t)
    ensures Reaches(names, a, t) && Reaches(RegisterAll(names, a), b, t)
    ensures RegisterAll(names, a + b) == RegisterAll(RegisterAll(names, a), b)
  {
    assert forall n <- a :: n in a + b;
    assert forall n <- b :: n in a + b;
    RegisterAllConcat(names, a, b);
    RegisterAllExtends(names, a);
    RegisterAllExtends(RegisterAll(names, a), b);
  }

  lemma AtomParse(ts: seq<Token>, s: State, a: Atom, t: seq<string>, pre: seq<Cell>)
    requires Has(ts, s.pos, [AtomToken(a)])
    requires Holds(s.buf, pre) && |pre| + SIZEOF_NODE_TYPE + SIZEOF_OPERAND <= |s.buf.code|
    requires Reaches(s.names, AtomNames(a), t)
    ensures Parsed(ParseOperand(ts, s), s, s.pos + 1, pre + OperandNode(AtomOperand(t, a)),
                   RegisterAll(s.names, AtomNames(a)))
  {
    hide OperandNode;
    HasAt(ts, s.pos, [AtomToken(a)], 0);
    PutHolds(s.buf, pre, OperandNode(AtomOperand(t, a)));
    if a.Ident? {
      assert RegisterAll(s.names, [a.name]) == Register(s.names, a.name);
      RegisterKnown(s.names, t, a.name);
    }
  }

  /** ParseExpr unfolded in front of an operand. */
  lemma ParseExprPlain(ts: seq<Token>, s: State)
    requires s.pos < |ts| && !ts[s.pos].LEFT_PAREN?
    ensures var (r, s1) := ParseOperand(ts, Rewind(Next(ts, s).1));
            r.OK? ==> ParseExpr(ts, s) == ParseOps(ts, s1, s.buf.end)
  {
  }

  lemma AtomRoom(t: seq<string>, c: Chain)
    ensures |EmitChain(t, c)| >= SIZEOF_NODE_TYPE + SIZEOF_OPERAND
  {
  }

  lemma {:induction false} ChainParse(ts: seq<Token>, s: State, c: Chain, t: seq<string>, pre: seq<Cell>, closed: bool)
    requires ValidChain(c)
    requires Has(ts, s.pos, Tokens(c)) && Follows(ts, s.pos + |Tokens(c)|, closed)
    requires Holds(s.buf, pre) && |pre| + |EmitChain(t, c)| < |s.buf.code|
    requires Reaches(s.names, ChainNames(c), t)
    ensures Parsed(ParseExpr(ts, s), s, s.pos + |Tokens(c)| + (if closed then 1 else 0),
                   pre + EmitChain(t, c), RegisterAll(s.names, ChainNames(c)))
    decreases c, 0
  {
    hide Has, Holds, Reaches, RegisterAll, OperandNode, EmitOps, ParseOps, ParseOperand, ParseExpr;
    HasSplit(ts, s.pos, [AtomToken(c.first)], OpsTokens(c.ops));
    HasAt(ts, s.pos, [AtomToken(c.first)], 0);
    ReachesSplit(s.names, AtomNames(c.first), OpsNames(c.ops), t);
    AtomRoom(t, c);
    var s0 := Rewind(Next(ts, s).1);
    AtomParse(ts, s0, c.first, t, pre);
    var s1 := ParseOperand(ts, s0).1;
    ParseExprPlain(ts, s);
    HoldsEnd(s.buf, pre);
    OpsParse(ts, s1, c.ops, t, pre, OperandNode(AtomOperand(t, c.first)), closed);
  }

  lemma {:induction false} ArgParse(ts: seq<Token>, s: State, arg: Arg, t: seq<string>, pre: seq<Cell>)
    requires arg.Paren? ==> ValidChain(arg.c)
    requires Has(ts, s.pos, ArgTokens(arg))
    requires Holds(s.buf, pre) && |pre| + |EmitArg(t, arg)| < |s.buf.code|
    requires Reaches(s.names, ArgNames(arg), t)
    ensures var (r1, s1) := ParseOperand(ts, s);
            var r := if r1.IsError() then ParseExpr(ts, s1) else (r1, s1);
            Parsed(r, s, s.pos + |ArgTokens(arg)|, pre + EmitArg(t, arg), RegisterAll(s.names, ArgNames(arg)))
    decreases arg, 0
  {
    hide Has, Holds, Reaches, RegisterAll, EmitChain, ParseExpr, Register, SetVariable, Lookup;
    match arg
    case Simple(a) =>
      AtomParse(ts, s, a, t, pre);
    case Paren(c) =>
      HasSplit(ts, s.pos, [LEFT_PAREN] + Tokens(c), [RIGHT_PAREN]);
      HasSplit(ts, s.pos, [LEFT_PAREN], Tokens(c));
      HasAt(ts, s.pos, [LEFT_PAREN], 0);
      HasAt(ts, s.pos + 1 + |Tokens(c)|, [RIGHT_PAREN], 0);
      ChainParse(ts, ParseOperand(ts, s).1, c, t, pre, true);
  }

  /** One turn of the loop of parse_expr. */
  lemma StepParse(ts: seq<Token>, s: State, op: Operator, arg: Arg, t: seq<string>, pre: seq<Cell>, left: seq<Cell>)
    returns (next: State)
    requires arg.Paren? ==> ValidChain(arg.c)
    requires Has(ts, s.pos, [ARITHMETIC(op)] + ArgTokens(arg))
    requires Holds(s.buf, pre + left)
    requires |pre| + |left| + |EmitArg(t, arg)| + OP_NODE < |s.buf.code|
    requires Reaches(s.names, ArgNames(arg), t)
    ensures next.pos == s.pos + 1 + |ArgTokens(arg)| <= |ts|
    ensures next.names == RegisterAll(s.names, ArgNames(arg))
    ensures |next.buf.code| == |s.buf.code|
    ensures Holds(next.buf, pre + (OpNode(ARITH_OP, op) + left + EmitArg(t, arg)))
    ensures ParseOps(ts, s, |pre|) == ParseOps(ts, next, next.buf.end)
    decreases arg, 1
  {
    hide Has, Reaches, OpNode, EmitArg, ParseOperand, ParseExpr, RegisterAll, ParseOps, InsertOperator;
    HasSplit(ts, s.pos, [ARITHMETIC(op)], ArgTokens(arg));
    HasAt(ts, s.pos, [ARITHMETIC(op)], 0);
    var (_, n) := Next(ts, s);
    ArgParse(ts, n, arg, t, pre + left);
    var (r1, s1) := ParseOperand(ts, n);
    var (r2, s2) := if r1.IsError() then ParseExpr(ts, s1) else (r1, s1);
    var right := EmitArg(t, arg);
    assert pre + left + right == pre + (left + right);
    InsertHolds(s2.buf, pre, left + right, ARITH_OP, op);
    var (b, end) := InsertOperator(s2.buf, |pre|, ARITH_OP, op);
    next := s2.(buf := b);
    assert pre + OpNode(ARITH_OP, op) + (left + right) == pre + (OpNode(ARITH_OP, op) + left + right);
    assert ParseOps(ts, s, |pre|) == ParseOps(ts, next, end) by { ParseOpsTurn(ts, s, |pre|); }
  }

  /** ParseOps unfolded once, in front of an operator. */
  lemma ParseOpsTurn(ts: seq<Token>, s: State, savedEnd: nat)
    requires s.pos < |ts| && ts[s.pos].ARITHMETIC?
    ensures var (_, n) := Next(ts, s);
            var (r1, s1) := ParseOperand(ts, n);
            var (r2, s2) := if r1.IsError() then ParseExpr(ts, s1) else (r1, s1);
            var (b, end) := InsertOperator(s2.buf, savedEnd, ARITH_OP, ts[s.pos].op);
            r2.IsError() || ParseOps(ts, s, savedEnd) == ParseOps(ts, s2.(buf := b), end)
  {
  }

  /** ParseOps where the chain ends. */
  lemma ParseOpsLast(ts: seq<Token>, s: State, savedEnd: nat)
    requires s.pos <= |ts| && (s.pos < |ts| ==> !ts[s.pos].ARITHMETIC?)
    ensures var (r, s1) := ParseOps(ts, s, savedEnd);
            && r.OK? && s1.buf == s.buf && s1.names == s.names
            && s1.pos == s.pos + if s.pos < |ts| && ts[s.pos].RIGHT_PAREN? then 1 else 0
  {
  }

  lemma {:induction false} OpsParse(ts: seq<Token>, s: State, ops: Ops, t: seq<string>,
                                    pre: seq<Cell>, left: seq<Cell>, closed: bool)
    requires ValidOps(ops)
    requires Has(ts, s.pos, OpsTokens(ops)) && Follows(ts, s.pos + |OpsTokens(ops)|, closed)
    requires Holds(s.buf, pre + left) && |pre| + |EmitOps(t, ops, left)| < |s.buf.code|
    requires Reaches(s.names, OpsNames(ops), t)
    ensures Parsed(ParseOps(ts, s, |pre|), s, s.pos + |OpsTokens(ops)| + (if closed then 1 else 0),
                   pre + EmitOps(t, ops, left), RegisterAll(s.names, OpsNames(ops)))
    decreases ops, 0
  {
    hide ParseOps, Has, Holds, Reaches, EmitArg, RegisterAll, OpNode;
    match ops
    case Done =>
      RegisterNone(s.names);
      ParseOpsLast(ts, s, |pre|);
    case Step(op, arg, more) =>
      HasSplit(ts, s.pos, [ARITHMETIC(op)] + ArgTokens(arg), OpsTokens(more));
      ReachesSplit(s.names, ArgNames(arg), OpsNames(more), t);
      var next := StepParse(ts, s, op, arg, t, pre, left);
      var part := OpNode(ARITH_OP, op) + left + EmitArg(t, arg);
      assert pre + part == pre + part + [];
      assert next.buf.end == |pre + part| by { HoldsEnd(next.buf, pre + part); }
      OpsParse(ts, next, more, t, pre + part, [], closed);
      assert pre + part + EmitOps(t, more, []) == pre + EmitOps(t, ops, left);
  }

  lemma HoldsEnd(b: Buffer, s: seq<Cell>)
    requires Holds(b, s)
    ensures b.end == |s|
  {
  }

  lemma ComparisonParse(ts: seq<Token>, s: State, c: Comparison, t: seq<string>, pre: seq<Cell>)
    requires c.rel.IsRelation() && ValidChain(c.lhs) && ValidChain(c.rhs)
    requires Has(ts, s.pos, ComparisonTokens(c)) && Follows(ts, s.pos + |ComparisonTokens(c)|, false)
    requires Holds(s.buf, pre) && |pre| + |EmitComparison(t, c)| < |s.buf.code|
    requires Reaches(s.names, ChainNames(c.lhs) + ChainNames(c.rhs), t)
    ensures Parsed(ParseComparison(ts, s), s, s.pos + |ComparisonTokens(c)|, pre + EmitComparison(t, c),
                   RegisterAll(s.names, ChainNames(c.lhs) + ChainNames(c.rhs)))
  {
    hide Has, Reaches, RegisterAll, EmitChain, ParseExpr, Tokens, OpNode, Put, ChainNames;
    HasSplit(ts, s.pos, Tokens(c.lhs) + [COMPARISON(c.rel)], Tokens(c.rhs));
    HasSplit(ts, s.pos, Tokens(c.lhs), [COMPARISON(c.rel)]);
    HasAt(ts, s.pos + |Tokens(c.lhs)|, [COMPARISON(c.rel)], 0);
    ReachesSplit(s.names, ChainNames(c.lhs), ChainNames(c.rhs), t);
    var (b, savedEnd) := JumpToOperand(s.buf);
    var gap := b.code[|pre|..|pre| + OP_NODE];
    var left := EmitChain(t, c.lhs);
    assert Holds(b, pre + gap) by {
      assert b.code[..|pre| + OP_NODE] == b.code[..|pre|] + gap;
    }
    var s0 := s.(buf := b);
    ChainParse(ts, s0, c.lhs, t, pre + gap, false);
    var s1 := ParseExpr(ts, s0).1;
    FillHolds(s1.buf, pre, gap, left, c.rel);
    var (b1, end) := SetEnd(s1.buf, savedEnd);
    var s2 := Next(ts, s1.(buf := b1)).1;
    var s3 := s2.(buf := SetEnd(Put(s2.buf, OpNode(CMP_OP, c.rel)), end).0);
    ChainParse(ts, s3, c.rhs, t, pre + OpNode(CMP_OP, c.rel) + left, false);
    assert pre + OpNode(CMP_OP, c.rel) + left + EmitChain(t, c.rhs) == pre + EmitComparison(t, c);
  }

  /** A clause ends before a token that would continue neither its last chain nor the clause. */
  predicate Ends(ts: seq<Token>, pos: nat) {
    Follows(ts, pos, false) && (pos < |ts| ==> !ts[pos].CONNECTIVE?)
  }

  /** parse_where once a comparison, with code `left`, has been read: `rest` follows it. */
  lemma {:induction false} LinkParse(ts: seq<Token>, s: State, conn: Operator, rest: Clause,
                                     t: seq<string>, pre: seq<Cell>, left: seq<Cell>)
    requires (conn.AND? || conn.OR?) && ValidClause(rest) && |left| > 0
    requires Has(ts, s.pos, [CONNECTIVE(conn)] + ClauseTokens(rest))
    requires Ends(ts, s.pos + 1 + |ClauseTokens(rest)|)
    requires Holds(s.buf, pre + left)
    requires |pre| + OP_NODE + |left| + |EmitClause(t, rest)| < |s.buf.code|
    requires Reaches(s.names, ClauseNames(rest), t)
    ensures Parsed(ParseConnectives(ts, s, |pre|), s, s.pos + 1 + |ClauseTokens(rest)|,
                   pre + (OpNode(CMP_OP, conn) + left + EmitClause(t, rest)),
                   RegisterAll(s.names, ClauseNames(rest)))
    decreases rest
  {
    hide Has, Reaches, RegisterAll, EmitComparison, ParseComparison, ComparisonTokens, OpNode,
         InsertOperator, ParseConnectives, Holds, ChainNames, Covers;
    HasSplit(ts, s.pos, [CONNECTIVE(conn)], ClauseTokens(rest));
    HasAt(ts, s.pos, [CONNECTIVE(conn)], 0);
    InsertHolds(s.buf, pre, left, CMP_OP, conn);
    var (_, n) := Next(ts, s);
    var (b, end) := InsertOperator(n.buf, |pre|, CMP_OP, conn);
    var s1 := n.(buf := b);
    var pre1 := pre + OpNode(CMP_OP, conn) + left;
    HoldsEnd(b, pre1);
    ClauseStart(ts, s1.pos, rest);
    var names := ChainNames(rest.c.lhs) + ChainNames(rest.c.rhs);
    ParseConnectivesTurn(ts, s, |pre|);
    match rest
    case Last(c) =>
      ComparisonParse(ts, s1.(prev := s1.pos), c, t, pre1);
      var (r3, s3) := ParseComparison(ts, s1.(prev := s1.pos));
      ParseConnectivesLast(ts, s3, end);
      assert pre1 + EmitComparison(t, c) == pre + (OpNode(CMP_OP, conn) + left + EmitClause(t, rest));
    case Link(c, conn2, rest2) =>
      LinkSplit(ts, s1.pos, c, conn2, rest2);
      ReachesSplit(s.names, names, ClauseNames(rest2), t);
      ComparisonParse(ts, s1.(prev := s1.pos), c, t, pre1);
      var (r3, s3) := ParseComparison(ts, s1.(prev := s1.pos));
      LinkParse(ts, s3, conn2, rest2, t, pre1, EmitComparison(t, c));
      assert pre1 + (OpNode(CMP_OP, conn2) + EmitComparison(t, c) + EmitClause(t, rest2))
          == pre + (OpNode(CMP_OP, conn) + left + EmitClause(t, rest));
  }

  lemma ClauseStart(ts: seq<Token>, pos: nat, w: Clause)
    requires Has(ts, pos, ClauseTokens(w))
    ensures pos < |ts| && !ts[pos].LEFT_PAREN?
  {
    var c := w.c;
    HasAt(ts, pos, ClauseTokens(w), 0);
    assert ClauseTokens(w)[0] == AtomToken(c.lhs.first);
  }

  lemma LinkSplit(ts: seq<Token>, pos: nat, c: Comparison, conn: Operator, rest: Clause)
    requires Has(ts, pos, ClauseTokens(Link(c, conn, rest)))
    ensures Has(ts, pos, ComparisonTokens(c))
    ensures Follows(ts, pos + |ComparisonTokens(c)|, false)
    ensures Has(ts, pos + |ComparisonTokens(c)|, [CONNECTIVE(conn)] + ClauseTokens(rest))
  {
    hide Has, ComparisonTokens;
    var a, b, d := ComparisonTokens(c), [CONNECTIVE(conn)], ClauseTokens(rest);
    assert a + b + d == a + (b + d);
    HasSplit(ts, pos, a, b + d);
    HasAt(ts, pos + |a|, b + d, 0);
  }

  /** ParseConnectives unfolded once, in front of a connective and an operand. */
  lemma ParseConnectivesTurn(ts: seq<Token>, s: State, savedEnd: nat)
    requires s.pos + 1 < |ts| && ts[s.pos].CONNECTIVE? && !ts[s.pos + 1].LEFT_PAREN?
    ensures var (_, n) := Next(ts, s);
            var (b, end) := InsertOperator(n.buf, savedEnd, CMP_OP, ts[s.pos].conn);
            var (r3, s3) := ParseComparison(ts, n.(buf := b, prev := n.pos));
            r3.IsError() || ParseConnectives(ts, s, savedEnd) == ParseConnectives(ts, s3, end)
  {
    var (_, n) := Next(ts, s);
    var (b, end) := InsertOperator(n.buf, savedEnd, CMP_OP, ts[s.pos].conn);
    assert Rewind(Next(ts, n.(buf := b)).1) == n.(buf := b, prev := n.pos);
  }

  lemma ParseConnectivesLast(ts: seq<Token>, s: State, savedEnd: nat)
    requires s.pos <= |ts| && (s.pos < |ts| ==> !ts[s.pos].CONNECTIVE?)
    ensures var (r, s1) := ParseConnectives(ts, s, savedEnd);
            r.OK? && s1.buf == s.buf && s1.names == s.names && s1.pos == s.pos
  {
  }

  /** The parser, started on an empty buffer, leaves exactly the code of the clause. */
  lemma WhereParse(ts: seq<Token>, s: State, w: Clause, t: seq<string>)
    requires ValidClause(w)
    requires Has(ts, s.pos, ClauseTokens(w)) && Ends(ts, s.pos + |ClauseTokens(w)|)
    requires Holds(s.buf, []) && |EmitClause(t, w)| < |s.buf.code|
    requires Reaches(s.names, ClauseNames(w), t)
    ensures Parsed(ParseWhere(ts, s), s, s.pos + |ClauseTokens(w)|, EmitClause(t, w),
                   RegisterAll(s.names, ClauseNames(w)))
  {
    hide Has, Reaches, RegisterAll, EmitComparison, ParseComparison, ComparisonTokens, OpNode,
         ParseConnectives, Holds, ChainNames, Covers;
    var names := ChainNames(w.c.lhs) + ChainNames(w.c.rhs);
    match w
    case Last(c) =>
      ComparisonParse(ts, s, c, t, []);
      var s1 := ParseComparison(ts, s).1;
      ParseConnectivesLast(ts, s1, 0);
      assert [] + EmitComparison(t, c) == EmitClause(t, w);
    case Link(c, conn, rest) =>
      LinkSplit(ts, s.pos, c, conn, rest);
      ReachesSplit(s.names, names, ClauseNames(rest), t);
      ComparisonParse(ts, s, c, t, []);
      var s1 := ParseComparison(ts, s).1;
      LinkParse(ts, s1, conn, rest, t, [], EmitComparison(t, c));
      assert [] + (OpNode(CMP_OP, conn) + EmitComparison(t, c) + EmitClause(t, rest)) == EmitClause(t, w);
  }
}
