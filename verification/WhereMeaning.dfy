/**
  What a compiled WHERE clause means (apps/antelope/aql-parser.c together with
  lvm_execute in apps/antelope/lvm.c).

  The meaning of a clause is defined here on the source text, with variables
  looked up by name: `ClauseTruth`.  `CompiledClauseMeaning` is the main result.
  `ClauseCodeExact` says for which clauses the emitted code is the code of the
  tree the clause denotes; `LeftParenthesisRejected` and `SecondOperatorMisread`
  show what happens to the others.
 */
module WhereMeaning {
  import opened Segments
  import opened Lvm
  import opened WhereCompiler

  // ----- the meaning of the source text --------------------------------------------------

  type Env = string -> long

  function AtomValue(env: Env, a: Atom): long {
    match a
    case Ident(name) => env(name)
    case Num(l) => l
  }

  /** Operators of one level apply from left to right; the leftmost error is the result. */
  function ChainValue(env: Env, c: Chain): (Status, long) {
    OpsValue(env, c.ops, (TRUE, AtomValue(env, c.first)))
  }

  function OpsValue(env: Env, ops: Ops, left: (Status, long)): (Status, long) {
    match ops
    case Done => left
    case Step(op, arg, more) =>
      if left.0.IsError() then left else
      var right := ArgValue(env, arg);
      if right.0.IsError() then right else OpsValue(env, more, Arith(op, left.1, right.1))
  }

  function ArgValue(env: Env, arg: Arg): (Status, long) {
    match arg
    case Simple(a) => (TRUE, AtomValue(env, a))
    case Paren(c) => ChainValue(env, c)
  }

  function ComparisonTruth(env: Env, c: Comparison): Status {
    var a := ChainValue(env, c.lhs);
    if a.0.IsError() then a.0 else
    var b := ChainValue(env, c.rhs);
    if b.0.IsError() then b.0 else Compare(c.rel, a.1, b.1)
  }

  /** c1 op1 (c2 op2 (... cn)): both sides are evaluated, an error on either is the result. */
  function ClauseTruth(env: Env, w: Clause): Status {
    match w
    case Last(c) => ComparisonTruth(env, c)
    case Link(c, conn, rest) =>
      var a := ComparisonTruth(env, c);
      if a.IsError() then a else
      var b := ClauseTruth(env, rest);
      if b.IsError() then b else Connect(conn, a, b)
  }

  /** An expression a op b on the values of its operands: sum, difference and product modulo 2^32,
      the quotient truncated towards zero, an error exactly for a zero divisor. */
  lemma ChainOperation(env: Env, x: Atom, op: Operator, y: Atom)
    ensures var a, b := AtomValue(env, x), AtomValue(env, y);
            var (status, v) := ChainValue(env, Chain(x, Step(op, Simple(y), Done)));
            && (op == ADD ==> status == TRUE && Congruent(v, (a as int) + b))
            && (op == SUB ==> status == TRUE && Congruent(v, (a as int) - b))
            && (op == MUL ==> status == TRUE && Congruent(v, (a as int) * b))
            && (op == DIV ==> (status == MATH_ERROR <==> b == 0) && (b != 0 ==> status == TRUE))
            && (op == DIV && b != 0 && !(a == LONG_MIN && b == -1) ==> Truncated(a, b, v))
  {
    hide Congruent, Truncated, Arith;
    var a, b := AtomValue(env, x), AtomValue(env, y);
    var vals: seq<long> := [];
    OperationMeaning(vals, op, Leaf(Long(a)), Leaf(Long(b)), a, b);
    assert Value(vals, Bin(op, Leaf(Long(a)), Leaf(Long(b)))) == Arith(op, a, b);
    OperationStep(env, op, y, Done, a);
    assert OpsValue(env, Done, Arith(op, a, b)) == Arith(op, a, b);
  }

  lemma OperationStep(env: Env, op: Operator, y: Atom, more: Ops, a: long)
    ensures OpsValue(env, Step(op, Simple(y), more), (TRUE, a)) == OpsValue(env, more, Arith(op, a, AtomValue(env, y)))
  {
    hide Arith;
  }

  lemma AtomMeaning(env: Env, name: string, l: long)
    ensures AtomValue(env, Ident(name)) == env(name) && AtomValue(env, Num(l)) == l
  {
  }

  /** Operators of a level group to the left: a - b - c is (a - b) - c. */
  lemma LeftGrouping(env: Env, x: Atom, y: Atom, z: Atom)
    ensures var (status, v) := ChainValue(env, Chain(x, Step(SUB, Simple(y), Step(SUB, Simple(z), Done))));
            status == TRUE && Congruent(v, (AtomValue(env, x) as int) - AtomValue(env, y) - AtomValue(env, z))
  {
    var a, b, c := AtomValue(env, x), AtomValue(env, y), AtomValue(env, z);
    hide Wrap, Congruent, OpsValue;
    var d := Wrap((a as int) - b);
    WrapCongruent((a as int) - b);
    OperationStep(env, SUB, y, Step(SUB, Simple(z), Done), a);
    OperationStep(env, SUB, z, Done, d);
    assert OpsValue(env, Done, Arith(SUB, d, c)) == Arith(SUB, d, c) by { NoOperation(env, Arith(SUB, d, c)); }
    WrapCongruent((d as int) - c);
    CongruentDifference(Wrap((d as int) - c), d, c, (a as int) - b);
  }

  lemma NoOperation(env: Env, left: (Status, long))
    ensures OpsValue(env, Done, left) == left
  {
  }

  lemma CongruentDifference(v: int, d: int, c: int, x: int)
    requires Congruent(v, d - c) && Congruent(d, x)
    ensures Congruent(v, x - c)
  {
  }

  /** Comparisons of a clause group to the right: c1 op1 (c2 op2 c3). */
  lemma RightGrouping(env: Env, c1: Comparison, op1: Operator, c2: Comparison, op2: Operator, c3: Comparison)
    requires !ComparisonTruth(env, c1).IsError() && !ComparisonTruth(env, c2).IsError()
    requires !ComparisonTruth(env, c3).IsError() && (op1.AND? || op1.OR?) && (op2.AND? || op2.OR?)
    ensures var a, b := ComparisonTruth(env, c1) == TRUE, ComparisonTruth(env, c2) == TRUE;
            var c := ComparisonTruth(env, c3) == TRUE;
            var rest := if op2.AND? then b && c else b || c;
            ClauseTruth(env, Link(c1, op1, Link(c2, op2, Last(c3)))) == TRUE <==>
              if op1.AND? then a && rest else a || rest
  {
    hide ComparisonTruth;
    var last := Last(c3);
    var rest := Link(c2, op2, last);
    assert ClauseTruth(env, last) == ComparisonTruth(env, c3);
    assert ClauseTruth(env, rest) == Connect(op2, ComparisonTruth(env, c2), ComparisonTruth(env, c3));
    assert ClauseTruth(env, Link(c1, op1, rest)) == Connect(op1, ComparisonTruth(env, c1), ClauseTruth(env, rest));
  }

  /** The machine's variables hold what the environment says of the names. */
  predicate Agree(t: seq<string>, vals: seq<long>, env: Env, names: seq<string>) {
    forall n <- names :: Lookup(t, n) < |vals| && vals[Lookup(t, n)] == env(n)
  }

  lemma {:induction false} ChainTreeValue(t: seq<string>, vals: seq<long>, env: Env, c: Chain)
    requires Agree(t, vals, env, ChainNames(c))
    ensures Value(vals, ChainTree(t, c)) == ChainValue(env, c)
    decreases c, 0
  {
    assert c.first.Ident? ==> c.first.name in AtomNames(c.first);
    OpsTreeValue(t, vals, env, c.ops, Leaf(AtomOperand(t, c.first)));
  }

  lemma {:induction false} OpsTreeValue(t: seq<string>, vals: seq<long>, env: Env, ops: Ops, left: Expr)
    requires Agree(t, vals, env, OpsNames(ops))
    ensures Value(vals, OpsTree(t, ops, left)) == OpsValue(env, ops, Value(vals, left))
    decreases ops, 0
  {
    hide Arith;
    match ops
    case Done =>
    case Step(op, arg, more) =>
      assert Agree(t, vals, env, ArgNames(arg)) && Agree(t, vals, env, OpsNames(more));
      ArgTreeValue(t, vals, env, arg);
      OpsTreeValue(t, vals, env, more, Bin(op, left, ArgTree(t, arg)));
      OpsValueError(env, more, Value(vals, Bin(op, left, ArgTree(t, arg))));
  }

  lemma OpsValueError(env: Env, ops: Ops, left: (Status, long))
    ensures left.0.IsError() ==> OpsValue(env, ops, left) == left
  {
  }

  lemma {:induction false} ArgTreeValue(t: seq<string>, vals: seq<long>, env: Env, arg: Arg)
    requires Agree(t, vals, env, ArgNames(arg))
    ensures Value(vals, ArgTree(t, arg)) == ArgValue(env, arg)
    decreases arg, 0
  {
    match arg
    case Simple(a) => assert a.Ident? ==> a.name in AtomNames(a);
    case Paren(c) => ChainTreeValue(t, vals, env, c);
  }

  lemma {:induction false} ClauseTreeTruth(t: seq<string>, vals: seq<long>, env: Env, w: Clause)
    requires Agree(t, vals, env, ClauseNames(w))
    ensures Truth(vals, ClauseTree(t, w)) == ClauseTruth(env, w)
    decreases w
  {
    hide Compare, Connect, ChainTree, ChainNames, ChainValue, Value;
    var names := ChainNames(w.c.lhs) + ChainNames(w.c.rhs);
    assert forall n <- names :: n in ClauseNames(w);
    assert forall n <- ChainNames(w.c.lhs) :: n in names;
    assert forall n <- ChainNames(w.c.rhs) :: n in names;
    ChainTreeValue(t, vals, env, w.c.lhs);
    ChainTreeValue(t, vals, env, w.c.rhs);
    if w.Link? {
      assert forall n <- ClauseNames(w.rest) :: n in ClauseNames(w);
      ClauseTreeTruth(t, vals, env, w.rest);
    }
  }

  // ----- every name of a small clause gets a slot --------------------------------------------

  const EMPTY_TABLE: seq<string> := ["", "", "", ""]

  function Distinct(l: seq<string>): set<string> { set n | n in l }

  /** At most LVM_MAX_VARIABLE_ID different names, none longer than the table keeps. */
  predicate NamesFit(l: seq<string>) {
    (forall n <- l :: ValidName(n)) && |Distinct(l)| <= LVM_MAX_VARIABLE_ID
  }

  lemma {:induction false} DistinctSize(t: seq<string>)
    requires forall i, j :: 0 <= i < j < |t| ==> t[i] != t[j]
    ensures |Distinct(t)| == |t|
    decreases t
  {
    if t != [] {
      var last := t[|t| - 1];
      var front := t[..|t| - 1];
      DistinctSize(front);
      assert Distinct(t) == Distinct(front) + {last};
    }
  }

  lemma {:induction false} RegisterAllCovers(t: seq<string>, l: seq<string>, all: set<string>)
    requires TableOk(t) && |all| <= |t|
    requires forall n <- l :: ValidName(n) && n in all
    requires forall n <- t :: n == "" || n in all
    ensures forall n <- l :: n in RegisterAll(t, l)
    decreases l
  {
    if l != [] {
      var n := l[0];
      assert n in l;
      var u := Register(t, n);
      RegisterOk(t, n);
      if Lookup(t, n) == |t| {
        DistinctSize(t);
        var used := Distinct(t);
        assert used <= all - {n};
        CardinalityBound(used, all - {n});
        assert false;
      }
      forall m <- u
        ensures m == "" || m in all
      {
        assert m == n || m in t;
      }
      RegisterAllCovers(u, l[1..], all);
      RegisterAllExtends(u, l[1..]);
      var k :| 0 <= k < |u| && u[k] == n;
      assert RegisterAll(t, l)[k] == n;
    }
  }

  lemma {:induction false} CardinalityBound(a: set<string>, b: set<string>)
    requires a <= b
    ensures |a| <= |b|
  {
    assert a + (b - a) == b;
  }

  lemma SmallClauseReaches(w: Clause)
    requires NamesFit(ClauseNames(w))
    ensures var t := RegisterAll(EMPTY_TABLE, ClauseNames(w));
            Reaches(EMPTY_TABLE, ClauseNames(w), t)
  {
    var l := ClauseNames(w);
    RegisterAllCovers(EMPTY_TABLE, l, Distinct(l));
    RegisterAllExtends(EMPTY_TABLE, l);
  }

  // ----- when the declared table suffices ---------------------------------------------------------

  /** The slot behind the declared table is in use. */
  predicate Overruns(t: seq<string>)
    requires |t| == LVM_MAX_VARIABLE_ID
  {
    t[DECLARED_VARIABLES] != ""
  }

  lemma {:induction false} SetSize(s: seq<string>)
    ensures |Distinct(s)| <= |s|
    decreases s
  {
    if s != [] {
      SetSize(s[1..]);
      assert Distinct(s) == {s[0]} + Distinct(s[1..]);
    }
  }

  /** A table that is not full has taken all the names, and no others. */
  lemma {:induction false} RegisteredExactly(t: seq<string>, l: seq<string>)
    requires TableOk(t) && |t| == LVM_MAX_VARIABLE_ID && forall n <- l :: ValidName(n)
    ensures forall n <- RegisterAll(t, l) :: n == "" || n in t || n in l
    ensures !Overruns(RegisterAll(t, l)) ==> forall n <- l :: n in RegisterAll(t, l)
    decreases l
  {
    if l != [] {
      var n := l[0];
      assert n in l && forall m <- l[1..] :: m in l;
      var u := Register(t, n);
      var v := RegisterAll(u, l[1..]);
      RegisterOk(t, n);
      RegisterAllExtends(u, l[1..]);
      RegisteredExactly(u, l[1..]);
      if !Overruns(v) {
        assert u[DECLARED_VARIABLES] == "";
        var k :| 0 <= k < |u| && u[k] == n;
        assert v[k] == n;
      }
    }
  }

  /** The slot behind the declared table is written iff the clause has more distinct names than
      the table has entries. */
  lemma TableOverrunIff(l: seq<string>)
    requires forall n <- l :: ValidName(n)
    ensures Overruns(RegisterAll(EMPTY_TABLE, l)) <==> |Distinct(l)| > DECLARED_VARIABLES
  {
    var t := RegisterAll(EMPTY_TABLE, l);
    RegisteredExactly(EMPTY_TABLE, l);
    RegisterAllExtends(EMPTY_TABLE, l);
    if Overruns(t) {
      DistinctSize(t);
      CardinalityBound(Distinct(t), Distinct(l));
    } else {
      SetSize(t[..DECLARED_VARIABLES]);
      assert Distinct(l) <= Distinct(t[..DECLARED_VARIABLES]) by {
        forall n <- l
          ensures n in t[..DECLARED_VARIABLES]
        {
          var k :| 0 <= k < |t| && t[k] == n;
          assert t[..DECLARED_VARIABLES][k] == n;
        }
      }
      CardinalityBound(Distinct(l), Distinct(t[..DECLARED_VARIABLES]));
    }
  }

  /** Where another name is looked up to: to the slot behind the declared table iff the names of
      the clause fill it. */
  lemma OtherName(l: seq<string>, name: string)
    requires (forall n <- l :: ValidName(n)) && !Overruns(RegisterAll(EMPTY_TABLE, l))
    ensures Lookup(RegisterAll(EMPTY_TABLE, l), name) == DECLARED_VARIABLES <==>
              name !in l && |Distinct(l)| == DECLARED_VARIABLES
  {
    var t := RegisterAll(EMPTY_TABLE, l);
    RegisteredExactly(EMPTY_TABLE, l);
    RegisterAllExtends(EMPTY_TABLE, l);
    if name in l {
      LookupStable(t, t, name);
      var k :| 0 <= k < |t| && t[k] == name;
    } else if t[DECLARED_VARIABLES - 1] != "" {
      NamesInFront(t, l, DECLARED_VARIABLES);
      DistinctSize(t[..DECLARED_VARIABLES]);
    } else {
      NamesInFront(t, l, DECLARED_VARIABLES - 1);
      SetSize(t[..DECLARED_VARIABLES - 1]);
    }
  }

  /** The names, when all of them are in the first `n` slots. */
  lemma NamesInFront(t: seq<string>, l: seq<string>, n: nat)
    requires n < |t| && t[n] == "" && TableOk(t) && (forall m <- l :: m != "" && m in t)
    requires forall m <- t :: m == "" || m in l
    ensures |Distinct(l)| <= |Distinct(t[..n])|
    ensures n > 0 && t[n - 1] != "" ==> Distinct(l) == Distinct(t[..n])
  {
    var front := t[..n];
    forall m <- l
      ensures m in front
    {
      var k :| 0 <= k < |t| && t[k] == m;
      assert front[k] == m;
    }
    assert forall m <- front :: m in t;
    CardinalityBound(Distinct(l), Distinct(front));
  }

  // ----- for which clauses the code is the code of the tree -------------------------------------

  lemma {:induction false} ChainCodeLength(t: seq<string>, c: Chain)
    ensures |EmitChain(t, c)| == |EncodeExpr(ChainTree(t, c))|
    decreases c, 0
  {
    OpsCodeLength(t, c.ops, Leaf(AtomOperand(t, c.first)), OperandNode(AtomOperand(t, c.first)));
  }

  lemma {:induction false} OpsCodeLength(t: seq<string>, ops: Ops, tree: Expr, left: seq<Cell>)
    ensures |EmitOps(t, ops, left)| - |left| == |EncodeExpr(OpsTree(t, ops, tree))| - |EncodeExpr(tree)|
    decreases ops, 0
  {
    match ops
    case Done =>
    case Step(op, arg, more) =>
      if arg.Paren? {
        ChainCodeLength(t, arg.c);
      }
      OpsCodeLength(t, more, Bin(op, tree, ArgTree(t, arg)), []);
  }

  lemma ConcatCancel(a: seq<Cell>, b: seq<Cell>, c: seq<Cell>, d: seq<Cell>)
    requires |a| == |c|
    ensures a + b == c + d <==> a == c && b == d
  {
    if a + b == c + d {
      assert a == (a + b)[..|a|] && b == (a + b)[|a|..];
      assert c == (c + d)[..|c|] && d == (c + d)[|c|..];
    }
  }

  lemma OneStepCode(t: seq<string>, first: Atom, op: Operator, arg: Arg)
    ensures var c := Chain(first, Step(op, arg, Done));
            var pre := OpNode(ARITH_OP, op) + OperandNode(AtomOperand(t, first));
            && EmitChain(t, c) == pre + EmitArg(t, arg)
            && EncodeExpr(ChainTree(t, c)) == pre + EncodeExpr(ArgTree(t, arg))
  {
    hide OpNode, OperandNode, EmitArg, ArgTree;
    var a := AtomOperand(t, first);
    var ops := Step(op, arg, Done);
    assert EmitOps(t, Done, []) == [];
    assert EmitOps(t, ops, OperandNode(a)) == OpNode(ARITH_OP, op) + OperandNode(a) + EmitArg(t, arg) + [];
    assert OpsTree(t, ops, Leaf(a)) == OpsTree(t, Done, Bin(op, Leaf(a), ArgTree(t, arg)));
  }

  lemma TwoStepCode(t: seq<string>, first: Atom, op: Operator, arg: Arg, more: Ops)
    requires more.Step?
    ensures var c := Chain(first, Step(op, arg, more));
            EmitChain(t, c) != EncodeExpr(ChainTree(t, c))
  {
    var a := AtomOperand(t, first);
    var c := Chain(first, Step(op, arg, more));
    var tree := OpsTree(t, more, Bin(op, Leaf(a), ArgTree(t, arg)));
    OpsTreeDeep(t, more, Bin(op, Leaf(a), ArgTree(t, arg)));
    assert ChainTree(t, c) == tree;
    assert EncodeExpr(tree)[OP_NODE] == EncodeExpr(tree.left)[0] == TypeHead(ARITH_OP);
    assert EmitChain(t, c)[OP_NODE] == OperandNode(a)[0] == TypeHead(OPERAND);
  }

  /** A chain compiles to the code of its tree iff no level of it has two operators. */
  lemma {:induction false} ChainCodeExact(t: seq<string>, c: Chain)
    ensures EmitChain(t, c) == EncodeExpr(ChainTree(t, c)) <==> OneOp(c)
    decreases c
  {
    hide OpNode, OperandNode;
    match c.ops
    case Done =>
    case Step(op, arg, more) =>
      if more.Done? {
        var pre := OpNode(ARITH_OP, op) + OperandNode(AtomOperand(t, c.first));
        OneStepCode(t, c.first, op, arg);
        ConcatCancel(pre, EmitArg(t, arg), pre, EncodeExpr(ArgTree(t, arg)));
        if arg.Paren? {
          ChainCodeExact(t, arg.c);
        }
      } else {
        TwoStepCode(t, c.first, op, arg, more);
      }
  }

  lemma {:induction false} OpsTreeDeep(t: seq<string>, ops: Ops, left: Expr)
    requires ops.Step? && left.Bin?
    ensures var tree := OpsTree(t, ops, left);
            tree.Bin? && tree.left.Bin?
    decreases ops
  {
    if ops.more.Step? {
      OpsTreeDeep(t, ops.more, Bin(ops.op, left, ArgTree(t, ops.arg)));
    }
  }

  lemma ComparisonCodeExact(t: seq<string>, c: Comparison)
    ensures var tree := Cmp(c.rel, ChainTree(t, c.lhs), ChainTree(t, c.rhs));
            && |EmitComparison(t, c)| == |Encode(tree)|
            && (EmitComparison(t, c) == Encode(tree) <==> OneOp(c.lhs) && OneOp(c.rhs))
  {
    var e1, e2 := EmitChain(t, c.lhs), EmitChain(t, c.rhs);
    var f1, f2 := EncodeExpr(ChainTree(t, c.lhs)), EncodeExpr(ChainTree(t, c.rhs));
    var op := OpNode(CMP_OP, c.rel);
    ChainCodeLength(t, c.lhs);
    ChainCodeLength(t, c.rhs);
    ChainCodeExact(t, c.lhs);
    ChainCodeExact(t, c.rhs);
    assert op + e1 + e2 == op + (e1 + e2);
    ConcatCancel(op, e1 + e2, op, f1 + f2);
    ConcatCancel(e1, e2, f1, f2);
  }

  /** A clause compiles to the code of its tree iff no arithmetic level of it has two operators. */
  lemma {:induction false} ClauseCodeExact(t: seq<string>, w: Clause)
    ensures |EmitClause(t, w)| == |Encode(ClauseTree(t, w))|
    ensures EmitClause(t, w) == Encode(ClauseTree(t, w)) <==> OneOpClause(w)
    decreases w
  {
    hide EmitComparison, OpNode, OneOp, ChainTree;
    ComparisonCodeExact(t, w.c);
    if w.Link? {
      ClauseCodeExact(t, w.rest);
      var op := OpNode(CMP_OP, w.conn);
      var e, f := EmitComparison(t, w.c), Encode(Cmp(w.c.rel, ChainTree(t, w.c.lhs), ChainTree(t, w.c.rhs)));
      var e2, f2 := EmitClause(t, w.rest), Encode(ClauseTree(t, w.rest));
      assert op + e + e2 == op + (e + e2);
      ConcatCancel(op, e + e2, op, f + f2);
      ConcatCancel(e, e2, f, f2);
    }
  }

  lemma {:induction false} ChainTreeValid(t: seq<string>, c: Chain)
    requires ValidChain(c)
    ensures ChainTree(t, c).Valid()
    decreases c, 0
  {
    OpsTreeValid(t, c.ops, Leaf(AtomOperand(t, c.first)));
  }

  lemma {:induction false} OpsTreeValid(t: seq<string>, ops: Ops, left: Expr)
    requires ValidOps(ops) && left.Valid()
    ensures OpsTree(t, ops, left).Valid()
    decreases ops, 0
  {
    if ops.Step? {
      if ops.arg.Paren? {
        ChainTreeValid(t, ops.arg.c);
      }
      OpsTreeValid(t, ops.more, Bin(ops.op, left, ArgTree(t, ops.arg)));
    }
  }

  lemma {:induction false} ClauseTreeValid(t: seq<string>, w: Clause)
    requires ValidClause(w)
    ensures ClauseTree(t, w).Valid()
    decreases w
  {
    ChainTreeValid(t, w.c.lhs);
    ChainTreeValid(t, w.c.rhs);
    if w.Link? {
      ClauseTreeValid(t, w.rest);
    }
  }

  /** lvm_reset: an empty buffer of `size` bytes and no variables. */
  function Fresh(pos: nat, size: nat): State {
    State(pos, pos, Buffer(seq(size, _ => Zero), 0, false, false), EMPTY_TABLE)
  }

  /**
    The main result.  A clause with at most one operator a level, few enough
    names and a large enough buffer compiles without error to code whose
    execution gives the meaning of the clause for every row, and which is
    consumed exactly.  It uses a slot behind the declared table of variables
    iff it has more distinct names than that has entries.
   */
  lemma CompiledClauseMeaning(ts: seq<Token>, pos: nat, size: nat, w: Clause, env: Env, vals: seq<long>)
    requires ValidClause(w) && OneOpClause(w) && NamesFit(ClauseNames(w))
    requires Has(ts, pos, ClauseTokens(w)) && Ends(ts, pos + |ClauseTokens(w)|)
    requires |EmitClause(EMPTY_TABLE, w)| < size
    requires Agree(RegisterAll(EMPTY_TABLE, ClauseNames(w)), vals, env, ClauseNames(w))
    ensures var (status, s) := ParseWhere(ts, Fresh(pos, size));
            && status.OK? && s.pos == pos + |ClauseTokens(w)|
            && !s.buf.error && !s.buf.fault
            && Run(s.buf.code, vals).status == ClauseTruth(env, w)
            && (!ClauseTruth(env, w).IsError() ==> Run(s.buf.code, vals).ip == s.buf.end)
            && |s.names| == LVM_MAX_VARIABLE_ID
            && (Overruns(s.names) <==> |Distinct(ClauseNames(w))| > DECLARED_VARIABLES)
  {
    hide Has, Ends, Run, ClauseTruth, ParseWhere, ClauseNames, Overruns, Agree, Covers, TableOk, Encode, EmitClause,
      ClauseTree, RegisterAll;
    TableOverrunIff(ClauseNames(w));
    var s0 := Fresh(pos, size);
    var t := RegisterAll(EMPTY_TABLE, ClauseNames(w));
    SmallClauseReaches(w);
    ClauseCodeExact(t, w);
    ClauseCodeExact(EMPTY_TABLE, w);
    CodeLengthTable(t, EMPTY_TABLE, w);
    WhereParse(ts, s0, w, t);
    var code := ParseWhere(ts, s0).1.buf.code;
    ClauseTreeValid(t, w);
    ExecuteMeaning(code, vals, ClauseTree(t, w));
    ClauseTreeTruth(t, vals, env, w);
  }

  lemma {:induction false} ChainLengthTable(t: seq<string>, u: seq<string>, c: Chain)
    ensures |EmitChain(t, c)| == |EmitChain(u, c)|
    decreases c, 0
  {
    OpsLengthTable(t, u, c.ops, OperandNode(AtomOperand(t, c.first)), OperandNode(AtomOperand(u, c.first)));
  }

  lemma {:induction false} OpsLengthTable(t: seq<string>, u: seq<string>, ops: Ops, a: seq<Cell>, b: seq<Cell>)
    requires |a| == |b|
    ensures |EmitOps(t, ops, a)| == |EmitOps(u, ops, b)|
    decreases ops, 0
  {
    if ops.Step? {
      if ops.arg.Paren? {
        ChainLengthTable(t, u, ops.arg.c);
      }
      OpsLengthTable(t, u, ops.more, [], []);
    }
  }

  /** The size of the code does not depend on the slots. */
  lemma {:induction false} CodeLengthTable(t: seq<string>, u: seq<string>, w: Clause)
    ensures |EmitClause(t, w)| == |EmitClause(u, w)|
    decreases w
  {
    ChainLengthTable(t, u, w.c.lhs);
    ChainLengthTable(t, u, w.c.rhs);
    if w.Link? {
      CodeLengthTable(t, u, w.rest);
    }
  }

  // ----- the texts outside that domain ----------------------------------------------------------

  /** The code of a op1 b op2 c rel d is also the code of (a op1 b) rel (c op2 d). */
  lemma SecondOperatorCode(t: seq<string>, a: long, op1: Operator, b: long, op2: Operator, c: long, rel: Operator,
                           d: long)
    ensures var lhs := Chain(Num(a), Step(op1, Simple(Num(b)), Step(op2, Simple(Num(c)), Done)));
            var w := Last(Comparison(lhs, rel, Chain(Num(d), Done)));
            EmitClause(t, w)
                == Encode(Cmp(rel, Bin(op1, Leaf(Long(a)), Leaf(Long(b))), Bin(op2, Leaf(Long(c)), Leaf(Long(d)))))
  {
    hide OpNode, OperandNode;
    var ops2 := Step(op2, Simple(Num(c)), Done);
    assert EmitOps(t, ops2, []) == OpNode(ARITH_OP, op2) + [] + OperandNode(Long(c)) + [];
    assert EmitOps(t, Step(op1, Simple(Num(b)), ops2), OperandNode(Long(a)))
        == OpNode(ARITH_OP, op1) + OperandNode(Long(a)) + OperandNode(Long(b)) + EmitOps(t, ops2, []);
    assert EmitChain(t, Chain(Num(d), Done)) == OperandNode(Long(d));
    assert EncodeExpr(Bin(op1, Leaf(Long(a)), Leaf(Long(b)))) == OpNode(ARITH_OP, op1)
        + (OperandNode(Long(a)) + OperandNode(Long(b)));
    assert EncodeExpr(Bin(op2, Leaf(Long(c)), Leaf(Long(d)))) == OpNode(ARITH_OP, op2)
        + (OperandNode(Long(c)) + OperandNode(Long(d)));
  }

  /** 5 + 3 - 2 < 7 is true, and its code executes as 5 + 3 < 2 - 7, which is false. */
  lemma SecondOperatorMisread(env: Env)
    ensures var lhs := Chain(Num(5), Step(ADD, Simple(Num(3)), Step(SUB, Simple(Num(2)), Done)));
            var w := Last(Comparison(lhs, LE, Chain(Num(7), Done)));
            && ClauseTruth(env, w) == TRUE
            && Run(EmitClause(EMPTY_TABLE, w), []).status == FALSE
  {
    hide EmitClause, Encode, Run;
    var lhs := Chain(Num(5), Step(ADD, Simple(Num(3)), Step(SUB, Simple(Num(2)), Done)));
    var w := Last(Comparison(lhs, LE, Chain(Num(7), Done)));
    var p := Cmp(LE, Bin(ADD, Leaf(Long(5)), Leaf(Long(3))), Bin(SUB, Leaf(Long(2)), Leaf(Long(7))));
    SecondOperatorCode(EMPTY_TABLE, 5, ADD, 3, SUB, 2, LE, 7);
    assert Arith(SUB, 8, 2) == (TRUE, 6) && Arith(ADD, 5, 3) == (TRUE, 8) && Arith(SUB, 2, 7) == (TRUE, -5);
    ExecuteMeaning(EmitClause(EMPTY_TABLE, w), [], p);
    assert OpsValue(env, Step(SUB, Simple(Num(2)), Done), (TRUE, 8)) == (TRUE, 6);
  }

  /** Where the parser of expressions stops, whatever the buffer and the table hold. */
  lemma {:induction false} ChainAccepted(ts: seq<Token>, s: State, c: Chain, closed: bool)
    requires ValidChain(c)
    requires Has(ts, s.pos, Tokens(c)) && Follows(ts, s.pos + |Tokens(c)|, closed)
    ensures var (r, s1) := ParseExpr(ts, s);
            r.OK? && s1.pos == s.pos + |Tokens(c)| + if closed then 1 else 0
    decreases c, 0
  {
    hide ParseExpr, ParseOps, Register, SetVariable;
    HasSplit(ts, s.pos, [AtomToken(c.first)], OpsTokens(c.ops));
    HasAt(ts, s.pos, [AtomToken(c.first)], 0);
    ParseExprPlain(ts, s);
    var s1 := ParseOperand(ts, Rewind(Next(ts, s).1)).1;
    OpsAccepted(ts, s1, c.ops, s.buf.end, closed);
  }

  lemma {:induction false} OpsAccepted(ts: seq<Token>, s: State, ops: Ops, savedEnd: nat, closed: bool)
    requires ValidOps(ops)
    requires Has(ts, s.pos, OpsTokens(ops)) && Follows(ts, s.pos + |OpsTokens(ops)|, closed)
    ensures var (r, s1) := ParseOps(ts, s, savedEnd);
            r.OK? && s1.pos == s.pos + |OpsTokens(ops)| + if closed then 1 else 0
    decreases ops, 0
  {
    hide Has, ParseOps, ParseExpr, ParseOperand, InsertOperator;
    match ops
    case Done =>
      ParseOpsLast(ts, s, savedEnd);
    case Step(op, arg, more) =>
      HasSplit(ts, s.pos, [ARITHMETIC(op)] + ArgTokens(arg), OpsTokens(more));
      HasSplit(ts, s.pos, [ARITHMETIC(op)], ArgTokens(arg));
      HasAt(ts, s.pos, [ARITHMETIC(op)], 0);
      ParseOpsTurn(ts, s, savedEnd);
      var (_, n) := Next(ts, s);
      ArgAccepted(ts, n, arg);
      var (r1, s1) := ParseOperand(ts, n);
      var (r2, s2) := if r1.IsError() then ParseExpr(ts, s1) else (r1, s1);
      var (b, end) := InsertOperator(s2.buf, savedEnd, ARITH_OP, op);
      OpsAccepted(ts, s2.(buf := b), more, end, closed);
  }

  lemma {:induction false} ArgAccepted(ts: seq<Token>, s: State, arg: Arg)
    requires arg.Paren? ==> ValidChain(arg.c)
    requires Has(ts, s.pos, ArgTokens(arg))
    ensures s.pos <= |ts|
    ensures var (r1, s1) := ParseOperand(ts, s);
            var (r, s2) := if r1.IsError() then ParseExpr(ts, s1) else (r1, s1);
            r.OK? && s2.pos == s.pos + |ArgTokens(arg)|
    decreases arg, 0
  {
    hide Has, ParseExpr, Register, SetVariable;
    match arg
    case Simple(a) =>
      HasAt(ts, s.pos, [AtomToken(a)], 0);
    case Paren(c) =>
      HasSplit(ts, s.pos, [LEFT_PAREN] + Tokens(c), [RIGHT_PAREN]);
      HasSplit(ts, s.pos, [LEFT_PAREN], Tokens(c));
      HasAt(ts, s.pos, [LEFT_PAREN], 0);
      HasAt(ts, s.pos + 1 + |Tokens(c)|, [RIGHT_PAREN], 0);
      ChainAccepted(ts, ParseOperand(ts, s).1, c, true);
  }

  /** A comparison cannot start with a parenthesis: the inner expression has already taken
      the closing one, so the clause is a syntax error unless a second one follows. */
  lemma LeftParenthesisRejected(ts: seq<Token>, s: State, c: Chain)
    requires ValidChain(c)
    requires Has(ts, s.pos, [LEFT_PAREN] + Tokens(c) + [RIGHT_PAREN])
    requires var after := s.pos + |Tokens(c)| + 2;
             after < |ts| ==> !ts[after].RIGHT_PAREN?
    ensures ParseWhere(ts, s).0 == SYNTAX_ERROR
  {
    hide ParseExpr, JumpToOperand, Put, Tokens, ValidChain;
    LeftParenthesisExpr(ts, s.(buf := JumpToOperand(s.buf).0), c);
  }

  lemma LeftParenthesisExpr(ts: seq<Token>, s: State, c: Chain)
    requires ValidChain(c)
    requires Has(ts, s.pos, [LEFT_PAREN] + Tokens(c) + [RIGHT_PAREN])
    requires var after := s.pos + |Tokens(c)| + 2;
             after < |ts| ==> !ts[after].RIGHT_PAREN?
    ensures ParseExpr(ts, s).0 == SYNTAX_ERROR
  {
    hide Has, Tokens, ParseOps;
    HasSplit(ts, s.pos, [LEFT_PAREN] + Tokens(c), [RIGHT_PAREN]);
    HasSplit(ts, s.pos, [LEFT_PAREN], Tokens(c));
    HasAt(ts, s.pos, [LEFT_PAREN], 0);
    HasAt(ts, s.pos + 1 + |Tokens(c)|, [RIGHT_PAREN], 0);
    ChainAccepted(ts, Next(ts, s).1, c, true);
  }

  /** With a second closing parenthesis it is accepted, though the text has one too many. */
  lemma DoubledParenthesisAccepted(ts: seq<Token>, s: State, c: Chain)
    requires ValidChain(c)
    requires Has(ts, s.pos, [LEFT_PAREN] + Tokens(c) + [RIGHT_PAREN] + [RIGHT_PAREN])
    requires Follows(ts, s.pos + |Tokens(c)| + 3, false)
    ensures ParseExpr(ts, s).0.OK? && ParseExpr(ts, s).1.pos == s.pos + |Tokens(c)| + 3
  {
    hide Has, Tokens, ParseOps;
    var after := s.pos + |Tokens(c)| + 2;
    HasSplit(ts, s.pos, [LEFT_PAREN] + Tokens(c) + [RIGHT_PAREN], [RIGHT_PAREN]);
    HasSplit(ts, s.pos, [LEFT_PAREN] + Tokens(c), [RIGHT_PAREN]);
    HasSplit(ts, s.pos, [LEFT_PAREN], Tokens(c));
    HasAt(ts, s.pos, [LEFT_PAREN], 0);
    HasAt(ts, after - 1, [RIGHT_PAREN], 0);
    HasAt(ts, after, [RIGHT_PAREN], 0);
    var n := Next(ts, s).1;
    ChainAccepted(ts, n, c, true);
    var s2 := Next(ts, ParseExpr(ts, n).1).1;
    ParseOpsLast(ts, s2, s.buf.end);
  }

  // ----- groups behind a connective --------------------------------------------------------------

  lemma ComparisonAccepted(ts: seq<Token>, s: State, c: Comparison, closed: bool)
    requires c.rel.IsRelation() && ValidChain(c.lhs) && ValidChain(c.rhs)
    requires Has(ts, s.pos, ComparisonTokens(c)) && Follows(ts, s.pos + |ComparisonTokens(c)|, closed)
    ensures var (r, s1) := ParseComparison(ts, s);
            r.OK? && s1.pos == s.pos + |ComparisonTokens(c)| + if closed then 1 else 0
  {
    hide Has, Tokens, ParseExpr, Put, JumpToOperand, OpNode, WhereCompiler.SetEnd;
    HasSplit(ts, s.pos, Tokens(c.lhs) + [COMPARISON(c.rel)], Tokens(c.rhs));
    HasSplit(ts, s.pos, Tokens(c.lhs), [COMPARISON(c.rel)]);
    HasAt(ts, s.pos + |Tokens(c.lhs)|, [COMPARISON(c.rel)], 0);
    var (b, savedEnd) := JumpToOperand(s.buf);
    ChainAccepted(ts, s.(buf := b), c.lhs, false);
    var s1 := ParseExpr(ts, s.(buf := b)).1;
    var (b1, end) := SetEnd(s1.buf, savedEnd);
    var s2 := Next(ts, s1.(buf := b1)).1;
    ChainAccepted(ts, s2.(buf := SetEnd(Put(s2.buf, OpNode(CMP_OP, c.rel)), end).0), c.rhs, closed);
  }

  /** The state in which the parser stands behind a clause, and behind a closing parenthesis that follows. */
  lemma {:induction false} LinkReaches(ts: seq<Token>, s: State, conn: Operator, rest: Clause, savedEnd: nat,
                                       closed: bool) returns (s1: State, end: nat)
    requires ValidClause(rest) && Has(ts, s.pos, [CONNECTIVE(conn)] + ClauseTokens(rest))
    requires Follows(ts, s.pos + 1 + |ClauseTokens(rest)|, closed)
    ensures s1.pos == s.pos + 1 + |ClauseTokens(rest)| + (if closed then 1 else 0) && s1.pos <= |ts|
    ensures s.pos <= |ts| && ParseConnectives(ts, s, savedEnd) == ParseConnectives(ts, s1, end)
    decreases rest
  {
    hide Has, ComparisonTokens, ParseComparison, ParseConnectives, InsertOperator;
    HasSplit(ts, s.pos, [CONNECTIVE(conn)], ClauseTokens(rest));
    HasAt(ts, s.pos, [CONNECTIVE(conn)], 0);
    ClauseStart(ts, s.pos + 1, rest);
    ParseConnectivesTurn(ts, s, savedEnd);
    var n := Next(ts, s).1;
    var (b, e) := InsertOperator(n.buf, savedEnd, CMP_OP, conn);
    var t := n.(buf := b, prev := n.pos);
    match rest
    case Last(c) =>
      ComparisonAccepted(ts, t, c, closed);
      s1, end := ParseComparison(ts, t).1, e;
    case Link(c, conn2, rest2) =>
      LinkSplit(ts, t.pos, c, conn2, rest2);
      ComparisonAccepted(ts, t, c, false);
      s1, end := LinkReaches(ts, ParseComparison(ts, t).1, conn2, rest2, e, closed);
  }

  lemma ClauseReaches(ts: seq<Token>, s: State, w: Clause, closed: bool) returns (s1: State, end: nat)
    requires ValidClause(w) && Has(ts, s.pos, ClauseTokens(w)) && Follows(ts, s.pos + |ClauseTokens(w)|, closed)
    ensures s1.pos == s.pos + |ClauseTokens(w)| + (if closed then 1 else 0) && s1.pos <= |ts|
    ensures s.pos <= |ts| && ParseWhere(ts, s) == ParseConnectives(ts, s1, end)
  {
    hide Has, ComparisonTokens, ParseComparison, ParseConnectives;
    match w
    case Last(c) =>
      ComparisonAccepted(ts, s, c, closed);
      s1, end := ParseComparison(ts, s).1, 0;
    case Link(c, conn, rest) =>
      LinkSplit(ts, s.pos, c, conn, rest);
      ComparisonAccepted(ts, s, c, false);
      s1, end := LinkReaches(ts, ParseComparison(ts, s).1, conn, rest, 0, closed);
  }

  /** ParseConnectives unfolded once, in front of a group. */
  lemma GroupTurn(ts: seq<Token>, s: State, savedEnd: nat) returns (s2: State, end: nat)
    requires s.pos + 1 < |ts| && ts[s.pos].CONNECTIVE? && ts[s.pos + 1].LEFT_PAREN?
    ensures s2.pos == s.pos + 2
    ensures var (r3, s3) := ParseWhere(ts, s2);
            var (t4, s4) := Next(ts, s3);
            ParseConnectives(ts, s, savedEnd)
            == if r3.IsError() then (SYNTAX_ERROR, s3)
               else if !t4.RIGHT_PAREN? then (SYNTAX_ERROR, s4) else ParseConnectives(ts, s4, end)
  {
    hide ParseWhere, InsertOperator;
    var n := Next(ts, s).1;
    var (b, e) := InsertOperator(n.buf, savedEnd, CMP_OP, ts[s.pos].conn);
    s2, end := Next(ts, n.(buf := b)).1, e;
  }

  /** Where the text has a group behind the clause `w`. */
  predicate Grouped(ts: seq<Token>, pos: nat, w: Clause, conn: Operator, group: Clause) {
    && ValidClause(w) && ValidClause(group)
    && Has(ts, pos, ClauseTokens(w) + [CONNECTIVE(conn), LEFT_PAREN] + ClauseTokens(group) + [RIGHT_PAREN])
  }

  lemma GroupParts(ts: seq<Token>, pos: nat, w: Clause, conn: Operator, group: Clause)
    requires Grouped(ts, pos, w, conn, group)
    ensures var at := pos + |ClauseTokens(w)|;
            && Has(ts, pos, ClauseTokens(w)) && at + 1 < |ts| && ts[at] == CONNECTIVE(conn) && ts[at + 1].LEFT_PAREN?
            && Has(ts, at + 2, ClauseTokens(group))
            && at + 2 + |ClauseTokens(group)| < |ts| && ts[at + 2 + |ClauseTokens(group)|].RIGHT_PAREN?
  {
    hide ClauseTokens, Has;
    var a, b, c := ClauseTokens(w), [CONNECTIVE(conn), LEFT_PAREN], ClauseTokens(group);
    HasSplit(ts, pos, a + b + c, [RIGHT_PAREN]);
    HasSplit(ts, pos, a + b, c);
    HasSplit(ts, pos, a, b);
    HasAt(ts, pos + |a|, b, 0);
    HasAt(ts, pos + |a|, b, 1);
    HasAt(ts, pos + |a + b + c|, [RIGHT_PAREN], 0);
  }

  /** Behind the closing parenthesis of a group. */
  function PastGroup(pos: nat, w: Clause, group: Clause): nat { pos + |ClauseTokens(w)| + |ClauseTokens(group)| + 3 }

  /** The parser in front of a group: it parses the group up to `s3`, behind its closing parenthesis, and then
      looks for one more. */
  lemma GroupReaches(ts: seq<Token>, s: State, w: Clause, conn: Operator, group: Clause)
    returns (s3: State, end3: nat, end: nat)
    requires Grouped(ts, s.pos, w, conn, group)
    ensures s.pos <= |ts| && s3.pos == PastGroup(s.pos, w, group) <= |ts|
    ensures var (r5, s5) := ParseConnectives(ts, s3, end3);
            var (t4, s4) := Next(ts, s5);
            ParseWhere(ts, s)
            == if r5.IsError() then (SYNTAX_ERROR, s5)
               else if !t4.RIGHT_PAREN? then (SYNTAX_ERROR, s4) else ParseConnectives(ts, s4, end)
  {
    hide ParseWhere, ParseConnectives, ClauseTokens, Has, Grouped, ValidClause, WhereCompiler.Next;
    GroupParts(ts, s.pos, w, conn, group);
    GroupValid(ts, s.pos, w, conn, group);
    var s1, end1 := ClauseReaches(ts, s, w, false);
    var s2, end2 := GroupTurn(ts, s1, end1);
    s3, end3 := ClauseReaches(ts, s2, group, true);
    end := end2;
  }

  lemma GroupValid(ts: seq<Token>, pos: nat, w: Clause, conn: Operator, group: Clause)
    requires Grouped(ts, pos, w, conn, group)
    ensures ValidClause(w) && ValidClause(group)
  {
  }

  predicate NoneCloses(ts: seq<Token>, pos: nat) {
    forall i :: pos <= i < |ts| ==> !ts[i].RIGHT_PAREN?
  }

  lemma NextCloses(ts: seq<Token>, pos: nat, s: State)
    requires NoneCloses(ts, pos) && pos <= s.pos <= |ts|
    ensures !Next(ts, s).0.RIGHT_PAREN?
  {
  }

  /** A group behind a connective is a syntax error, whatever it holds and whatever follows, unless a second
      closing parenthesis follows somewhere: its last expression has already taken the first one. */
  lemma GroupRejected(ts: seq<Token>, s: State, w: Clause, conn: Operator, group: Clause)
    requires Grouped(ts, s.pos, w, conn, group) && NoneCloses(ts, PastGroup(s.pos, w, group))
    ensures s.pos <= |ts| && ParseWhere(ts, s).0 == SYNTAX_ERROR
  {
    hide ParseWhere, ParseConnectives, Grouped, WhereCompiler.Next, NoneCloses, PastGroup;
    var s3, end3, end := GroupReaches(ts, s, w, conn, group);
    NextCloses(ts, s3.pos, ParseConnectives(ts, s3, end3).1);
  }

  /** With a second one right behind the first, and nothing of the clause behind that, it is accepted. */
  lemma DoubledGroupAccepted(ts: seq<Token>, s: State, w: Clause, conn: Operator, group: Clause)
    requires Grouped(ts, s.pos, w, conn, group)
    requires var after := PastGroup(s.pos, w, group); after < |ts| && ts[after].RIGHT_PAREN? && Ends(ts, after + 1)
    ensures s.pos <= |ts| && ParseWhere(ts, s).0 == OK
    ensures ParseWhere(ts, s).1.pos == PastGroup(s.pos, w, group) + 1
  {
    hide ParseWhere, ParseConnectives, Grouped, PastGroup;
    var s3, end3, end := GroupReaches(ts, s, w, conn, group);
    ParseConnectivesLast(ts, s3, end3);
    var s4 := Next(ts, ParseConnectives(ts, s3, end3).1).1;
    ParseConnectivesLast(ts, s4, end);
  }

  // ----- which malformed clauses are reported ------------------------------------------------------

  /** From `pos` on no connective is directly followed by a parenthesis. */
  predicate NoGroups(ts: seq<Token>, pos: nat) {
    forall i :: pos <= i < |ts| - 1 && ts[i].CONNECTIVE? ==> !ts[i + 1].LEFT_PAREN?
  }

  lemma {:induction false} ConnectivesAccept(ts: seq<Token>, s: State, savedEnd: nat)
    requires s.pos <= |ts| && NoGroups(ts, s.pos)
    ensures !ParseConnectives(ts, s, savedEnd).0.IsError()
    decreases |ts| - s.pos
  {
    hide ParseComparison, InsertOperator;
    var (t, n) := Next(ts, s);
    if t.CONNECTIVE? {
      var (b, end) := InsertOperator(n.buf, savedEnd, CMP_OP, t.conn);
      var (t2, s2) := Next(ts, n.(buf := b));
      assert !t2.LEFT_PAREN?;
      var (r3, s3) := ParseComparison(ts, Rewind(s2));
      if !r3.IsError() {
        ConnectivesAccept(ts, s3, end);
      }
    }
  }

  /** An error is reported iff the first comparison is malformed: behind a connective anything is
      accepted that does not begin with a parenthesis, whatever buffer and table hold. */
  lemma WhereErrorIff(ts: seq<Token>, s: State)
    requires s.pos <= |ts| && NoGroups(ts, s.pos)
    ensures ParseWhere(ts, s).0.IsError() <==> ParseComparison(ts, s).0.IsError()
  {
    hide ParseComparison, ParseConnectives;
    var (r, s1) := ParseComparison(ts, s);
    if !r.IsError() {
      ConnectivesAccept(ts, s1, 0);
    }
  }

  /** The clause 1 = 1 with a connective and nothing behind it. */
  function Dangling(conn: Operator): seq<Token> {
    [INTEGER_VALUE(1), COMPARISON(EQ), INTEGER_VALUE(1), CONNECTIVE(conn)]
  }

  lemma NumberExpr(ts: seq<Token>, s: State)
    requires s.pos + 1 < |ts| && ts[s.pos].INTEGER_VALUE?
    requires !ts[s.pos + 1].RIGHT_PAREN? && !ts[s.pos + 1].ARITHMETIC?
    ensures ParseExpr(ts, s).0.OK? && ParseExpr(ts, s).1.pos == s.pos + 1
  {
    hide Put, InsertOperator;
  }

  lemma NothingThere(ts: seq<Token>, s: State)
    requires s.pos == |ts|
    ensures ParseComparison(ts, s).0.IsError()
  {
    hide Put, JumpToOperand;
    var t := s.(buf := JumpToOperand(s.buf).0);
    assert ParseOperand(ts, Rewind(Next(ts, t).1)).0.IsError();
    assert ParseExpr(ts, t).0.IsError();
  }

  lemma DanglingComparison(s: State, conn: Operator)
    requires s.pos == 0
    ensures var (r, s1) := ParseComparison(Dangling(conn), s); r.OK? && s1.pos == 3
  {
    hide ParseExpr, Put, JumpToOperand, WhereCompiler.SetEnd;
    var ts := Dangling(conn);
    var (b, savedEnd) := JumpToOperand(s.buf);
    NumberExpr(ts, s.(buf := b));
    var s1 := ParseExpr(ts, s.(buf := b)).1;
    var (b1, end) := SetEnd(s1.buf, savedEnd);
    var s2 := Next(ts, s1.(buf := b1)).1;
    NumberExpr(ts, s2.(buf := SetEnd(Put(s2.buf, OpNode(CMP_OP, EQ)), end).0));
  }

  /** Such a clause counts as no error. */
  lemma DanglingAccepted(s: State, conn: Operator)
    requires s.pos == 0
    ensures ParseWhere(Dangling(conn), s).0 == ZERO && !ParseWhere(Dangling(conn), s).0.IsError()
  {
    hide ParseComparison, InsertOperator;
    var ts := Dangling(conn);
    DanglingComparison(s, conn);
    var s1 := ParseComparison(ts, s).1;
    var n := Next(ts, s1).1;
    var s2 := Rewind(Next(ts, n.(buf := InsertOperator(n.buf, 0, CMP_OP, conn).0)).1);
    NothingThere(ts, s2);
  }
}
