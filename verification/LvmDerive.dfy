/**
  Deriving value ranges from a predicate (create_intersection, create_union,
  derive_relation and lvm_derive in apps/antelope/lvm.c).

  The machine reads its own code again, this time without values, and computes
  for every variable a range outside which the predicate cannot be true.  The
  code takes every comparison for `variable op constant` and keeps the range of
  a variable that only one side of an OR constrains.  The lemmas below say for
  which predicates the result is nevertheless sound, and for which it is exact.
 */
module LvmDerive {
  import opened Segments
  import opened Lvm

  datatype Range = Range(derived: bool, min: long, max: long)

  /** The zeroed table that a derivation starts from. */
  const NO_RANGES: seq<Range> := [Range(false, 0, 0), Range(false, 0, 0), Range(false, 0, 0), Range(false, 0, 0)]

  predicate Table(d: seq<Range>) { |d| == LVM_MAX_VARIABLE_ID }

  /** One entry of create_intersection. */
  function Intersect(prior: Range, a: Range, b: Range): Range {
    if !a.derived && !b.derived then prior
    else if !b.derived then Range(true, a.min, a.max)
    else if !a.derived then Range(true, b.min, b.max)
    else Range(true, if a.min > b.min then a.min else b.min, if a.max < b.max then a.max else b.max)
  }

  /** One entry of create_union: a range that only one side derived is kept as it is. */
  function Unite(prior: Range, a: Range, b: Range): Range {
    if !a.derived && !b.derived then prior
    else if !b.derived then Range(true, a.min, a.max)
    else if !a.derived then Range(true, b.min, b.max)
    else Range(true, if a.min > b.min then b.min else a.min, if a.max < b.max then b.max else a.max)
  }

  function Combine(op: Operator, prior: Range, a: Range, b: Range): Range {
    if op.AND? then Intersect(prior, a, b) else Unite(prior, a, b)
  }

  function CombineAll(op: Operator, d: seq<Range>, a: seq<Range>, b: seq<Range>): (r: seq<Range>)
    requires Table(d) && Table(a) && Table(b)
    ensures Table(r) && forall i :: 0 <= i < |r| ==> r[i] == Combine(op, d[i], a[i], b[i])
  {
    seq(LVM_MAX_VARIABLE_ID, i requires 0 <= i < LVM_MAX_VARIABLE_ID => Combine(op, d[i], a[i], b[i]))
  }

  /** The range of `variable rel constant`; nothing for a relation that gives no range. */
  function RelationRange(rel: Operator, value: long): Range {
    match rel
    case EQ => Range(true, value, value)
    case GE => Range(true, Wrap(value + 1), LONG_MAX)
    case GEQ => Range(true, value, LONG_MAX)
    case LE => Range(true, LONG_MIN, Wrap(value - 1))
    case LEQ => Range(true, LONG_MIN, value)
    case _ => Range(false, LONG_MIN, LONG_MAX)
  }

  /** The low byte of the value field, whatever was stored in it. */
  function IdField(x: Operand): nat {
    match x
    case Variable(id) => id
    case Long(l) => l % 256
    case NoOperand => 0
  }

  function LongField(x: Operand): long {
    match x
    case Long(l) => l
    case _ => 0
  }

  /** The comparison case of derive_relation: a second operand stands for the variable
      as soon as the first one is none. */
  function DeriveComparison(rel: Operator, x: Operand, y: Operand, d: seq<Range>): (r: (Status, seq<Range>))
    requires Table(d)
    ensures Table(r.1)
  {
    if x.Variable? && y.Variable? then (DERIVATION_ERROR, d) else
    var id := if x.Variable? then x.id else IdField(y);
    var value := if x.Variable? then LongField(y) else LongField(x);
    if id >= LVM_MAX_VARIABLE_ID then (DERIVATION_ERROR, d) else
    var range := RelationRange(rel, value);
    if range.derived then (TRUE, d[id := range])
    else (DERIVATION_ERROR, d[id := range.(derived := d[id].derived)])
  }

  /** derive_relation on an arbitrary buffer: status, table and next position. */
  function Derive(code: seq<Cell>, ip: nat, d: seq<Range>): (r: (Status, seq<Range>, nat))
    requires Table(d)
    ensures Table(r.1) && r.2 >= ip
    decreases Left(code, ip)
  {
    var op := ReadOperator(code, ip + SIZEOF_NODE_TYPE);
    var next := ip + SIZEOF_NODE_TYPE + SIZEOF_OPERATOR;
    if op.IsConnective() then
      if op.NOT? then (DERIVATION_ERROR, d, next) else
      var a := Derive(code, next, NO_RANGES);
      if a.0.IsError() then (DERIVATION_ERROR, d, a.2) else
      var b := Derive(code, a.2, NO_RANGES);
      if b.0.IsError() then (DERIVATION_ERROR, d, b.2) else
      (TRUE, CombineAll(op, d, a.1, b.1), b.2)
    else
      DeriveOperands(code, next, op, d)
  }

  /** The two operands of a comparison; anything but an operand ends the derivation. */
  function DeriveOperands(code: seq<Cell>, ip: nat, op: Operator, d: seq<Range>): (r: (Status, seq<Range>, nat))
    requires Table(d)
    ensures Table(r.1) && r.2 >= ip
  {
    if ReadType(code, ip) != OPERAND then (DERIVATION_ERROR, d, ip + SIZEOF_NODE_TYPE) else
    var second := ip + SIZEOF_NODE_TYPE + SIZEOF_OPERAND;
    if ReadType(code, second) != OPERAND then (DERIVATION_ERROR, d, second + SIZEOF_NODE_TYPE) else
    var x := ReadOperand(code, ip + SIZEOF_NODE_TYPE);
    var y := ReadOperand(code, second + SIZEOF_NODE_TYPE);
    var (status, r) := DeriveComparison(op, x, y, d);
    (status, r, second + SIZEOF_NODE_TYPE + SIZEOF_OPERAND)
  }

  // ----- the same on syntax trees -----------------------------------------------------------

  function DeriveTree(p: Pred, d: seq<Range>): (r: (Status, seq<Range>))
    requires Table(d)
    ensures Table(r.1)
  {
    match p
    case Cmp(rel, a, b) =>
      if a.Leaf? && b.Leaf? then DeriveComparison(rel, a.x, b.x, d) else (DERIVATION_ERROR, d)
    case Both(op, l, r) =>
      var a := DeriveTree(l, NO_RANGES);
      if a.0.IsError() then (DERIVATION_ERROR, d) else
      var b := DeriveTree(r, NO_RANGES);
      if b.0.IsError() then (DERIVATION_ERROR, d) else
      (TRUE, CombineAll(op, d, a.1, b.1))
    case Neg(_) => (DERIVATION_ERROR, d)
  }

  lemma LeafType(code: seq<Cell>, ip: nat, e: Expr)
    requires Has(code, ip, EncodeExpr(e))
    ensures ReadType(code, ip) == if e.Leaf? then OPERAND else ARITH_OP
    ensures e.Leaf? ==> ReadOperand(code, ip + SIZEOF_NODE_TYPE) == e.x
  {
    match e
    case Leaf(x) => ReadOperandNode(code, ip, x);
    case Bin(op, l, r) => ReadHead(code, ip, ARITH_OP, op, EncodeExpr(l) + EncodeExpr(r));
  }

  /** On the code of a predicate the machine derives what its tree derives. */
  lemma {:induction false} DeriveMeaning(code: seq<Cell>, ip: nat, p: Pred, d: seq<Range>)
    requires p.Valid() && Table(d) && Has(code, ip, Encode(p))
    ensures var r := Derive(code, ip, d);
            && (r.0, r.1) == DeriveTree(p, d)
            && (!r.0.IsError() ==> r.2 == ip + |Encode(p)|)
    decreases p
  {
    hide Has, OpNode, DeriveComparison, CombineAll, EncodeExpr;
    var args := ip + SIZEOF_NODE_TYPE + SIZEOF_OPERATOR;
    match p
    case Cmp(rel, a, b) =>
      ReadHead(code, ip, CMP_OP, rel, EncodeExpr(a) + EncodeExpr(b));
      HasSplit(code, args, EncodeExpr(a), EncodeExpr(b));
      LeafType(code, args, a);
      if a.Leaf? {
        assert |EncodeExpr(a)| == SIZEOF_NODE_TYPE + SIZEOF_OPERAND by { LeafLength(a); }
        LeafType(code, args + |EncodeExpr(a)|, b);
        LeafLength(b);
      }
    case Both(op, l, r) =>
      ReadHead(code, ip, CMP_OP, op, Encode(l) + Encode(r));
      HasSplit(code, args, Encode(l), Encode(r));
      DeriveMeaning(code, args, l, NO_RANGES);
      DeriveMeaning(code, args + |Encode(l)|, r, NO_RANGES);
    case Neg(q) =>
      ReadHead(code, ip, CMP_OP, NOT, Encode(q));
  }

  lemma LeafLength(e: Expr)
    ensures e.Leaf? ==> |EncodeExpr(e)| == SIZEOF_NODE_TYPE + SIZEOF_OPERAND
  {
  }

  // ----- soundness ----------------------------------------------------------------------------

  /** The shape the derivation expects: AND and OR of comparisons `variable op constant`. */
  predicate VariableFirst(p: Pred) {
    match p
    case Cmp(rel, a, b) => rel.IsRelation() && a.Leaf? && b.Leaf? && a.x.Variable? && b.x.Long?
    case Both(op, l, r) => (op.AND? || op.OR?) && VariableFirst(l) && VariableFirst(r)
    case Neg(_) => false
  }

  function Vars(p: Pred): set<nat>
    requires VariableFirst(p)
  {
    match p
    case Cmp(_, a, _) => {a.x.id}
    case Both(_, l, r) => Vars(l) + Vars(r)
  }

  /** Both sides of every OR constrain the same variables. */
  predicate Balanced(p: Pred)
    requires VariableFirst(p)
  {
    match p
    case Cmp(_, _, _) => true
    case Both(op, l, r) => Balanced(l) && Balanced(r) && (op.OR? ==> Vars(l) == Vars(r))
  }

  predicate Derivable(p: Pred) { DeriveTree(p, NO_RANGES).0 == TRUE }

  function Ranges(p: Pred): seq<Range> { DeriveTree(p, NO_RANGES).1 }

  predicate Row(vals: seq<long>) { |vals| == LVM_MAX_VARIABLE_ID }

  predicate In(v: long, r: Range) { r.derived ==> r.min <= v <= r.max }

  predicate InRanges(vals: seq<long>, d: seq<Range>)
    requires Row(vals) && Table(d)
  {
    forall i :: 0 <= i < |d| ==> In(vals[i], d[i])
  }

  ghost predicate Sound(p: Pred) {
    forall vals: seq<long> :: Row(vals) && Truth(vals, p) == TRUE ==> InRanges(vals, Ranges(p))
  }

  /** Exactly the variables that occur get a range, and nothing can go wrong at run time. */
  lemma {:induction false} DerivedVars(p: Pred)
    requires VariableFirst(p) && Derivable(p)
    ensures forall i :: 0 <= i < LVM_MAX_VARIABLE_ID ==> (Ranges(p)[i].derived <==> i in Vars(p))
    ensures forall i <- Vars(p) :: i < LVM_MAX_VARIABLE_ID
    ensures forall vals: seq<long> :: !Truth(vals, p).IsError()
    decreases p
  {
    if p.Both? {
      DerivedVars(p.left);
      DerivedVars(p.right);
    }
  }

  lemma ComparisonSound(p: Pred, vals: seq<long>)
    requires VariableFirst(p) && Derivable(p) && p.Cmp? && Row(vals)
    requires Truth(vals, p) == TRUE
    ensures InRanges(vals, Ranges(p))
  {
    var v, c := vals[p.lhs.x.id], p.rhs.x.l;
    assert Compare(p.rel, v, c) == TRUE;
  }

  lemma UnionContains(a: seq<Range>, b: seq<Range>, vals: seq<long>)
    requires Table(a) && Table(b) && Row(vals)
    requires forall i :: 0 <= i < |a| ==> a[i].derived == b[i].derived
    requires InRanges(vals, a) || InRanges(vals, b)
    ensures InRanges(vals, CombineAll(OR, NO_RANGES, a, b))
  {
    var d := CombineAll(OR, NO_RANGES, a, b);
    assert forall i :: 0 <= i < |d| ==> (In(vals[i], a[i]) || In(vals[i], b[i]) ==> In(vals[i], d[i]));
  }

  /** Range derivation is sound when both sides of every OR constrain the same variables. */
  lemma {:induction false} BalancedSound(p: Pred, vals: seq<long>)
    requires VariableFirst(p) && Derivable(p) && Balanced(p) && Row(vals)
    requires Truth(vals, p) == TRUE
    ensures InRanges(vals, Ranges(p))
    decreases p
  {
    hide CombineAll, InRanges;
    if p.Cmp? {
      ComparisonSound(p, vals);
    } else {
      DerivedVars(p.left);
      DerivedVars(p.right);
      if Truth(vals, p.left) == TRUE {
        BalancedSound(p.left, vals);
      }
      if Truth(vals, p.right) == TRUE {
        BalancedSound(p.right, vals);
      }
      if p.op.AND? {
        IntersectionExact(Ranges(p.left), Ranges(p.right), vals);
      } else {
        UnionContains(Ranges(p.left), Ranges(p.right), vals);
      }
    }
  }

  /** No strict comparison with the end of the number range, where the bound wraps around. */
  predicate NoWrap(p: Pred)
    requires VariableFirst(p)
  {
    match p
    case Cmp(rel, _, b) => (rel.GE? ==> b.x.l != LONG_MAX) && (rel.LE? ==> b.x.l != LONG_MIN)
    case Both(_, l, r) => NoWrap(l) && NoWrap(r)
  }

  predicate Conjunction(p: Pred)
    requires VariableFirst(p)
  {
    match p
    case Cmp(_, _, _) => true
    case Both(op, l, r) => op.AND? && Conjunction(l) && Conjunction(r)
  }

  lemma ComparisonExact(p: Pred, vals: seq<long>)
    requires VariableFirst(p) && Derivable(p) && p.Cmp? && NoWrap(p) && Row(vals)
    ensures Truth(vals, p) == TRUE <==> InRanges(vals, Ranges(p))
  {
    var id, c := p.lhs.x.id, p.rhs.x.l;
    assert In(vals[id], Ranges(p)[id]) <==> Compare(p.rel, vals[id], c) == TRUE;
  }

  lemma IntersectionExact(a: seq<Range>, b: seq<Range>, vals: seq<long>)
    requires Table(a) && Table(b) && Row(vals)
    ensures InRanges(vals, CombineAll(AND, NO_RANGES, a, b)) <==> InRanges(vals, a) && InRanges(vals, b)
  {
    var d := CombineAll(AND, NO_RANGES, a, b);
    assert forall i :: 0 <= i < |d| ==> (In(vals[i], d[i]) <==> In(vals[i], a[i]) && In(vals[i], b[i]));
  }

  /** For a conjunction the ranges say exactly when the predicate is true. */
  lemma {:induction false} ConjunctionExact(p: Pred, vals: seq<long>)
    requires VariableFirst(p) && Derivable(p) && Conjunction(p) && NoWrap(p) && Row(vals)
    ensures Truth(vals, p) == TRUE <==> InRanges(vals, Ranges(p))
    decreases p
  {
    hide CombineAll, InRanges;
    if p.Both? {
      DerivedVars(p);
      ConjunctionExact(p.left, vals);
      ConjunctionExact(p.right, vals);
      DerivedVars(p.left);
      DerivedVars(p.right);
      IntersectionExact(Ranges(p.left), Ranges(p.right), vals);
    } else {
      ComparisonExact(p, vals);
    }
  }

  predicate Empty(r: Range) { r.derived && r.min > r.max }

  predicate SomeEmpty(d: seq<Range>) { exists i :: 0 <= i < |d| && Empty(d[i]) }

  /** A strict comparison with the end of the number range makes a conjunction false everywhere. */
  lemma {:induction false} WrapNeverTrue(p: Pred, vals: seq<long>)
    requires VariableFirst(p) && Derivable(p) && Conjunction(p) && !NoWrap(p) && Row(vals)
    ensures Truth(vals, p) != TRUE
    decreases p
  {
    if p.Both? {
      DerivedVars(p.left);
      DerivedVars(p.right);
      if !NoWrap(p.left) {
        WrapNeverTrue(p.left, vals);
      } else {
        WrapNeverTrue(p.right, vals);
      }
    }
  }

  /** The lower corner of the derived ranges. */
  function Corner(d: seq<Range>): (low: seq<long>)
    requires Table(d)
    ensures Row(low) && forall i :: 0 <= i < |low| ==> low[i] == d[i].min
  {
    seq(LVM_MAX_VARIABLE_ID, i requires 0 <= i < |d| => d[i].min)
  }

  lemma CornerIn(d: seq<Range>)
    requires Table(d)
    ensures InRanges(Corner(d), d) <==> !SomeEmpty(d)
  {
  }

  /**
    For a conjunction the ranges say exactly when the predicate is true if and only if it has
    no strict comparison with the end of the number range, or some range is empty anyway: the
    bound behind such an end wraps around to a range of everything.
   */
  lemma ConjunctionExactIff(p: Pred)
    requires VariableFirst(p) && Derivable(p) && Conjunction(p)
    ensures (forall vals: seq<long> :: Row(vals) ==> (Truth(vals, p) == TRUE <==> InRanges(vals, Ranges(p))))
              <==> NoWrap(p) || SomeEmpty(Ranges(p))
  {
    hide InRanges, Truth, NoWrap, DeriveTree;
    var d := Ranges(p);
    CornerIn(d);
    if !NoWrap(p) {
      WrapNeverTrue(p, Corner(d));
    }
    forall vals: seq<long> | Row(vals) && (NoWrap(p) || SomeEmpty(d))
      ensures Truth(vals, p) == TRUE <==> InRanges(vals, d)
    {
      if NoWrap(p) {
        ConjunctionExact(p, vals);
      } else {
        WrapNeverTrue(p, vals);
        EmptyHolds(d, vals);
      }
    }
  }

  lemma EmptyHolds(d: seq<Range>, vals: seq<long>)
    requires Table(d) && Row(vals) && SomeEmpty(d)
    ensures !InRanges(vals, d)
  {
  }

  /** a > LONG_MAX is never true, but its range is everything. */
  lemma StrictEndInexact()
    ensures var p := Cmp(GE, Leaf(Variable(0)), Leaf(Long(LONG_MAX)));
            && VariableFirst(p) && Derivable(p) && !NoWrap(p)
            && Truth([0, 0, 0, 0], p) == FALSE && InRanges([0, 0, 0, 0], Ranges(p))
  {
    var p := Cmp(GE, Leaf(Variable(0)), Leaf(Long(LONG_MAX)));
    assert Ranges(p) == NO_RANGES[0 := Range(true, LONG_MIN, LONG_MAX)];
  }

  ghost predicate Satisfiable(p: Pred) {
    exists vals: seq<long> :: Row(vals) && Truth(vals, p) == TRUE
  }

  /** A conjunction can be true iff it has no strict comparison with the end of the number range
      and none of its ranges is empty. */
  lemma ConjunctionSatisfiable(p: Pred)
    requires VariableFirst(p) && Derivable(p) && Conjunction(p)
    ensures Satisfiable(p) <==> NoWrap(p) && !SomeEmpty(Ranges(p))
    ensures NoWrap(p) && !SomeEmpty(Ranges(p)) ==> Truth(Corner(Ranges(p)), p) == TRUE
  {
    hide InRanges, Truth, NoWrap, DeriveTree;
    var d := Ranges(p);
    CornerIn(d);
    if Satisfiable(p) {
      var vals: seq<long> :| Row(vals) && Truth(vals, p) == TRUE;
      if !NoWrap(p) {
        WrapNeverTrue(p, vals);
      } else {
        ConjunctionExact(p, vals);
        if SomeEmpty(d) {
          EmptyHolds(d, vals);
        }
      }
    }
    if NoWrap(p) && !SomeEmpty(d) {
      ConjunctionExact(p, Corner(d));
    }
  }

  lemma {:induction false} TruthFrame(p: Pred, vals: seq<long>, i: nat, v: long)
    requires VariableFirst(p) && Row(vals) && i < |vals| && i !in Vars(p)
    ensures Truth(vals[i := v], p) == Truth(vals, p)
    decreases p
  {
    if p.Both? {
      TruthFrame(p.left, vals, i, v);
      TruthFrame(p.right, vals, i, v);
    }
  }

  predicate Everything(r: Range) { r.min == LONG_MIN && r.max == LONG_MAX }

  /** A variable that only `l` constrains does no harm in `l OR r`. */
  ghost predicate Harmless(l: Pred, r: Pred)
    requires VariableFirst(l) && VariableFirst(r)
  {
    forall i :: 0 <= i < LVM_MAX_VARIABLE_ID && i in Vars(l) && i !in Vars(r) ==>
      Everything(Ranges(l)[i]) || !Satisfiable(r)
  }

  lemma HarmlessNecessary(p: Pred, l: Pred, r: Pred)
    requires VariableFirst(p) && Derivable(p) && p.Both? && p.op.OR?
    requires (l, r) == (p.left, p.right) || (l, r) == (p.right, p.left)
    requires Sound(p)
    ensures Harmless(l, r)
  {
    DerivedVars(p.left);
    DerivedVars(p.right);
    forall i | 0 <= i < LVM_MAX_VARIABLE_ID && i in Vars(l) && i !in Vars(r)
      ensures Everything(Ranges(l)[i]) || !Satisfiable(r)
    {
      var range := Ranges(l)[i];
      if !Everything(range) && Satisfiable(r) {
        var vals: seq<long> :| Row(vals) && Truth(vals, r) == TRUE;
        var v: long := if range.min != LONG_MIN then LONG_MIN else LONG_MAX;
        var worse: seq<long> := vals[i := v];
        TruthFrame(r, vals, i, v);
        assert Ranges(p)[i] == range && !In(worse[i], Ranges(p)[i]);
        assert Truth(worse, p) == TRUE;
        assert false;
      }
    }
  }

  /**
    When exactly an OR of two sound predicates is sound: each variable that only one
    side constrains is constrained to everything, or the other side is never true.
   */
  lemma OrSoundIff(p: Pred)
    requires VariableFirst(p) && Derivable(p) && p.Both? && p.op.OR?
    requires Sound(p.left) && Sound(p.right)
    ensures Sound(p) <==> Harmless(p.left, p.right) && Harmless(p.right, p.left)
  {
    if Sound(p) {
      HarmlessNecessary(p, p.left, p.right);
      HarmlessNecessary(p, p.right, p.left);
    }
    if Harmless(p.left, p.right) && Harmless(p.right, p.left) {
      forall vals: seq<long> | Row(vals) && Truth(vals, p) == TRUE
        ensures InRanges(vals, Ranges(p))
      {
        OrContains(p, vals);
      }
    }
  }

  lemma OrContains(p: Pred, vals: seq<long>)
    requires VariableFirst(p) && Derivable(p) && p.Both? && p.op.OR?
    requires Sound(p.left) && Sound(p.right)
    requires Harmless(p.left, p.right) && Harmless(p.right, p.left)
    requires Row(vals) && Truth(vals, p) == TRUE
    ensures InRanges(vals, Ranges(p))
  {
    DerivedVars(p.left);
    DerivedVars(p.right);
    var a, b := Ranges(p.left), Ranges(p.right);
    forall i | 0 <= i < LVM_MAX_VARIABLE_ID
      ensures In(vals[i], Ranges(p)[i])
    {
      assert Ranges(p)[i] == Unite(NO_RANGES[i], a[i], b[i]);
      if Truth(vals, p.left) == TRUE {
        assert InRanges(vals, a) && Satisfiable(p.left);
      } else {
        assert Truth(vals, p.right) == TRUE;
        assert InRanges(vals, b) && Satisfiable(p.right);
      }
    }
  }

  // ----- which entries are derived --------------------------------------------------------------

  /** Every comparison of operands has a variable, and only the first `n` variables occur there. */
  predicate Within(p: Pred, n: nat) {
    match p
    case Cmp(_, a, b) =>
      a.Leaf? && b.Leaf? ==>
        && (a.x.Variable? || b.x.Variable?)
        && (a.x.Variable? ==> a.x.id < n) && (b.x.Variable? ==> b.x.id < n)
    case Both(_, l, r) => Within(l, n) && Within(r, n)
    case Neg(q) => Within(q, n)
  }

  /** A derivation leaves the entries of other variables alone, also when it fails. */
  lemma {:induction false} DerivesWithin(p: Pred, n: nat, d: seq<Range>)
    requires Within(p, n) && Table(d)
    ensures forall i :: n <= i < LVM_MAX_VARIABLE_ID ==> DeriveTree(p, d).1[i] == d[i]
    decreases p
  {
    if p.Both? {
      DerivesWithin(p.left, n, NO_RANGES);
      DerivesWithin(p.right, n, NO_RANGES);
    }
  }

  // ----- soundness of a whole clause ----------------------------------------------------------

  /** The conjunctions of a clause: one side is chosen at every OR. */
  function Cases(p: Pred): (c: set<Pred>)
    requires VariableFirst(p)
    ensures forall q <- c :: VariableFirst(q) && Conjunction(q)
  {
    match p
    case Cmp(_, _, _) => {p}
    case Both(op, l, r) =>
      if op.AND? then set x, y | x in Cases(l) && y in Cases(r) :: Both(AND, x, y) else Cases(l) + Cases(r)
  }

  lemma {:induction false} CasesDerivable(p: Pred, q: Pred)
    requires VariableFirst(p) && Derivable(p) && q in Cases(p)
    ensures Derivable(q)
    decreases p
  {
    if p.Both? {
      if p.op.AND? {
        var x, y :| x in Cases(p.left) && y in Cases(p.right) && q == Both(AND, x, y);
        CasesDerivable(p.left, x);
        CasesDerivable(p.right, y);
      } else if q in Cases(p.left) {
        CasesDerivable(p.left, q);
      } else {
        CasesDerivable(p.right, q);
      }
    }
  }

  /** A clause is true exactly when one of its conjunctions is. */
  lemma {:induction false} CasesTruth(p: Pred, vals: seq<long>)
    requires VariableFirst(p) && Derivable(p)
    ensures Truth(vals, p) == TRUE <==> exists q <- Cases(p) :: Truth(vals, q) == TRUE
    decreases p
  {
    if p.Both? {
      DerivedVars(p.left);
      DerivedVars(p.right);
      CasesTruth(p.left, vals);
      CasesTruth(p.right, vals);
      if p.op.AND? {
        if Truth(vals, p) == TRUE {
          var x :| x in Cases(p.left) && Truth(vals, x) == TRUE;
          var y :| y in Cases(p.right) && Truth(vals, y) == TRUE;
          assert Both(AND, x, y) in Cases(p) && Truth(vals, Both(AND, x, y)) == TRUE;
        }
        forall q <- Cases(p) | Truth(vals, q) == TRUE
          ensures Truth(vals, p) == TRUE
        {
          var x, y :| x in Cases(p.left) && y in Cases(p.right) && q == Both(AND, x, y);
          CasesDerivable(p.left, x);
          CasesDerivable(p.right, y);
          DerivedVars(x);
          DerivedVars(y);
        }
      }
    }
  }

  /** Every value of a variable that the range `a` allows is allowed by `b`. */
  predicate Inside(a: Range, b: Range) {
    b.derived ==> (if a.derived then b.min <= a.min && a.max <= b.max else Everything(b))
  }

  predicate AllInside(a: seq<Range>, b: seq<Range>)
    requires Table(a) && Table(b)
  {
    forall i :: 0 <= i < |a| ==> Inside(a[i], b[i])
  }

  /** The conjunction can be true. */
  predicate Possible(q: Pred)
    requires VariableFirst(q)
  {
    NoWrap(q) && !SomeEmpty(Ranges(q))
  }

  /** A corner of the box of a conjunction that lies outside the ranges of the clause. */
  lemma OutsideCorner(q: Pred, d: seq<Range>) returns (vals: seq<long>)
    requires VariableFirst(q) && Derivable(q) && Conjunction(q) && Possible(q) && Table(d)
    requires !AllInside(Ranges(q), d)
    ensures Row(vals) && Truth(vals, q) == TRUE && !InRanges(vals, d)
  {
    hide Truth, NoWrap, DeriveTree;
    var a := Ranges(q);
    var i :| 0 <= i < |a| && !Inside(a[i], d[i]);
    var v: long := if a[i].derived then (if a[i].min < d[i].min then a[i].min else a[i].max)
                   else if d[i].min != LONG_MIN then LONG_MIN else LONG_MAX;
    vals := Corner(a)[i := v];
    CornerIn(a);
    forall k | 0 <= k < |a|
      ensures In(vals[k], a[k])
    {
      assert !Empty(a[k]);
    }
    ConjunctionExact(q, vals);
    assert !In(vals[i], d[i]);
  }

  // ----- ranges that cannot be smaller --------------------------------------------------------

  /** An OR of conjunctions that can be true. */
  predicate Disjunction(p: Pred)
    requires VariableFirst(p) && Derivable(p)
  {
    || (Conjunction(p) && Possible(p))
    || (p.Both? && p.op.OR? && Disjunction(p.left) && Disjunction(p.right))
  }

  /** A row that makes the predicate true and has the value `v` for a variable. */
  ghost predicate Attained(p: Pred, i: nat, v: long)
    requires i < LVM_MAX_VARIABLE_ID
  {
    exists vals: seq<long> :: Row(vals) && Truth(vals, p) == TRUE && vals[i] == v
  }

  lemma ConjunctionAttains(p: Pred, i: nat)
    requires VariableFirst(p) && Derivable(p) && Conjunction(p) && Possible(p) && i in Vars(p)
    ensures i < LVM_MAX_VARIABLE_ID && Attained(p, i, Ranges(p)[i].min) && Attained(p, i, Ranges(p)[i].max)
  {
    hide Truth, NoWrap, DeriveTree;
    var d := Ranges(p);
    DerivedVars(p);
    CornerIn(d);
    var low: seq<long> := Corner(d);
    var high: seq<long> := low[i := d[i].max];
    assert !Empty(d[i]);
    ConjunctionExact(p, low);
    ConjunctionExact(p, high);
  }

  /** The bounds of an OR on a variable that both sides constrain are bounds of its sides. */
  lemma UnionBounds(p: Pred, i: nat)
    requires VariableFirst(p) && Derivable(p) && p.Both? && p.op.OR? && i in Vars(p.left) && i in Vars(p.right)
    ensures i < LVM_MAX_VARIABLE_ID
    ensures var (r, a, b) := (Ranges(p)[i], Ranges(p.left)[i], Ranges(p.right)[i]);
            && r.min <= a.min && r.min <= b.min && (r.min == a.min || r.min == b.min)
            && r.max >= a.max && r.max >= b.max && (r.max == a.max || r.max == b.max)
  {
    DerivedVars(p.left);
    DerivedVars(p.right);
  }

  lemma OrAttained(p: Pred, i: nat, v: long)
    requires VariableFirst(p) && Derivable(p) && p.Both? && p.op.OR? && i < LVM_MAX_VARIABLE_ID
    requires Attained(p.left, i, v) || Attained(p.right, i, v)
    ensures Attained(p, i, v)
  {
    DerivedVars(p.left);
    DerivedVars(p.right);
    if Attained(p.left, i, v) {
      var vals: seq<long> :| Row(vals) && Truth(vals, p.left) == TRUE && vals[i] == v;
      assert Truth(vals, p) == TRUE;
    } else {
      var vals: seq<long> :| Row(vals) && Truth(vals, p.right) == TRUE && vals[i] == v;
      assert Truth(vals, p) == TRUE;
    }
  }

  lemma SidesDerivable(p: Pred)
    requires Derivable(p) && p.Both?
    ensures Derivable(p.left) && Derivable(p.right)
  {
  }

  /**
    The ranges of an OR of conjunctions, all of which constrain the same variables and can be true,
    are not only sound but as small as ranges can be: both bounds of every variable are values that make the
    predicate true.
   */
  lemma {:induction false} DisjunctionTight(p: Pred, i: nat)
    requires VariableFirst(p) && Derivable(p) && Disjunction(p) && Balanced(p) && i in Vars(p)
    ensures i < LVM_MAX_VARIABLE_ID && Attained(p, i, Ranges(p)[i].min) && Attained(p, i, Ranges(p)[i].max)
    ensures Sound(p)
    decreases p
  {
    hide Attained, Truth, DeriveTree, Possible, InRanges;
    forall vals: seq<long> | Row(vals) && Truth(vals, p) == TRUE
      ensures InRanges(vals, Ranges(p))
    {
      BalancedSound(p, vals);
    }
    if Conjunction(p) && Possible(p) {
      ConjunctionAttains(p, i);
    } else {
      SidesDerivable(p);
      DisjunctionTight(p.left, i);
      DisjunctionTight(p.right, i);
      UnionBounds(p, i);
      var r, a, b := Ranges(p)[i], Ranges(p.left)[i], Ranges(p.right)[i];
      OrAttained(p, i, r.min);
      OrAttained(p, i, r.max);
    }
  }

  // ----- the other shapes that are derived -----------------------------------------------------

  /** Every operand is a value or a variable, as the parser leaves it. */
  predicate Filled(p: Pred) {
    match p
    case Cmp(_, a, b) => (a.Leaf? ==> !a.x.NoOperand?) && (b.Leaf? ==> !b.x.NoOperand?)
    case Both(_, l, r) => Filled(l) && Filled(r)
    case Neg(q) => Filled(q)
  }

  /** What can be derived: AND and OR of =, >, >=, < and <= between a variable with one of the four slots and a
      constant, or between two constants of which the low byte of the second is such a slot. */
  predicate Simple(p: Pred) {
    match p
    case Cmp(rel, Leaf(x), Leaf(y)) =>
      && (rel.EQ? || rel.GE? || rel.GEQ? || rel.LE? || rel.LEQ?)
      && (match x
          case Variable(id) => id < 4 && !y.Variable?
          case _ => match y case Variable(id) => id < 4 case Long(l) => l % 256 < 4 case NoOperand => true)
    case Both(_, l, r) => Simple(l) && Simple(r)
    case _ => false
  }

  lemma {:induction false} DerivableIff(p: Pred)
    requires p.Valid()
    ensures Derivable(p) <==> Simple(p)
    decreases p
  {
    if p.Both? {
      DerivableIff(p.left);
      DerivableIff(p.right);
    }
  }

  function Flip(rel: Operator): Operator {
    match rel
    case GE => LE
    case GEQ => LEQ
    case LE => GE
    case LEQ => GEQ
    case _ => rel
  }

  const ALWAYS: Pred := Cmp(GEQ, Leaf(Variable(0)), Leaf(Long(LONG_MIN)))
  const NEVER: Pred := Cmp(LE, Leaf(Variable(0)), Leaf(Long(LONG_MIN)))

  /** The predicate with the variable first everywhere. */
  function Plain(p: Pred): Pred {
    match p
    case Cmp(rel, Leaf(Long(c)), Leaf(Variable(id))) => Cmp(Flip(rel), Leaf(Variable(id)), Leaf(Long(c)))
    case Cmp(rel, Leaf(Long(c)), Leaf(Long(d))) => if Compare(rel, c, d) == TRUE then ALWAYS else NEVER
    case Both(op, l, r) => Both(op, Plain(l), Plain(r))
    case _ => p
  }

  /** What can be derived at all cannot fail, and means the same with the variable first. */
  lemma {:induction false} PlainMeaning(p: Pred)
    requires p.Valid() && Filled(p) && Derivable(p)
    ensures VariableFirst(Plain(p)) && Derivable(Plain(p))
    ensures forall vals: seq<long> :: Row(vals) ==> Truth(vals, p) == Truth(vals, Plain(p))
    ensures forall vals: seq<long> :: Row(vals) ==> !Truth(vals, p).IsError()
    decreases p
  {
    if p.Both? {
      PlainMeaning(p.left);
      PlainMeaning(p.right);
      forall vals: seq<long> | Row(vals)
        ensures Truth(vals, p) == Truth(vals, Plain(p)) && !Truth(vals, p).IsError()
      {
      }
    } else {
      PlainComparison(p);
    }
  }

  lemma PlainComparison(p: Pred)
    requires p.Valid() && Filled(p) && Derivable(p) && p.Cmp?
    ensures VariableFirst(Plain(p)) && Derivable(Plain(p))
    ensures forall vals: seq<long> :: Row(vals) ==>
              Truth(vals, p) == Truth(vals, Plain(p)) && !Truth(vals, p).IsError()
  {
  }

  /**
    Range derivation is sound for a predicate if and only if every conjunction of it that can be
    true at all allows a variable no value outside the range derived for it.  The condition is
    read off the ranges of the predicate and of the conjunctions, written with the variable first.
   */
  lemma SoundIff(p: Pred)
    requires p.Valid() && Filled(p) && Derivable(p)
    ensures VariableFirst(Plain(p))
    ensures Sound(p) <==> forall q <- Cases(Plain(p)) :: Possible(q) ==> AllInside(Ranges(q), Ranges(p))
  {
    hide Truth, NoWrap, DeriveTree, Cases, InRanges, SomeEmpty, AllInside, Plain;
    PlainMeaning(p);
    var d, n := Ranges(p), Plain(p);
    if Sound(p) {
      forall q <- Cases(n) | Possible(q)
        ensures AllInside(Ranges(q), d)
      {
        CasesDerivable(n, q);
        if !AllInside(Ranges(q), d) {
          var vals := OutsideCorner(q, d);
          CasesTruth(n, vals);
          assert false;
        }
      }
    }
    if forall q <- Cases(n) :: Possible(q) ==> AllInside(Ranges(q), d) {
      forall vals: seq<long> | Row(vals) && Truth(vals, p) == TRUE
        ensures InRanges(vals, d)
      {
        CasesTruth(n, vals);
        var q :| q in Cases(n) && Truth(vals, q) == TRUE;
        CasesDerivable(n, q);
        ConjunctionSatisfiable(q);
        ConjunctionExact(q, vals);
        InsideHolds(Ranges(q), d, vals);
      }
    }
  }

  lemma InsideHolds(a: seq<Range>, b: seq<Range>, vals: seq<long>)
    requires Table(a) && Table(b) && Row(vals) && AllInside(a, b) && InRanges(vals, a)
    ensures InRanges(vals, b)
  {
    forall i | 0 <= i < |b|
      ensures In(vals[i], b[i])
    {
      assert Inside(a[i], b[i]) && In(vals[i], a[i]);
    }
  }

  /** a < 5 OR b < 5 confines a to values below 5, though a = 9, b = 1 makes it true. */
  lemma OrUnsound()
    ensures var p := Both(OR, Cmp(LE, Leaf(Variable(0)), Leaf(Long(5))), Cmp(LE, Leaf(Variable(1)), Leaf(Long(5))));
            Derivable(p) && !Sound(p)
  {
    var p := Both(OR, Cmp(LE, Leaf(Variable(0)), Leaf(Long(5))), Cmp(LE, Leaf(Variable(1)), Leaf(Long(5))));
    var vals: seq<long> := [9, 1, 0, 0];
    assert Truth(vals, p) == TRUE;
    assert Ranges(p)[0] == Range(true, LONG_MIN, 4);
    assert !In(vals[0], Ranges(p)[0]);
  }

  /** Written with the constant first, a comparison is derived as if the operands were
      swapped: that is sound for `=` and otherwise only at an end of the number range. */
  lemma ConstantFirstSoundIff(rel: Operator, c: long, id: nat)
    requires rel.IsRelation() && !rel.NEQ? && id < LVM_MAX_VARIABLE_ID
    ensures var p := Cmp(rel, Leaf(Long(c)), Leaf(Variable(id)));
            && Derivable(p)
            && (Sound(p) <==> match rel
                case EQ => true
                case GEQ => c == LONG_MIN
                case LEQ => c == LONG_MAX
                case _ => c == LONG_MIN || c == LONG_MAX)
  {
    var p := Cmp(rel, Leaf(Long(c)), Leaf(Variable(id)));
    var range := RelationRange(rel, c);
    assert Ranges(p) == NO_RANGES[id := range];
    var extreme := if rel.GE? || rel.GEQ? then LONG_MIN else LONG_MAX;
    var zero: seq<long> := [0, 0, 0, 0];
    var vals: seq<long> := zero[id := extreme];
    if Sound(p) && !rel.EQ? {
      if Compare(rel, c, extreme) == TRUE {
        assert Truth(vals, p) == TRUE;
        assert In(vals[id], Ranges(p)[id]);
      }
    }
  }

  /**
    A comparison of two constants is derived as if the low byte of the second one were the slot
    of a variable: where that byte is the number of a slot, this is sound if and only if the
    comparison is false or the range confines nothing.
   */
  lemma ConstantsSoundIff(rel: Operator, c: long, d: long)
    requires rel.IsRelation() && !rel.NEQ? && d % 256 < LVM_MAX_VARIABLE_ID
    ensures var p := Cmp(rel, Leaf(Long(c)), Leaf(Long(d)));
            && Derivable(p) && Ranges(p) == NO_RANGES[d % 256 := RelationRange(rel, c)]
            && (Sound(p) <==> Compare(rel, c, d) == FALSE || Everything(RelationRange(rel, c)))
  {
    var p := Cmp(rel, Leaf(Long(c)), Leaf(Long(d)));
    var id, range := d % 256, RelationRange(rel, c);
    assert Ranges(p) == NO_RANGES[id := range];
    var zero: seq<long> := [0, 0, 0, 0];
    var v: long := if range.min != LONG_MIN then LONG_MIN else LONG_MAX;
    if Sound(p) && Compare(rel, c, d) == TRUE {
      assert Truth(zero[id := v], p) == TRUE;
      assert In(zero[id := v][id], Ranges(p)[id]);
    }
  }

  /** a = 5 AND 9 > 0 confines a to the empty range from 10 to 5. */
  lemma ConstantsUnsound()
    ensures var p := Both(AND, Cmp(EQ, Leaf(Variable(0)), Leaf(Long(5))), Cmp(GE, Leaf(Long(9)), Leaf(Long(0))));
            Derivable(p) && Ranges(p)[0] == Range(true, 10, 5) && !Sound(p)
  {
    var p := Both(AND, Cmp(EQ, Leaf(Variable(0)), Leaf(Long(5))), Cmp(GE, Leaf(Long(9)), Leaf(Long(0))));
    var vals: seq<long> := [5, 0, 0, 0];
    assert DeriveTree(p.left, NO_RANGES).1 == NO_RANGES[0 := Range(true, 5, 5)];
    assert DeriveTree(p.right, NO_RANGES).1 == NO_RANGES[0 := Range(true, 10, LONG_MAX)];
    assert Truth(vals, p) == TRUE;
    assert !In(vals[0], Ranges(p)[0]);
  }
}
