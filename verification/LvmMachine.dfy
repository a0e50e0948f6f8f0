/**
  The virtual machine as the program has it: a code array with a cursor, a table
  of variables and an instruction pointer (apps/antelope/lvm.c).  Every method is
  proved against the functions of modules Lvm and WhereCompiler.
 */
module LvmMachine {
  import opened Lvm
  import opened WhereCompiler
  import opened LvmDerive

  class Instance {
    const code: array<Cell>
    var end: nat
    var ip: nat
    var error: bool
    var fault: bool
    var overrun: bool         // history: something was put behind the declared tables
    const names: array<string>
    const values: array<long>
    const derivations: array<Range>

    ghost predicate Valid() {
      names.Length == values.Length == derivations.Length == LVM_MAX_VARIABLE_ID
    }

    ghost function Buf(): Buffer
      reads this, code
    {
      Buffer(code[..], end, error, fault)
    }

    constructor (size: nat)
      ensures Valid() && fresh(code) && fresh(names) && fresh(values) && fresh(derivations)
      ensures Buf() == Buffer(seq(size, _ => Zero), 0, false, false)
      ensures names[..] == ["", "", "", ""] && ip == 0 && !overrun
      ensures derivations[..] == NO_RANGES
    {
      code := new Cell[size](_ => Zero);
      names := new string[LVM_MAX_VARIABLE_ID](_ => "");
      values := new long[LVM_MAX_VARIABLE_ID](_ => 0);
      derivations := new Range[LVM_MAX_VARIABLE_ID](_ => Range(false, 0, 0));
      end, ip, error, fault, overrun := 0, 0, false, false, false;
      new;
      assert code[..] == seq(size, _ => Zero);
      assert names[..] == ["", "", "", ""];
      assert derivations[..] == NO_RANGES;
    }

    // ----- emitting code -----------------------------------------------------------------

    /** The memcpy of an object to the end of the code. */
    method Write(s: seq<Cell>)
      modifies this`end, this`fault, code
      ensures Buf() == Put(old(Buf()), s)
    {
      if end + |s| <= code.Length {
        forall k | 0 <= k < |s| {
          code[end + k] := s[k];
        }
      } else {
        fault := true;
      }
      end := end + |s|;
      assert old(end) + |s| <= code.Length ==>
          code[..] == old(code[..end]) + s + old(code[end + |s|..]);
    }

    method JumpToOperand() returns (oldEnd: nat)
      modifies this`end, this`error
      ensures (Buf(), oldEnd) == WhereCompiler.JumpToOperand(old(Buf()))
    {
      oldEnd := end;
      end := end + SIZEOF_OPERATOR + SIZEOF_NODE_TYPE;
      if end >= code.Length {
        error := true;
        end := oldEnd;
      }
    }

    method ShiftForOperator(at: nat) returns (newEnd: nat)
      modifies this`end, this`error, this`fault, code
      ensures (Buf(), newEnd) == WhereCompiler.ShiftForOperator(old(Buf()), at)
    {
      var oldEnd := end;
      if end + SIZEOF_OPERATOR > code.Length || at >= oldEnd {
        error := true;
        return 0;
      }
      if oldEnd + OP_NODE <= code.Length {
        forall k | at <= k < oldEnd {
          code[k + OP_NODE] := code[k];
        }
        assert code[..] == old(code[..at + OP_NODE]) + old(code[at..end]) + old(code[end + OP_NODE..]);
      } else {
        fault := true;
      }
      end := at;
      return oldEnd + SIZEOF_OPERATOR + SIZEOF_NODE_TYPE;
    }

    method SetEnd(newEnd: nat) returns (oldEnd: nat)
      modifies this`end, this`error
      ensures (Buf(), oldEnd) == WhereCompiler.SetEnd(old(Buf()), newEnd)
    {
      if newEnd >= code.Length {
        error := true;
        return end;
      }
      oldEnd := end;
      end := newEnd;
    }

    method SetOp(op: Operator)
      modifies this`end, this`fault, code
      ensures Buf() == Put(old(Buf()), OpNode(ARITH_OP, op))
    {
      Write(TypeBytes(ARITH_OP) + OperatorBytes(op));
    }

    method SetRelation(op: Operator)
      modifies this`end, this`fault, code
      ensures Buf() == Put(old(Buf()), OpNode(CMP_OP, op))
    {
      Write(TypeBytes(CMP_OP) + OperatorBytes(op));
    }

    method SetOperand(x: Operand)
      modifies this`end, this`fault, code
      ensures Buf() == Put(old(Buf()), OperandNode(x))
    {
      Write(TypeBytes(OPERAND) + OperandBytes(x));
    }

    // ----- the variable table ------------------------------------------------------------

    /** lookup: the slot of the name, else the first unused slot, else the table size. */
    method FindVariable(name: string) returns (id: nat)
      requires Valid()
      ensures id == Lookup(names[..], name)
    {
      id := 0;
      while id < LVM_MAX_VARIABLE_ID && names[id] != ""
        invariant id <= LVM_MAX_VARIABLE_ID
        invariant Lookup(names[..], name) == LookupFrom(names[..], name, id)
      {
        if names[id] == name {
          break;
        }
        id := id + 1;
      }
    }

    method RegisterVariable(name: string) returns (registered: bool)
      requires Valid()
      modifies names, `overrun
      ensures names[..] == Register(old(names[..]), name)
      ensures overrun <==> old(overrun) || (old(names[DECLARED_VARIABLES]) == "" && names[DECLARED_VARIABLES] != "")
      ensures registered <==> Lookup(old(names[..]), name) < LVM_MAX_VARIABLE_ID
    {
      var id := FindVariable(name);
      if id == LVM_MAX_VARIABLE_ID {
        return false;
      }
      if names[id] == "" {
        names[id] := Truncate(name);
        overrun := overrun || (id >= DECLARED_VARIABLES && names[id] != "");
      }
      return true;
    }

    /** lvm_set_variable_value: true unless the table has no room for the name. */
    method SetVariableValue(name: string, value: long) returns (known: bool)
      requires Valid()
      modifies values, `overrun
      ensures overrun <==> old(overrun) || Lookup(names[..], name) == DECLARED_VARIABLES
      ensures var id := Lookup(names[..], name);
              && known == (id < LVM_MAX_VARIABLE_ID)
              && values[..] == if known then old(values[..])[id := value] else old(values[..])
    {
      var id := FindVariable(name);
      known := id != LVM_MAX_VARIABLE_ID;
      if known {
        values[id] := value;
        overrun := overrun || id >= DECLARED_VARIABLES;
      }
    }

    method SetVariable(name: string)
      requires Valid()
      modifies this`end, this`fault, code
      ensures Buf() == WhereCompiler.SetVariable(old(Buf()), names[..], name)
    {
      var id := FindVariable(name);
      if id < LVM_MAX_VARIABLE_ID {
        SetOperand(Variable(id));
      }
    }

    // ----- executing code -------------------------------------------------------------------

    method GetType() returns (t: NodeType)
      modifies this`ip
      ensures t == ReadType(code[..], old(ip)) && ip == old(ip) + SIZEOF_NODE_TYPE
    {
      t := ReadType(code[..], ip);
      ip := ip + SIZEOF_NODE_TYPE;
    }

    method GetOperator() returns (o: Operator)
      modifies this`ip
      ensures o == ReadOperator(code[..], old(ip)) && ip == old(ip) + SIZEOF_OPERATOR
    {
      o := ReadOperator(code[..], ip);
      ip := ip + SIZEOF_OPERATOR;
    }

    method GetOperand() returns (x: Operand)
      modifies this`ip
      ensures x == ReadOperand(code[..], old(ip)) && ip == old(ip) + SIZEOF_OPERAND
    {
      x := ReadOperand(code[..], ip);
      ip := ip + SIZEOF_OPERAND;
    }

    /** The switch on the node type that eval_expr and eval_logic share. */
    method EvalArg() returns (status: Status, value: long)
      modifies this`ip
      ensures var r := RunArg(code[..], values[..], old(ip));
              status == r.status && ip == r.ip && (!status.IsError() ==> value == r.value)
      decreases Left(code[..], ip), 1
    {
      value := 0;
      var t := GetType();
      match t
      case ARITH_OP =>
        var op := GetOperator();
        status, value := EvalExpr(op);
      case OPERAND =>
        var x := GetOperand();
        status, value := TRUE, OperandValue(values[..], x);
      case _ =>
        status := SEMANTIC_ERROR;
    }

    method EvalExpr(op: Operator) returns (status: Status, result: long)
      modifies this`ip
      ensures var r := RunExpr(code[..], values[..], old(ip), op);
              status == r.status && ip == r.ip && (!status.IsError() ==> result == r.value)
      decreases Left(code[..], ip), 2
    {
      var value := [0, 0];
      ghost var a := RunArg(code[..], values[..], ip);
      for i := 0 to 2
        invariant |value| == 2
        invariant i == 0 ==> ip == old(ip)
        invariant i > 0 ==> !a.status.IsError() && value[0] == a.value
        invariant i == 1 ==> ip == a.ip
        invariant i == 2 ==>
            var b := RunArg(code[..], values[..], a.ip);
            !b.status.IsError() && value[1] == b.value && ip == b.ip
      {
        var v: long;
        status, v := EvalArg();
        if status.IsError() {
          return status, 0;
        }
        value := value[i := v];
      }
      var (s, v) := Arith(op, value[0], value[1]);
      status, result := s, v;
    }

    method EvalLogic(op: Operator) returns (status: Status)
      modifies this`ip
      ensures var r := RunLogic(code[..], values[..], old(ip), op);
              status == r.status && ip == r.ip
      decreases Left(code[..], ip)
    {
      hide RunArg, RunExpr, Compare, Connect;
      if op.IsConnective() {
        var arguments := if op.NOT? then 1 else 2;
        var logicResult := [FALSE, FALSE];
        ghost var a := RunClause(code[..], values[..], ip);
        for i := 0 to arguments
          invariant |logicResult| == 2
          invariant i == 0 ==> ip == old(ip)
          invariant i > 0 ==> !a.status.IsError() && logicResult[0] == a.status
          invariant i == 1 ==> ip == a.ip
          invariant i == 2 ==>
              var b := RunClause(code[..], values[..], a.ip);
              !b.status.IsError() && logicResult[1] == b.status && ip == b.ip
        {
          var t := GetType();
          if t != CMP_OP {
            return SEMANTIC_ERROR;
          }
          var o := GetOperator();
          var s := EvalLogic(o);
          if s.IsError() {
            return s;
          }
          logicResult := logicResult[i := s];
        }
        if op.NOT? {
          return Negate(logicResult[0]);
        }
        return Connect(op, logicResult[0], logicResult[1]);
      }

      var result := [0, 0];
      ghost var a := RunArg(code[..], values[..], ip);
      for i := 0 to 2
        invariant |result| == 2
        invariant i == 0 ==> ip == old(ip)
        invariant i > 0 ==> !a.status.IsError() && result[0] == a.value
        invariant i == 1 ==> ip == a.ip
        invariant i == 2 ==>
            var b := RunArg(code[..], values[..], a.ip);
            !b.status.IsError() && result[1] == b.value && ip == b.ip
      {
        var v: long;
        status, v := EvalArg();
        if status.IsError() {
          return;
        }
        result := result[i := v];
      }
      return Compare(op, result[0], result[1]);
    }

    method Execute() returns (status: Status)
      modifies this`ip
      ensures var r := Run(code[..], values[..]);
              status == r.status && ip == r.ip
    {
      ip := 0;
      status := EXECUTION_ERROR;
      var t := GetType();
      if t == CMP_OP {
        var op := GetOperator();
        status := EvalLogic(op);
      }
    }

    // ----- deriving ranges --------------------------------------------------------------------

    /** create_intersection and create_union: entry by entry into `result`. */
    static method CombineInto(op: Operator, result: array<Range>, d1: array<Range>, d2: array<Range>)
      requires Table(result[..]) && Table(d1[..]) && Table(d2[..])
      requires result != d1 && result != d2
      modifies result
      ensures result[..] == CombineAll(op, old(result[..]), d1[..], d2[..])
    {
      for i := 0 to LVM_MAX_VARIABLE_ID
        invariant forall k :: 0 <= k < i ==> result[k] == Combine(op, old(result[k]), d1[k], d2[k])
        invariant forall k :: i <= k < result.Length ==> result[k] == old(result[k])
        invariant d1[..] == old(d1[..]) && d2[..] == old(d2[..])
      {
        if !d1[i].derived && !d2[i].derived {
          continue;
        } else if d1[i].derived && !d2[i].derived {
          result[i] := d1[i];
        } else if !d1[i].derived && d2[i].derived {
          result[i] := d2[i];
        } else if op.AND? {
          var min := if d1[i].min > d2[i].min then d1[i].min else d2[i].min;
          var max := if d1[i].max < d2[i].max then d1[i].max else d2[i].max;
          result[i] := Range(true, min, max);
        } else {
          var min := if d1[i].min > d2[i].min then d2[i].min else d1[i].min;
          var max := if d1[i].max < d2[i].max then d2[i].max else d1[i].max;
          result[i] := Range(true, min, max);
        }
        result[i] := result[i].(derived := true);
      }
    }

    /** derive_relation; `local` receives the ranges. */
    method DeriveRelation(local: array<Range>) returns (status: Status)
      requires Table(local[..])
      modifies this`ip, local
      ensures var r := LvmDerive.Derive(code[..], old(ip), old(local[..]));
              && status == r.0
              && local[..] == r.1 && ip == r.2
      decreases Left(code[..], ip)
    {
      hide CombineAll, LvmDerive.DeriveOperands;
      var _ := GetType();
      var op := GetOperator();

      if op.IsConnective() {
        if op != AND && op != OR {
          return DERIVATION_ERROR;
        }
        var d1 := new Range[LVM_MAX_VARIABLE_ID](_ => Range(false, 0, 0));
        var d2 := new Range[LVM_MAX_VARIABLE_ID](_ => Range(false, 0, 0));
        assert d1[..] == NO_RANGES && d2[..] == NO_RANGES;
        status := DeriveRelation(d1);
        if status.IsError() {
          return DERIVATION_ERROR;
        }
        status := DeriveRelation(d2);
        if status.IsError() {
          return DERIVATION_ERROR;
        }
        CombineInto(op, local, d1, d2);
        return TRUE;
      }

      status := DeriveOperands(op, local);
    }

    method DeriveOperands(op: Operator, local: array<Range>) returns (status: Status)
      requires Table(local[..])
      modifies this`ip, local
      ensures var r := LvmDerive.DeriveOperands(code[..], old(ip), op, old(local[..]));
              && status == r.0
              && local[..] == r.1 && ip == r.2
    {
      hide DeriveComparison, ReadType, ReadOperand;
      var operand := [NoOperand, NoOperand];
      for i := 0 to 2
        invariant |operand| == 2 && local[..] == old(local[..])
        invariant ip == old(ip) + i * (SIZEOF_NODE_TYPE + SIZEOF_OPERAND)
        invariant i > 0 ==> ReadType(code[..], old(ip)) == OPERAND
                            && operand[0] == ReadOperand(code[..], old(ip) + SIZEOF_NODE_TYPE)
        invariant i > 1 ==>
            var second := old(ip) + SIZEOF_NODE_TYPE + SIZEOF_OPERAND;
            && ReadType(code[..], second) == OPERAND
            && operand[1] == ReadOperand(code[..], second + SIZEOF_NODE_TYPE)
      {
        var t := GetType();
        if t != OPERAND {
          return DERIVATION_ERROR;
        }
        var x := GetOperand();
        operand := operand[i := x];
      }
      status := RelationInto(op, operand[0], operand[1], local);
    }

    /** The part of derive_relation that turns one comparison into a range. */
    static method RelationInto(op: Operator, x: Operand, y: Operand, local: array<Range>) returns (status: Status)
      requires Table(local[..])
      modifies local
      ensures (status, local[..]) == DeriveComparison(op, x, y, old(local[..]))
    {
      if x.Variable? && y.Variable? {
        return DERIVATION_ERROR;
      }
      var id: nat;
      var value: long;
      if x.Variable? {
        id, value := x.id, LongField(y);
      } else {
        id, value := IdField(y), LongField(x);
      }
      if id >= LVM_MAX_VARIABLE_ID {
        return DERIVATION_ERROR;
      }
      local[id] := local[id].(max := LONG_MAX, min := LONG_MIN);
      match op {
        case EQ => local[id] := local[id].(max := value, min := value);
        case GE => local[id] := local[id].(min := Wrap(value + 1));
        case GEQ => local[id] := local[id].(min := value);
        case LE => local[id] := local[id].(max := Wrap(value - 1));
        case LEQ => local[id] := local[id].(max := value);
        case _ =>
          assert local[..] == old(local[..])[id := Range(old(local[id].derived), LONG_MIN, LONG_MAX)];
          return DERIVATION_ERROR;
      }
      local[id] := local[id].(derived := true);
      assert local[..] == old(local[..])[id := RelationRange(op, value)];
      return TRUE;
    }

    /** lvm_derive; what it writes differs from the zeroed table. */
    method Derive() returns (status: Status)
      requires Valid()
      modifies this`ip, this`overrun, derivations
      ensures overrun <==> old(overrun) || derivations[DECLARED_VARIABLES] != old(derivations[DECLARED_VARIABLES])
      ensures var r := LvmDerive.Derive(code[..], old(ip), old(derivations[..]));
              && status == r.0
              && derivations[..] == r.1 && ip == r.2
    {
      var behind := derivations[DECLARED_VARIABLES];
      status := DeriveRelation(derivations);
      overrun := overrun || derivations[DECLARED_VARIABLES] != behind;
    }

    /** lvm_get_derived_range: the range of the first slot with that name. */
    method GetDerivedRange(name: string) returns (found: bool, min: long, max: long)
      requires Valid()
      ensures found <==> exists i :: 0 <= i < names.Length && names[i] == name && name !in names[..i]
                                     && derivations[i].derived
      ensures found ==> exists i :: 0 <= i < names.Length && names[i] == name && name !in names[..i]
                                    && derivations[i] == Range(true, min, max)
    {
      min, max := 0, 0;
      for i := 0 to LVM_MAX_VARIABLE_ID
        invariant name !in names[..i]
      {
        if name == names[i] {
          found := derivations[i].derived;
          min, max := derivations[i].min, derivations[i].max;
          assert forall k :: i < k < names.Length ==> names[..k][i] == name;
          return;
        }
      }
      found := false;
    }
  }
}
