/**
  The recursive descent parser of WHERE clauses as the program has it: it advances
  a lexer and writes into the machine it compiles for (apps/antelope/aql-parser.c).
 */
module AqlParser {
  import opened Segments
  import opened Lvm
  import opened WhereCompiler
  import opened WhereMeaning
  import LvmMachine

  class Parser {
    const tokens: seq<Token>
    const vm: LvmMachine.Instance
    var pos: nat       // lexer->input
    var prev: nat      // lexer->prev_pos
    var token: Token   // *lexer->token

    ghost predicate Valid()
      reads this, vm`overrun, vm.names
    {
      && pos <= |tokens| && vm.Valid()
      && (vm.overrun <==> Overruns(vm.names[..]))
    }

    ghost function Now(): State
      reads this, vm, vm.code, vm.names
    {
      State(pos, prev, vm.Buf(), vm.names[..])
    }

    constructor (tokens: seq<Token>, vm: LvmMachine.Instance)
      requires vm.Valid() && (vm.overrun <==> Overruns(vm.names[..]))
      ensures Valid() && this.tokens == tokens && this.vm == vm
      ensures pos == 0 && prev == 0
    {
      this.tokens, this.vm := tokens, vm;
      pos, prev, token := 0, 0, NONE;
    }

    method NextToken()
      requires Valid()
      modifies this`pos, this`prev, this`token
      ensures Valid() && (token, Now()) == Next(tokens, old(Now()))
    {
      prev := pos;
      if pos < |tokens| {
        token := tokens[pos];
        pos := pos + 1;
      } else {
        token := NONE;
      }
    }

    method RewindToken()
      requires Valid() && prev <= |tokens|
      modifies this`pos
      ensures Valid() && Now() == Rewind(old(Now()))
    {
      pos := prev;
    }

    method Operand() returns (status: AqlStatus)
      requires Valid()
      modifies this, vm`end, vm`error, vm`fault, vm`overrun, vm.code, vm.names
      ensures Valid() && (status, Now()) == ParseOperand(tokens, old(Now()))
    {
      NextToken();
      match token {
        case IDENTIFIER(name) =>
          var _ := vm.RegisterVariable(name);
          vm.SetVariable(name);
        case STRING_VALUE =>
        case FLOAT_VALUE =>
        case INTEGER_VALUE(l) =>
          vm.SetOperand(Long(l));
        case _ =>
          return SYNTAX_ERROR;
      }
      return OK;
    }

    /** The three calls that put an operator in front of the code from `at` on. */
    method Insert(at: nat, t: NodeType, op: Operator) returns (end: nat)
      requires Valid() && (t == ARITH_OP || t == CMP_OP)
      modifies vm`end, vm`error, vm`fault, vm.code
      ensures Valid() && (vm.Buf(), end) == InsertOperator(old(vm.Buf()), at, t, op)
    {
      end := vm.ShiftForOperator(at);
      if t == ARITH_OP {
        vm.SetOp(op);
      } else {
        vm.SetRelation(op);
      }
      var _ := vm.SetEnd(end);
    }

    method Expr() returns (status: AqlStatus)
      requires Valid()
      modifies this, vm`end, vm`error, vm`fault, vm`overrun, vm.code, vm.names
      ensures Valid() && (status, Now()) == ParseExpr(tokens, old(Now()))
      decreases |tokens| - pos, 1
    {
      hide ParseOperand, InsertOperator, Overruns;
      var savedEnd := vm.end;
      NextToken();
      if token.LEFT_PAREN? {
        status := Expr();
        if status.IsError() {
          return SYNTAX_ERROR;
        }
        NextToken();
        if !token.RIGHT_PAREN? {
          return SYNTAX_ERROR;
        }
      } else {
        RewindToken();
        status := Operand();
        if status.IsError() {
          return SYNTAX_ERROR;
        }
      }
      ghost var start, startEnd := Now(), savedEnd;

      while true
        invariant Valid() && start.pos <= pos
        invariant ParseOps(tokens, Now(), savedEnd) == ParseOps(tokens, start, startEnd)
        decreases |tokens| - pos
      {
        NextToken();
        if token.RIGHT_PAREN? {
          return OK;
        }
        if !token.ARITHMETIC? {
          RewindToken();
          return OK;
        }
        var op := token.op;
        status := Operand();
        if status.IsError() {
          status := Expr();
        }
        if status.IsError() {
          return SYNTAX_ERROR;
        }
        savedEnd := Insert(savedEnd, ARITH_OP, op);
      }
    }

    method Comparison() returns (status: AqlStatus)
      requires Valid()
      modifies this, vm`end, vm`error, vm`fault, vm`overrun, vm.code, vm.names
      ensures Valid() && (status, Now()) == ParseComparison(tokens, old(Now()))
    {
      var savedEnd := vm.JumpToOperand();
      status := Expr();
      if status.IsError() {
        return SYNTAX_ERROR;
      }
      savedEnd := vm.SetEnd(savedEnd);
      NextToken();
      if !token.COMPARISON? {
        return SYNTAX_ERROR;
      }
      vm.SetRelation(token.rel);
      var _ := vm.SetEnd(savedEnd);
      status := Expr();
      if status.IsError() {
        return SYNTAX_ERROR;
      }
      return OK;
    }

    method Where() returns (status: AqlStatus)
      requires Valid()
      modifies this, vm`end, vm`error, vm`fault, vm`overrun, vm.code, vm.names
      ensures Valid() && (status, Now()) == ParseWhere(tokens, old(Now()))
      decreases |tokens| - pos
    {
      hide ParseComparison, InsertOperator, Overruns;
      status := Comparison();
      if status.IsError() {
        return SYNTAX_ERROR;
      }
      var savedEnd := 0;
      ghost var start := Now();

      while true
        invariant Valid() && start.pos <= pos && old(pos) < pos
        invariant ParseConnectives(tokens, Now(), savedEnd) == ParseConnectives(tokens, start, 0)
        decreases |tokens| - pos
      {
        NextToken();
        if !token.CONNECTIVE? {
          RewindToken();
          return OK;
        }
        savedEnd := Insert(savedEnd, CMP_OP, token.conn);

        NextToken();
        if token.LEFT_PAREN? {
          status := Where();
          if status.IsError() {
            return SYNTAX_ERROR;
          }
          NextToken();
          if !token.RIGHT_PAREN? {
            return SYNTAX_ERROR;
          }
        } else {
          RewindToken();
          status := Comparison();
          if status.IsError() {
            return ZERO;
          }
        }
      }
    }
  }
}
