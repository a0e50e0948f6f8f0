# Proofs about Contiki's databases, protocols and parsers

This project models five parts of Contiki in Dafny and proves what they are for. Values and
pure functions say what an operation computes; classes hold the fields and buffers that the C
code updates in place, and every method is proved equal to its function or to an abstract view
of the state. The theorems are about all inputs, all runs or all reachable states.

**Antelope** (`apps/antelope`): `Lvm`, `WhereCompiler`, `WhereMeaning`, `LvmDerive`,
`LvmMachine`, `AqlParser`, `MaxHeap`, `MaxHeapIndex`, `InlineIndex`, `Selection`, `Join`, `JoinIndex`.
The WHERE parser compiles by inserting prefix operators into code that it has already emitted.
The code is executed for every row and also interpreted into a range for every variable; a range
chooses an index, and the indexed scan has to return what the plain scan would: `Selection.Select`
puts the parts together.

**Erbium CoAP** (`apps/er-coap`): `CoapOptions`, `CoapMessage`, `CoapWire`, `CoapCodec`,
`CoapTransactions`, `CoapLedger`, `WellKnownCore`, `CoapBlockwise`. The message codec, whose parser
joins repeated options inside the datagram that it is reading (sections 3 and 3.1 of RFC 7252);
`CoapWire` holds serializer and parser against the format itself, written down apart from both.
Retransmission (sections 4.2 and 4.8.2 of RFC 7252) and the closing of transactions by message id,
the resource listing produced window by window (section 2 of RFC 6690) and block-wise transfer
(RFC 7959), up to the client loop receiving the whole listing.

**Serial tunnel** (`tools`): `Slip` (RFC 1055) and `Checksum` (RFC 1071, RFC 1624).

**JSON** (`apps/json`): `Json`, the pull parser with its explicit stack, `JsonSpace`, the white
space between its tokens, `JsonGrammar`, what it makes of any text at all, and `JsonRuns`, that
runs which keep to the grammar read values.

**Code propagation** (`apps/codeprop`): `CodeProp`, broadcasts with NACKs over a medium that
loses, repeats and reorders.

`Segments` holds bytes and the reading of sequences piece by piece.

## What the code does otherwise than one would expect

Where the code departs from its own documentation or from the plain reading, the model follows
the code, and the property is stated with its exact condition.

- A second arithmetic operator on one level, or a parenthesis on the left, is not compiled as
  written (`ClauseCodeExact`, `SecondOperatorMisread`, `LeftParenthesisRejected`).
- A group in parentheses behind AND or OR is always a syntax error, unless one closing parenthesis too
  many follows it (`GroupRejected`, `DoubledGroupAccepted`).
- lvm_shift_for_operator tests for the size of an operator and moves the code by that of a node, which
  writes behind a buffer with 4 to 7 bytes left (`BufferLimits`).
- When a comparison behind AND or OR is malformed, parse_where returns the comparison's zero
  status, which counts as no error (apps/antelope/aql-parser.c:437-441): only the first comparison
  decides (`WhereErrorIff`, `DanglingAccepted`).
- The tables of variables and derivations are declared one slot shorter than the scans over them go
  (apps/antelope/lvm.c:85-110). The model has the slot behind them, empty at first, and records
  whether something is put there (`TableOverrunIff`, `LeavesTablesIff`, `ThreeNamesSuffice`,
  `FourNamesLeave`). lvm_reset does not clear that memory.
- OR keeps ranges that only one side has derived (`SoundIff`, `OrSoundIff`). A comparison with the
  constant first is derived as if it were swapped, and one of two constants as if the low byte of
  the second were a variable (`ConstantFirstSoundIff`, `ConstantsSoundIff`). A strict comparison
  with an end of the number range wraps around to a range of everything (`ConjunctionExactIff`).
- select_index says that it takes the smallest range; it takes the last indexed attribute with a
  range (`SelectIndex`, `WiderRangeChosen`, `SmallestChosenIff`).
- REMOVE keeps the rows that fail the predicate, but an index is still searched for the rows that
  meet it (`IndexedRemoveCompleteIff`, `RemoveLosesRows`). An equality search for an absent value
  ends in DB_INDEX_ERROR instead of DB_FINISHED (`Selection.Select`, `AbsentValueFails`).
- The inline index reads outside the relation for a target below the first value, and in an empty
  relation (`SearchInBoundsIff`).
- The maxheap header says that a split moves the entries of a bucket; they stay, and only full
  buckets have children. Nodes of depth 8 are created but never found (`PathExact`).
- A join handle that has returned DB_FINISHED starts again at the next call (`Join.Handle.Process`).
- Splitting a path skips the test on the character behind a separator, and merging replaces an
  empty field (`SplitMergeIff`). Behind a final separator the loop also looks at a byte past the
  string, which the model takes for no separator.
- COAP_MAX_HEADER_SIZE is 62, not 65 as its comment says.
- The parser takes the reserved length nibble 15 for a length (`ReservedLengthAccepted`), and a block
  size of 4096 or more sets the more bit of the option that is written (`BlockWritten`).
- COAP_RESPONSE_TIMEOUT_BACKOFF_MASK has no parentheses, so that its `+ 1` is added to the random
  remainder; an unanswered transaction is closed at the moment of its last transmission
  (`UnansweredScheduleIff`); a check stops behind the first transaction that it closes (`CheckExact`).
- A block request above the engine's block size is answered from the wrong offset
  (`ListingReplyIsSliceIff`, `BlockFromWrongOffset`), and a last block that comes too early ends a
  transfer without an error (`LastBlockEndsEarly`).
- The SLIP decoder drops every 2000 bytes of a frame and keeps the rest (`RoundTripIff`).
- The identification patch breaks packets whose header length field says 8 (`PatchKeepsIff`,
  `ShortHeaderBreaks`). The don't-fragment test reads the flags in host byte order, so that a
  little-endian host tests a bit of the fragment offset (`FlagTestedIff`, `FlagMissed`).
- push in the JSON parser reports a full stack, but nobody looks at the result (`DocumentParses` has
  the exact depth). White space does not always separate: a line break behind `true`, `false` or
  `null`, a tabulator and a carriage return are syntax errors (`SpacedDocumentIff`, `LiteralIff`,
  `LineBreakBehindLiteral`).
- The JSON parser also lets pass a comma without a value in front of it in an array, values without a
  comma between them and a second name (`Tolerated`, `ToleratedDocument`), and drops escapes that it
  does not know (`UnknownEscape`).
- The NACK for a first packet with a non-zero address overwrites that address in the packet
  buffer, and the packet is then stored at address 0 (`StartedImageIff`).

## Conventions

The platform has 32-bit `int`, `long` and `size_t`; arithmetic on them wraps where the model
says so, also where C leaves the overflow of signed numbers undefined (LONG_MIN / -1 included). Constants are the defaults of the headers: 4 LVM variables with names of 12 characters,
511 heap nodes of 128 pairs, chunks of 64 bytes, 4 open transactions, JSON depth 10. The key
transformation of the heap, random numbers, the clock, the results of `write`, the packets that
arrive and, in the tunnel, the byte order of the host are parameters; the database code is that of a
little-endian host, where the low byte of an operand's value is a variable's number
(`LvmDerive.IdField`) and the first two bytes of a bound are its key (`MaxHeapIndex.Index.GetNext`).
Memory that a C function reads past the end
of its input is a precondition (`SLACK` behind a datagram, `Readable` packets) or reads as a
terminator (JSON text). History that only specifications need - when a packet was sent, which
packet came first - is kept in ordinary fields and named as such.

`dafny verify dfyconfig.toml` checks the whole project.

## Model

| member | source | states |
|---|---|---|
| `Lvm.RunArgMeaning` | apps/antelope/lvm.c:165-219 | on the code of any expression tree the machine stops right behind the code with the value of the tree, or reports the leftmost division by zero |
| `Lvm.RunClauseMeaning` | apps/antelope/lvm.c:221-298 | the same for AND/OR trees of comparisons: the status is the truth value or the leftmost error, and the code is consumed exactly |
| `Lvm.ExecuteMeaning` | apps/antelope/lvm.c:379-404 | executing a buffer that begins with the code of a valid predicate gives its truth value whatever follows the code |
| `Lvm.OperationMeaning` | apps/antelope/lvm.c:196-213 | an operation on two values: the long congruent to sum, difference or product modulo 2^32; the quotient truncated towards zero, LONG_MIN / -1 wrapping around; an error if and only if the divisor is zero |
| `Lvm.CongruentUnique` | apps/antelope/lvm.c:196-213 | there is one such long |
| `Lvm.TruncatedUnique` | apps/antelope/lvm.c:196-213 | there is one such quotient |
| `Lvm.MachineOperation` | apps/antelope/lvm.c:165-219 | the machine computes the same on the code of the operation |
| `Lvm.OperandMeaning` | apps/antelope/lvm.c:146-163 | a constant stands for itself and a variable for the value of its slot |
| `Lvm.ComparisonMeaning` | apps/antelope/lvm.c:276-297 | a comparison of two values is true exactly when the numbers are so related, for all six relations |
| `Lvm.ConnectiveMeaning` | apps/antelope/lvm.c:233-256 | AND, OR and NOT of predicates without errors are those of logic |
| `Lvm.LeftmostError` | apps/antelope/lvm.c:172-262 | the leftmost error of the operands is the result of an operation, a comparison and a connective, also behind a side that decides the connective |
| `LvmMachine.Instance.JumpToOperand` | apps/antelope/lvm.c:314-327 | on the machine with its arrays: the end moves past an operator node, or the error flag is set and the end stays |
| `LvmMachine.Instance.ShiftForOperator` | apps/antelope/lvm.c:329-348 | the code from `end` on moves up by an operator node inside the array; the end that is returned and the error case are those of the specification |
| `LvmMachine.Instance.SetEnd` | apps/antelope/lvm.c:356-370 | the end is set inside the buffer only; otherwise the error flag |
| `LvmMachine.Instance.SetOp` | apps/antelope/lvm.c:406-412 | an arithmetic operator node is appended in place |
| `LvmMachine.Instance.SetRelation` | apps/antelope/lvm.c:414-420 | a comparison or connective node is appended in place |
| `LvmMachine.Instance.SetOperand` | apps/antelope/lvm.c:422-428 | an operand node is appended in place |
| `LvmMachine.Instance.FindVariable` | apps/antelope/lvm.c:105-117 | the scan of the variable table stops at the first slot of the name or the first free one |
| `LvmMachine.Instance.RegisterVariable` | apps/antelope/lvm.c:441-460 | a name gets the slot that `Register` gives it and a known name keeps its slot; refused exactly when all slots are taken; a name put behind the declared table is recorded |
| `LvmMachine.Instance.SetVariableValue` | apps/antelope/lvm.c:462-473 | exactly the value of the slot of the name changes; a value put behind the declared table is recorded |
| `LvmMachine.Instance.SetVariable` | apps/antelope/lvm.c:475-488 | appends the operand that stands for the slot of the name |
| `LvmMachine.Instance.EvalExpr` | apps/antelope/lvm.c:165-219 | the recursive evaluation moves `ip` and computes exactly what `RunExpr` says, errors included |
| `LvmMachine.Instance.EvalLogic` | apps/antelope/lvm.c:221-298 | the recursive evaluation of predicates equals `RunLogic`, with the position it leaves |
| `LvmMachine.Instance.Execute` | apps/antelope/lvm.c:379-404 | lvm_execute on the machine state equals `Run` on its code and values |
| `LvmMachine.Instance.Derive` | apps/antelope/lvm.c:582-690 | lvm_derive leaves status, derivation table and position exactly as `Derive` says, also where it fails; a range put behind the declared table is recorded |
| `LvmMachine.Instance.GetDerivedRange` | apps/antelope/lvm.c:692-709 | returns the range of the first slot of the name iff one was derived |
| `WhereCompiler.BufferLimits` | apps/antelope/lvm.c:314-370 | at the end of the buffer: jumping and setting the end stay inside it or set the error flag; shifting, which tests for 4 bytes and moves by 8, writes behind the buffer if and only if 4 to 7 bytes are left |
| `WhereCompiler.InsertHolds` | apps/antelope/aql-parser.c:318-342 | shifting for an operator and filling the gap puts the operator node between the code before and the code of the left operand |
| `WhereCompiler.RegisterAllExtends` | apps/antelope/lvm.c:441-460 | registering any list of names keeps the variable table well formed and moves no name |
| `WhereCompiler.LookupStable` | apps/antelope/lvm.c:105-117 | a name that has a slot is looked up to the same slot after any later registrations |
| `WhereCompiler.ChainParse` | apps/antelope/aql-parser.c:290-348 | parsing an arithmetic chain appends exactly its emitted code, consumes exactly its tokens and registers exactly its names |
| `WhereCompiler.ArgParse` | apps/antelope/aql-parser.c:267-288 | the same for an operand or a parenthesised expression on the right of an operator |
| `WhereCompiler.OpsParse` | apps/antelope/aql-parser.c:313-347 | the same for the loop over the operators of one level |
| `WhereCompiler.ComparisonParse` | apps/antelope/aql-parser.c:350-400 | the same for a comparison |
| `WhereCompiler.LinkParse` | apps/antelope/aql-parser.c:402-447 | a connective is inserted in front of the comparison already emitted, and the rest of the clause follows |
| `WhereCompiler.WhereParse` | apps/antelope/aql-parser.c:402-447 | on an empty buffer the parser leaves exactly the code of the clause, without error |
| `AqlParser.Parser.NextToken` | apps/antelope/aql-parser.c:75-110 | consumes one token, or reports the end |
| `AqlParser.Parser.RewindToken` | apps/antelope/aql-parser.c:75-110 | gives back the last token |
| `AqlParser.Parser.Operand` | apps/antelope/aql-parser.c:267-288 | parse_operand on the machine equals `ParseOperand` |
| `AqlParser.Parser.Insert` | apps/antelope/aql-parser.c:318-342 | the operator insertion on the code array equals `InsertOperator` |
| `AqlParser.Parser.Expr` | apps/antelope/aql-parser.c:290-348 | parse_expr on the machine, recursion included, equals `ParseExpr` |
| `AqlParser.Parser.Comparison` | apps/antelope/aql-parser.c:350-400 | parse_comparison on the machine equals `ParseComparison` |
| `AqlParser.Parser.Where` | apps/antelope/aql-parser.c:402-447 | parse_where on the machine equals `ParseWhere`: status, token position, code, variable table |
| `WhereMeaning.ClauseTreeTruth` | apps/antelope/lvm.c:221-298 | when the machine holds the values of a row, the tree of a clause has the truth value of the clause on that row |
| `WhereMeaning.ChainOperation` | apps/antelope/lvm.c:196-213 | a op b in a clause means sum, difference, product and truncated quotient of the two operands in longs, and an error exactly for a zero divisor |
| `WhereMeaning.AtomMeaning` | apps/antelope/lvm.c:146-163 | a name stands for its value in the row and a number for itself |
| `WhereMeaning.LeftGrouping` | apps/antelope/aql-parser.c:313-347 | operators of a level group to the left: a - b - c is (a - b) - c |
| `WhereMeaning.RightGrouping` | apps/antelope/aql-parser.c:413-443 | comparisons group to the right: c1 op1 (c2 op2 c3) |
| `WhereMeaning.SmallClauseReaches` | apps/antelope/lvm.c:441-460 | a clause with no more distinct names than there are slots, the one behind the declared table included, gets a slot for every name |
| `WhereMeaning.TableOverrunIff` | apps/antelope/lvm.c:85-111 | the slot behind the declared table is written if and only if the clause has more distinct names than the table has entries |
| `WhereMeaning.ChainCodeExact` | apps/antelope/aql-parser.c:290-348 | an expression compiles to the code of its tree if and only if no level of it has two operators |
| `WhereMeaning.ClauseCodeExact` | apps/antelope/aql-parser.c:290-447 | a clause compiles to the code of its tree if and only if no arithmetic level of it has two operators; the length is right in any case |
| `WhereMeaning.CompiledClauseMeaning` | apps/antelope/aql-parser.c:290-447 | compiler correctness: a clause with at most one operator a level, names that fit and a large enough buffer parses without error to code whose execution gives the truth value of c1 op1 (c2 op2 (...)), or the leftmost division error, and consumes exactly the code; it leaves the declared table of variables if and only if it has more than three distinct names |
| `WhereMeaning.SecondOperatorMisread` | apps/antelope/aql-parser.c:318-342 | 5 + 3 - 2 < 7 is true, but its code executes as 5 + 3 < 2 - 7 |
| `WhereMeaning.ChainAccepted` | apps/antelope/aql-parser.c:290-348 | expressions are accepted whatever buffer and table hold: the parser stops right behind them |
| `WhereMeaning.LeftParenthesisRejected` | apps/antelope/aql-parser.c:299-322 | a parenthesis at the start of a comparison is a syntax error unless a second closing one follows |
| `WhereMeaning.DoubledParenthesisAccepted` | apps/antelope/aql-parser.c:299-316 | with a second closing parenthesis it is accepted |
| `WhereMeaning.GroupRejected` | apps/antelope/aql-parser.c:428-436 | a group in parentheses behind a connective is a syntax error, whatever it holds and whatever follows, unless another closing parenthesis follows: the last expression of the group has already taken the one that is there |
| `WhereMeaning.DoubledGroupAccepted` | apps/antelope/aql-parser.c:428-436 | with a second closing parenthesis at the end of the clause it is accepted |
| `WhereMeaning.WhereErrorIff` | apps/antelope/aql-parser.c:402-447 | where no connective is directly followed by a parenthesis, parse_where reports an error if and only if the first comparison is malformed |
| `WhereMeaning.DanglingAccepted` | apps/antelope/aql-parser.c:437-441 | the clause 1 = 1 AND, with nothing behind it, counts as no error |
| `LvmDerive.DeriveMeaning` | apps/antelope/lvm.c:582-684 | on the code of a predicate the machine derives what its tree derives and consumes the code exactly |
| `LvmDerive.BalancedSound` | apps/antelope/lvm.c:497-684 | if both sides of every OR constrain the same variables, every assignment that makes the predicate true lies in every derived range |
| `LvmDerive.ConjunctionExact` | apps/antelope/lvm.c:497-537 | for AND-only code without a strict comparison with an end of the number range the predicate is true exactly on the assignments inside all derived ranges |
| `LvmDerive.ConjunctionExactIff` | apps/antelope/lvm.c:649-679 | for every AND-only predicate the ranges say exactly when it is true if and only if it has no strict comparison with an end of the number range, or some range is empty |
| `LvmDerive.StrictEndInexact` | apps/antelope/lvm.c:664-671 | a > LONG_MAX is false for a = 0, which lies in its range: the bound wraps around |
| `LvmDerive.ConjunctionSatisfiable` | apps/antelope/lvm.c:497-537 | an AND-only predicate is satisfiable if and only if no derived range is empty and no strict comparison has an end of the number range; then the lower corner of the ranges satisfies it |
| `LvmDerive.SoundIff` | apps/antelope/lvm.c:497-684 | for every predicate that can be derived, constants first or two constants included: all assignments that make it true lie in the derived ranges if and only if no conjunction of it that can be true allows a variable a value outside them |
| `LvmDerive.PlainMeaning` | apps/antelope/lvm.c:633-679 | a predicate that can be derived cannot fail at run time and has the truth of its form with the variable first |
| `LvmDerive.DerivesWithin` | apps/antelope/lvm.c:497-684 | a derivation leaves the entries of variables that do not occur alone, also where it fails |
| `LvmDerive.CasesTruth` | apps/antelope/lvm.c:221-298 | a clause is true exactly where one of its conjunctions, a side chosen at every OR, is true |
| `LvmDerive.DerivableIff` | apps/antelope/lvm.c:582-684 | a predicate is derived if and only if it is made by AND and OR of =, >, >=, < and <= between a variable in one of the slots and a constant, or two constants of which the low byte of the second names a slot |
| `LvmDerive.UnionBounds` | apps/antelope/lvm.c:553-567 | the bounds of an OR on a variable that both sides constrain are the least and the greatest of the bounds of its sides |
| `LvmDerive.DisjunctionTight` | apps/antelope/lvm.c:497-580 | the ranges of an OR of satisfiable conjunctions over the same variables are sound and cannot be smaller: both bounds of every variable are values with which the predicate is true |
| `LvmDerive.OrSoundIff` | apps/antelope/lvm.c:539-580 | an OR of two sound predicates is sound if and only if a variable that only one side constrains is unconstrained there or the other side is never true |
| `LvmDerive.OrUnsound` | apps/antelope/lvm.c:547-552 | a < 5 OR b < 5 confines a although b alone makes it true |
| `LvmDerive.ConstantFirstSoundIff` | apps/antelope/lvm.c:638-647 | a comparison with the constant first is derived as if swapped: sound for equality, otherwise exactly at an end of the number range |
| `LvmDerive.ConstantsSoundIff` | apps/antelope/lvm.c:630-679 | a comparison of two constants takes the low byte of the second for a slot: where there is such a slot, this is sound if and only if the comparison is false or the range is everything |
| `LvmDerive.ConstantsUnsound` | apps/antelope/lvm.c:630-679 | a = 5 AND 9 > 0 leaves a the empty range from 10 to 5 |
| `MaxHeap.CreatedInv` | apps/antelope/index-maxheap.c:494-585 | a created index satisfies the invariant; its root covers [0, 65535] |
| `MaxHeap.SiblingsDisjoint` | apps/antelope/index-maxheap.c:416-445 | two children of a node never hold the same hash |
| `MaxHeap.PathExact` | apps/antelope/index-maxheap.c:262-293 | iterating heap_find returns, from the root downwards, exactly the nodes of depth 0 to 7 whose range holds the hash |
| `MaxHeap.SplitLeaf` | apps/antelope/index-maxheap.c:416-445 | splitting a leaf writes its two halves, split at the mean, side by side below it |
| `MaxHeap.SplitBottom` | apps/antelope/index-maxheap.c:416-445 | a node of depth 7 that has been split cannot be split again and nothing is written |
| `MaxHeap.SplitKeepsTree` | apps/antelope/index-maxheap.c:416-445 | splitting a full leaf keeps the tree and changes no other node |
| `MaxHeap.InsertKeeps` | apps/antelope/index-maxheap.c:447-492 | every insert, successful or not, keeps the invariant: a tree of ranges whose children come in pairs, only full buckets with children, every pair in a bucket of its own path |
| `MaxHeap.InsertAddsOne` | apps/antelope/index-maxheap.c:447-492 | a successful insert adds exactly one pair and a failed one none; it fails exactly when the path of the key ends at depth 7 in a full bucket |
| `MaxHeapIndex.BuildKeeps` | apps/antelope/index-maxheap.c:447-492 | every run of inserts keeps the invariant and stores exactly the accepted pairs |
| `MaxHeapIndex.CreatedRepresents` | apps/antelope/index-maxheap.c:494-585 | a created index represents the empty map |
| `MaxHeapIndex.BuildRepresents` | apps/antelope/index-maxheap.c:447-492 | after a build phase with distinct keys the store represents the map of the accepted pairs |
| `MaxHeapIndex.SlotOnPath` | apps/antelope/index-maxheap.c:668-750 | a stored key lies in a bucket on the path of its own hash |
| `MaxHeapIndex.Index.InsertNode` | apps/antelope/index-maxheap.c:225-260 | heap_insert on the node array equals `HeapInsert` |
| `MaxHeapIndex.Index.FindNode` | apps/antelope/index-maxheap.c:262-293 | heap_find with its cursor equals `HeapFind` |
| `MaxHeapIndex.Index.SplitBucket` | apps/antelope/index-maxheap.c:416-445 | bucket_split on the node array equals `Split`, also where it fails half way |
| `MaxHeapIndex.Index.AppendPair` | apps/antelope/index-maxheap.c:394-414 | bucket_append writes one slot and one count; the cached copy is not refreshed |
| `MaxHeapIndex.Index.Insert` | apps/antelope/index-maxheap.c:447-492 | insert_item on the arrays equals `InsertItem` |
| `MaxHeapIndex.Index.LoadBucket` | apps/antelope/index-maxheap.c:351-392 | bucket_load leaves the bucket in the cache and the files unchanged |
| `MaxHeapIndex.Index.CollectPath` | apps/antelope/index-maxheap.c:669-707 | the first part of get_next collects exactly the path of the key |
| `MaxHeapIndex.Index.SearchKey` | apps/antelope/index-maxheap.c:708-740 | searching the buckets of the path, with a start that is not reset between them, returns the value of the key iff it is stored |
| `MaxHeapIndex.Index.GetNext` | apps/antelope/index-maxheap.c:668-750 | successive calls return the values of the stored keys in the range, each once and in key order, then INVALID_TUPLE for ever; the recursion terminates |
| `MaxHeapIndex.ListingExact` | apps/antelope/index-maxheap.c:668-750 | the values that an iteration is to return are those of the stored keys in the range, each key once and ascending |
| `MaxHeapIndex.Index.Search` | apps/antelope/index-maxheap.c:668-750 | an iteration from its first call to the end returns exactly these values |
| `InlineIndex.SearchInBoundsIff` | apps/antelope/index-inline.c:104-151 | the binary search stays inside the relation if and only if there is a row and the target is not below the first value |
| `InlineIndex.ProbeExact` | apps/antelope/index-inline.c:104-151 | the search ends on the target exactly when the target is in the column |
| `InlineIndex.SpanCovers` | apps/antelope/index-inline.c:153-181 | a range search covers every row of the range and at most one more row at either end |
| `InlineIndex.SpanWholeIff` | apps/antelope/index-inline.c:104-181 | a range search returns every row if and only if the upper bound lies above the last row but one and the lower bound is the first value, or lies below the second where halving the row count ends at 0 |
| `InlineIndex.Index.BinarySearch` | apps/antelope/index-inline.c:104-151 | the loop with its unsigned bounds returns the position of `Search`, or says that it has come to read a row that does not exist, as in an empty relation; what the source does with the unwritten row buffer then is left out |
| `InlineIndex.Index.GetNext` | apps/antelope/index-inline.c:202-227 | successive calls return the ids of the span one by one, then INVALID_TUPLE for ever |
| `Selection.RowTruth` | apps/antelope/lvm.c:221-298 | the tree of the clause on the values of a row has the truth value of the clause on the row |
| `Selection.RowReads` | apps/antelope/relation.c:786-812 | in a row every attribute name of a clause stands for the value in its own column |
| `Selection.ProjectIs` | apps/antelope/relation.c:786-812 | the result row has one value for every stored attribute, in their order, each that of its column |
| `Selection.ResultUnique` | apps/antelope/relation.c:786-812 | there is one such result row |
| `Selection.ScanExact` | apps/antelope/relation.c:735-845 | a scan yields the results of exactly the accepted rows, in the order of the relation |
| `Selection.DerivedRangeHolds` | apps/antelope/lvm.c:582-684 | a row that makes the predicate true lies in the range derived for an attribute |
| `Selection.SpanCompleteIff` | apps/antelope/relation.c:735-845 | looking only at a span of rows loses nothing if and only if no wanted row lies outside it |
| `Selection.IndexedScanComplete` | apps/antelope/relation.c:630-709 | select over an inline index with a sound range yields the row sequence of the plain scan |
| `Selection.IndexedRest` | apps/antelope/relation.c:630-709 | the same for an equality range, whether its value is present or absent |
| `Selection.IndexedRemoveCompleteIff` | apps/antelope/relation.c:712-732 | REMOVE, which keeps the rows that fail the predicate, keeps them all under an index if and only if bounds and column are such that the search returns every row |
| `Selection.RemoveLosesRows` | apps/antelope/relation.c:712-732 | removing a >= 3 AND a <= 4 from the rows 1, 2, 3, 4 loses the rows 1 and 2 |
| `Selection.AbsentValue` | apps/antelope/relation.c:735-845 | if the derived range is a single value that no row has, no row is wanted |
| `Selection.AbsentValueFails` | apps/antelope/relation.c:735-770 | a = 2 over the rows 1 and 3 with an index on a: the search fails, so that the query ends in DB_INDEX_ERROR |
| `Selection.WiderRangeChosen` | apps/antelope/relation.c:639-660 | for a = 5 AND b >= 0 the index on b is searched, through all values from 0 on, though the range of a is a single value |
| `Selection.SmallestChosenIff` | apps/antelope/relation.c:639-660 | the chosen range is the smallest if and only if no earlier indexed attribute has a smaller one |
| `Selection.Handle.constructor` | apps/antelope/relation.c:873-958 | a machine that holds the compiled clause and the indexes of the relation make a valid handle |
| `Selection.Handle.SelectIndex` | apps/antelope/relation.c:630-672 | exactly the last attribute with an index and a derived range is searched, with its bounds; none only if none qualifies |
| `Selection.Handle.Begin` | apps/antelope/relation.c:674-710 | after generate_selection_result the rows to come are those of the plain scan, with or without a chosen index |
| `Selection.Handle.LoadRow` | apps/antelope/relation.c:786-812 | the row is copied attribute by attribute: the result row has the value of its column for every stored attribute, and the machine has the value of every name |
| `Selection.Handle.TestRow` | apps/antelope/relation.c:786-823 | the predicate executed on the loaded row has the truth value of the clause |
| `Selection.Handle.NextFromIndex` | apps/antelope/relation.c:756-770 | the next id of the index, or the end; DB_INDEX_ERROR exactly for the first request of an equality search for an absent value |
| `Selection.Handle.Process` | apps/antelope/relation.c:735-845 | one call hands out the next of the rows to come, or skips an unwanted one, or finds none left; calls without a row get fewer; DB_INDEX_ERROR exactly for a failed equality search |
| `Selection.Handle.RunToEnd` | examples/antelope/shell/shell-db.c:77-103 | the loop of a caller gets exactly the rows to come and ends in DB_FINISHED, or in DB_INDEX_ERROR exactly for a failed equality search |
| `Selection.ParsedClause` | apps/antelope/aql-parser.c:290-447 | the parser leaves the code of the tree of the clause and a slot for every name |
| `Selection.Compile` | apps/antelope/aql-parser.c:402-447 | a machine that has been reset holds the code of the clause and its names after parsing, and has been written outside its tables exactly if the names do not fit them |
| `Selection.Select` | apps/antelope/aql-exec.c:190-232 | a query from its tokens to the end: compiled, an index chosen, processed until the end, it yields, for exactly the accepted rows in the order of the relation, the values of the stored attributes, which are the rows of the plain scan; the last result is DB_INDEX_ERROR exactly if the chosen range is a value that no row has; whether the declared tables have been left is said exactly |
| `Selection.LeavesTablesIff` | apps/antelope/lvm.c:85-111 | the tables are left if and only if the clause has more than three names, a range is derived behind them, or three names fill the table and a row is looked at for a result with another attribute |
| `Selection.ThreeNamesSuffice` | apps/antelope/lvm.c:85-111 | up to three names, other attributes only with fewer than three, and no comparison of two numbers: nothing is put behind the tables |
| `Selection.FourNamesLeave` | apps/antelope/lvm.c:85-111 | a = 1 AND b = 1 AND c = 1 AND d = 1 writes d behind the table |
| `Join.PairsExact` | apps/antelope/relation.c:963-1056 | a pair of rows occurs once in the join when its join attributes are equal and otherwise not at all |
| `Join.PairsOrdered` | apps/antelope/relation.c:963-1056 | the pairs come in the order of the left rows |
| `Join.Handle.Process` | apps/antelope/relation.c:963-1056 | every call, resuming inside the loops, hands out exactly the next pair, as a row that has for each attribute the value of its column on its side; at the end the handle is where it was before the first call |
| `Join.Handle.Inner` | apps/antelope/relation.c:1012-1052 | the inner loop goes on where the last call stopped |
| `Join.Handle.BuildRow` | apps/antelope/relation.c:1033-1041 | the joined row has for each attribute of the result the value of its column in the left or the right row |
| `Join.JoinRowJoined` | apps/antelope/relation.c:1033-1041 | so does the row that specifies it, whatever the sources |
| `Join.PairsAll` | apps/antelope/relation.c:963-1056 | the pairs from the first left row on are those with equal join attributes, each once, in the order of the left rows |
| `Join.Handle.RunToEnd` | examples/antelope/shell/shell-db.c:77-103 | the loop of a caller gets the rows of exactly the pairs that are left |
| `Join.Execute` | apps/antelope/relation.c:963-1056 | a join from its first call to its end is the equi-join: the joined row of every pair of rows with equal join attributes once, in the order of the left rows |
| `JoinIndex.InlineServesIff` | apps/antelope/index-inline.c:104-181 | an equality search in an inline index returns exactly the rows with the value where it stays inside the relation, that is for values not below the first one |
| `JoinIndex.InlineJoin` | apps/antelope/relation.c:1002-1016 | with the rows that such searches return an inline index meets what the join expects of an index |
| `JoinIndex.HeapJoin` | apps/antelope/relation.c:1002-1016 | so does a maxheap index that maps every right value to its row |
| `CoapOptions.HeaderRoundTrip` | apps/er-coap/er-coap.c:109-133 | an option header of any delta and length is read back, with the position behind it |
| `CoapOptions.IntBytesDigits` | apps/er-coap/er-coap.c:135-171 | the bytes of an integer are its base 256 digits |
| `CoapOptions.IntRoundTrip` | apps/er-coap/er-coap.c:84-95 | an integer is read back from its bytes, which have no leading zero |
| `CoapOptions.MergeJoins` | apps/er-coap/er-coap.c:220-239 | merging parts of which the first is not empty gives the parts joined by the separator |
| `CoapOptions.SplitMergeIff` | apps/er-coap/er-coap.c:173-218 | a path or query survives splitting and merging if and only if it does not begin with the separator and does not end with an odd number of them |
| `CoapOptions.LeadingSeparatorLost` | apps/er-coap/er-coap.c:226-238 | a string that begins with the separator comes back shorter |
| `CoapMessage.BlockRoundTrip` | apps/er-coap/er-coap.h:164-174 | a block option of a power-of-two size from 16 to 2048 is read back with number, more bit, size and the offset that follows |
| `CoapMessage.ParseEncoded` | apps/er-coap/er-coap.c:471-690 | the parser reads back any ordered list of supported options, whatever follows, and stops right behind it |
| `CoapMessage.FirstRefused` | apps/er-coap/er-coap.c:574-684 | the first refused option ends the parser with 5.05 for Proxy options and 4.02 for unknown critical ones, whatever came before and follows |
| `CoapMessage.OptionsOrdered` | apps/er-coap/er-coap.c:353-390 | the options of a message are written in ascending order and within the encodable lengths |
| `CoapMessage.FieldsRoundTrip` | apps/er-coap/er-coap.c:353-390 | applying the options of a message field by field gives the message, all numbers below a limit being treated |
| `CoapMessage.MessageArrives` | apps/er-coap/er-coap.c:308-690 | parsing the datagram of a sendable message gives NO_ERROR, the same header, token, option bits, field values and payload, and paths and queries as they survive splitting |
| `CoapMessage.MessageRoundTripIff` | apps/er-coap/er-coap.c:308-690 | the message arrives exactly as sent if and only if its paths and queries survive splitting |
| `CoapWire.WireReads` | apps/er-coap/er-coap.c:308-420 | the datagram of any well-formed message, by the numbers of RFC 7252: header bits, token, the options of the message found again by a reader of the format, marker and payload; 4 bytes for code 0, nothing if the head is longer than 62 bytes |
| `CoapWire.OptionsRead` | apps/er-coap/er-coap.c:109-133 | any ordered list of options is found again behind its deltas and lengths of one, two or three bytes |
| `CoapWire.ParsedFrom` | apps/er-coap/er-coap.c:492-689 | from any point of any datagram on, the parser applies the options that the format finds there, up to the first refused one |
| `CoapWire.ParsedMessage` | apps/er-coap/er-coap.c:423-690 | on any datagram: 4.00 for another version than 1 or a token of more than 8 bytes, an option behind the end or a number above 60; otherwise the first refused option decides, and every field is what the options give: the last value, as a big-endian number in 16 or 32 bits, cut to 8 bytes or as it is, the joined parts, the block, the payload up to 64 bytes; header and token are kept for the reply |
| `CoapWire.FieldsGiven` | apps/er-coap/er-coap.c:539-687 | applying options to a blank packet gives exactly those fields |
| `CoapWire.IntRead` | apps/er-coap/er-coap.c:84-95 | an integer option of any length is its big-endian number modulo 2^32 |
| `CoapWire.ReservedLengthAccepted` | apps/er-coap/er-coap.c:492-516 | a length nibble of 15, a format error in section 3.1 of RFC 7252, is read as 15 bytes |
| `CoapWire.BlockWritten` | apps/er-coap/er-coap.h:164-174 | a block option of any size: number, exponent of the size rounded down to a power of two, and the more bit, which sizes from 4096 on set too |
| `CoapWire.ProxyWritten` | apps/er-coap/er-coap.h:158-163 | Proxy-Uri and Proxy-Scheme are written under their numbers |
| `CoapCodec.Serializer.SetOptionHeader` | apps/er-coap/er-coap.c:109-133 | appends the header to the buffer and leaves what is before it |
| `CoapCodec.Serializer.IntOption` | apps/er-coap/er-coap.c:135-171 | the mask tests and shifts append header and shortest bytes of the integer |
| `CoapCodec.Serializer.ArrayOption` | apps/er-coap/er-coap.c:210-217 | appends header and bytes of an array |
| `CoapCodec.Serializer.SplitOption` | apps/er-coap/er-coap.c:179-209 | the splitting loop appends one option for every part, all but the first with delta zero |
| `CoapCodec.Serializer.PutInt` | apps/er-coap/er-coap.h:137-142 | the macro keeps the bookkeeping of the last number: everything up to the next number is written |
| `CoapCodec.Serializer.PutBytes` | apps/er-coap/er-coap.h:143-157 | the same for byte options |
| `CoapCodec.Serializer.PutString` | apps/er-coap/er-coap.h:158-163 | the same for split strings |
| `CoapCodec.Serializer.PutToken` | apps/er-coap/er-coap.c:343-352 | the token is copied and the counter that doubles as option number is reset |
| `CoapCodec.Serializer.SerializeMessage` | apps/er-coap/er-coap.c:308-420 | the buffer holds exactly the datagram of the message; 0 is returned exactly when the head is too long |
| `CoapCodec.Parser.ParseIntOption` | apps/er-coap/er-coap.c:84-95 | the shift loop computes the integer of the bytes modulo 2^32 |
| `CoapCodec.Parser.MergeMultiOption` | apps/er-coap/er-coap.c:220-239 | the field becomes the merged text inside the datagram; no byte before its old end and no byte from the end of the option on changes |
| `CoapCodec.MergeKeepsOthers` | apps/er-coap/er-coap.c:606-637 | in-place merging changes no other string parsed before |
| `CoapCodec.Parser.StringOption` | apps/er-coap/er-coap.c:606-637 | for the four joined options the packet changes as on values, the strings stay separate and the bytes behind the option stay |
| `CoapCodec.Parser.Option` | apps/er-coap/er-coap.c:539-687 | the switch over the option number equals `Apply` on the packet with its texts |
| `CoapCodec.Parser.NextOption` | apps/er-coap/er-coap.c:492-689 | one turn of the loop equals one step of `ParseFrom` on the datagram as it came |
| `CoapCodec.Parser.Payload` | apps/er-coap/er-coap.c:473-489 | the payload is cut at the chunk size; its terminator is the only byte that can change behind the datagram |
| `CoapCodec.Parser.ParseMessage` | apps/er-coap/er-coap.c:423-690 | on any datagram, status and packet are those of `ParseMessage` on the datagram as it came, although it is edited while it is read |
| `CoapTransactions.FirstIntervalBounds` | apps/er-coap/er-coap-transactions.h:48-49 | the first interval lies above the timeout and at most at 1.5 times the timeout |
| `CoapTransactions.FirstIntervalsExact` | apps/er-coap/er-coap-transactions.h:48-49 | the first intervals are all the ticks above 3 seconds and up to 4.5 seconds, rounded up |
| `CoapTransactions.NewKeepsValid` | apps/er-coap/er-coap-transactions.c:71-89 | listed transactions stay exactly the allocated slots; a slot is found unless all are listed |
| `CoapTransactions.ClearKeepsValid` | apps/er-coap/er-coap-transactions.c:150-159 | clearing keeps list and pool in agreement and removes exactly the one transaction |
| `CoapTransactions.SendKeepsValid` | apps/er-coap/er-coap-transactions.c:97-148 | sending keeps list and pool in agreement; the transaction stays listed exactly if it is confirmable and not timed out |
| `CoapTransactions.FindExact` | apps/er-coap/er-coap-transactions.c:161-173 | the lookup finds the first listed transaction with the message id, and nothing if there is none |
| `CoapTransactions.CheckExact` | apps/er-coap/er-coap-transactions.c:175-187 | a check handles exactly the expired transactions up to the first one that it closes; all others are as before |
| `CoapTransactions.RunKeeps` | apps/er-coap/er-coap-transactions.c:71-187 | in every run of events: listed transactions are the allocated slots, and an open one has been sent once more than its counter says, with waits of at least T0, 2 T0, 4 T0 |
| `CoapTransactions.ClosedByCheck` | apps/er-coap/er-coap-transactions.c:175-187 | a check closes a transaction only when it has been sent 1 + COAP_MAX_RETRANSMIT times, never too early |
| `CoapTransactions.UnansweredScheduleIff` | apps/er-coap/er-coap-transactions.c:97-187 | an unanswered transaction in any run, whatever the other slots do, is sent 1 + COAP_MAX_RETRANSMIT times and closed after at least 15 T0; after exactly 15 T0, sent at 0, T0, 3 T0, 7 T0 and 15 T0, if and only if the clock never passed its timer |
| `CoapTransactions.TimelyRuns` | apps/er-coap/er-coap-transactions.c:97-187 | in every run in which the clock passes no timer every open transaction has exact waits, and each one that a check closes was open for exactly 15 T0 |
| `CoapTransactions.OnTimeRun` | apps/er-coap/er-coap-transactions.c:97-187 | across any run an open transaction is still on time if and only if it was and the clock never passed its timer |
| `CoapTransactions.WaitsAddUp` | apps/er-coap/er-coap-transactions.c:97-148 | the waits of a transaction that was given up come to 15 T0 if and only if each of them was exact |
| `CoapTransactions.SilentServer` | apps/er-coap/er-coap-transactions.c:97-187 | such a run exists from the initial state: a server that keeps silent |
| `CoapTransactions.Transactions.MembAlloc` | apps/er-coap/er-coap-transactions.c:74-74 | the first free slot is taken |
| `CoapTransactions.Transactions.NewTransaction` | apps/er-coap/er-coap-transactions.c:71-89 | equals `New` on pool and list: the first free slot, at the end of the list, with the message id and no transmission |
| `CoapTransactions.Transactions.ClearTransaction` | apps/er-coap/er-coap-transactions.c:150-159 | equals `Clear` |
| `CoapTransactions.Transactions.SendTransaction` | apps/er-coap/er-coap-transactions.c:97-148 | equals `Send` |
| `CoapTransactions.Transactions.GetByMid` | apps/er-coap/er-coap-transactions.c:161-173 | the first listed transaction with the message id |
| `CoapTransactions.Transactions.CheckTransactions` | apps/er-coap/er-coap-transactions.c:175-187 | the walk over the list, which ends where list_remove has cleared the link, equals `Check` |
| `CoapLedger.StepList` | apps/er-coap/er-coap-transactions.c:71-187 | after any event the list holds what was listed and stays open, in its order, and behind it what the event has opened |
| `CoapLedger.HistoryMatches` | apps/er-coap/er-coap-transactions.c:71-187 | in every run a ledger of the opened ids, kept beside the pool, agrees with list and pool |
| `CoapLedger.ResponseClosesFirst` | apps/er-coap/er-coap-transactions.c:150-173 | in every run from the start a response closes exactly the first open transaction that was opened with its message id, and nothing if there is none |
| `CoapLedger.OpenedIsFound` | apps/er-coap/er-coap-transactions.c:71-173 | a transaction that has just been opened is found by its id if no open one has it |
| `WellKnownCore.Handler.AddChar` | apps/er-coap/er-coap-res-well-known-core.c:54-58 | a character lying in the window is written next, others only counted |
| `WellKnownCore.Handler.AddString` | apps/er-coap/er-coap-res-well-known-core.c:60-74 | the part of the string in the window is written; the loop is left exactly when the text reaches (for attributes: passes) the end of the window |
| `WellKnownCore.Handler.AddResource` | apps/er-coap/er-coap-res-well-known-core.c:160-176 | one resource: the walk is broken off exactly when the text passes the end of the window, which is then full |
| `WellKnownCore.Handler.Get` | apps/er-coap/er-coap-res-well-known-core.c:79-203 | the payload, cut to the size, is exactly the window of the listing at the offset; the offset becomes -1 exactly if the window reaches the end |
| `WellKnownCore.WindowString` | apps/er-coap/er-coap-res-well-known-core.c:60-74 | the window of a text grows by exactly the part of a string that lies in it |
| `WellKnownCore.ListingReads` | apps/er-coap/er-coap-res-well-known-core.c:160-176 | a reader of link format, which separates links at commas outside of targets and quotes, finds in the listing exactly the links of the resources, in order |
| `CoapBlockwise.CutBlock` | apps/er-coap/er-coap-engine.c:145-206 | the block option and the payload of the reply, for resources that know about blocks and for those that do not; 5.01 for a Block1 option that the resource does not answer |
| `CoapBlockwise.GetListing` | apps/er-coap/er-coap-engine.c:120-206 | a GET of the listing through handler and engine gives the reply of `ListingReply` |
| `CoapBlockwise.ListingReplyIsSliceIff` | apps/er-coap/er-coap-engine.c:125-131 | the reply is the block that it is labelled as if and only if the requested size was not above the engine's own, the number is 0, or the listing repeats itself at the two offsets |
| `CoapBlockwise.OtherReplies` | apps/er-coap/er-coap-engine.c:120-206 | without a block option the first 64 bytes come as block 0; a block behind the end is answered with 4.02 and BlockOutOfScope, and of an empty listing there is an empty block |
| `CoapBlockwise.BlockFromWrongOffset` | apps/er-coap/er-coap-engine.c:125-131 | a listing for which block 1 of 128 bytes is answered with other bytes than block 1 of 64 |
| `CoapBlockwise.ResumeCounts` | apps/er-coap/er-coap-engine.c:394-441 | one turn of the client loop keeps numbers and counters in step |
| `CoapBlockwise.RunCounts` | apps/er-coap/er-coap-engine.c:376-442 | in every run the delivered block numbers are 0, 1, 2, ...; answered requests are the delivered blocks and at most COAP_MAX_ATTEMPTS others |
| `CoapBlockwise.RunFollows` | apps/er-coap/er-coap-engine.c:376-442 | in every run, from what has arrived alone: the loop waits for an answer if and only if all requests could be sent and were answered, the last block option announces more and fewer than four answers were another block than the next; then it has asked for the next block of 64 bytes every time and handed over exactly the payloads that came in order |
| `CoapBlockwise.RunEnds` | apps/er-coap/er-coap-engine.c:418-441 | the answer that ends the loop is handed over too if it is the next block, and nothing after it |
| `CoapBlockwise.ErrorTexts` | apps/er-coap/er-coap-engine.c:150-172 | the two error texts are BlockOutOfScope and NoBlock1Support |
| `CoapBlockwise.PrefixDelivered` | apps/er-coap/er-coap-engine.c:376-442 | against a server that slices a body at one block size, the delivered bytes are always a prefix of it, whatever blocks arrive |
| `CoapBlockwise.CompleteIff` | apps/er-coap/er-coap-engine.c:394-441 | when an answer ends the loop, the whole body has been delivered if and only if the answer was the expected block and the last |
| `CoapBlockwise.LastBlockEndsEarly` | apps/er-coap/er-coap-engine.c:428-441 | the last block, arriving while an earlier one is expected, ends the loop without an error |
| `CoapBlockwise.DiscoveryComplete` | apps/er-coap/er-coap-engine.c:376-442 | client loop, engine and listing handler together: the client ends with exactly the listing and no wrong block |
| `CoapBlockwise.BlockingRequest.Poll` | apps/er-coap/er-coap-engine.c:418-441 | the protothread between two yields equals `Resume` |
| `CoapBlockwise.BlockingRequest.RequestBlock` | apps/er-coap/er-coap-engine.c:394-416 | the head of the loop equals `SendRequest` |
| `Slip.OnlyEndsFrames` | tools/tunslip6.c:343-374 | END occurs in an encoded packet exactly as its last byte; with flow control XON and XOFF do not occur |
| `Slip.ChunksDoNotMatter` | tools/tunslip6.c:171-335 | decoding gives the same however the bytes are cut into reads, even behind an ESC |
| `Slip.DecodeEncoded` | tools/tunslip6.c:187-335 | what the decoder makes of any list of packets: of each the bytes behind its last full buffer |
| `Slip.LineBytes` | tools/tunslip6.c:187-374 | the bytes on the line by their values, in both directions; an unknown escape stands for itself |
| `Slip.RoundTripIff` | tools/tunslip6.c:187-335 | a list of packets is decoded as sent if and only if every packet has 1 to 1999 bytes, with flow control on or off |
| `Slip.Delivered` | tools/tunslip6.c:415-478 | encoding, cutting the line anywhere and decoding give back the packets |
| `Slip.Tunnel.SerialToTun` | tools/tunslip6.c:171-335 | the loop over the statics equals `Feed`; an ESC at the end is put back |
| `Slip.Serial.Send` | tools/tunslip6.c:376-384 | appends a byte or gives up when the buffer is full |
| `Slip.Serial.SendChar` | tools/tunslip6.c:342-374 | appends what stands for the byte |
| `Slip.Serial.WriteToSerial` | tools/tunslip6.c:415-478 | appends the encoded packet; gives up exactly if it does not fit behind what is still buffered |
| `Slip.Serial.FlushBuf` | tools/tunslip6.c:392-412 | nothing is lost, repeated or reordered by partial writes |
| `Checksum.SumWords` | tools/tunslip.c:342-361 | ip4sum is congruent to start plus big-endian words modulo 65535, and 0 only if all of them are |
| `Checksum.SumSplit` | tools/tunslip.c:342-361 | ip4sum composes over a split at an even position |
| `Checksum.CheckMeaning` | tools/tunslip.c:363-411 | what check_ip accepts and which code it gives otherwise, by the plain sums: version 4, the length that was read, header words and segment words with pseudo header that are multiples of 65535, a UDP checksum of 0 |
| `Checksum.SwapAdd` | tools/tunslip.c:642-651 | adding a complement end-around in the other byte order comes to the same modulo 65535 |
| `Checksum.AddedSum` | tools/tunslip.c:642-651 | the updated checksum has lost what the identification has gained, on either byte order |
| `Checksum.PatchKeepsIff` | tools/tunslip.c:642-655 | a valid packet that is given an identification stays valid if and only if its header length is not 8 or the identification counts as zero |
| `Checksum.ShortHeaderBreaks` | tools/tunslip.c:642-655 | a packet with header length 8 that passes the check, is given an identification, and then fails |
| `Checksum.TestedBit` | tools/tunslip.c:642 | the bit that the don't-fragment test looks at: the flag on a big-endian host, bit 6 of the fragment offset on a little-endian one |
| `Checksum.FlagTestedIff` | tools/tunslip.c:642 | a packet without identification is judged by its flag if and only if the host is big-endian or that bit agrees with the flag |
| `Checksum.FlagMissed` | tools/tunslip.c:642 | an unfragmented packet with the flag and no identification that a little-endian host leaves as it is |
| `Checksum.Ip4Sum` | tools/tunslip.c:342-361 | the loop computes `Sum` of the bytes, an odd last byte included |
| `Checksum.CheckPacket` | tools/tunslip.c:363-411 | check_ip on a buffer equals `CheckIp` |
| `Checksum.PatchId` | tools/tunslip.c:642-651 | the in-place update satisfies `Patched` on either byte order |
| `Checksum.Prepare` | tools/tunslip.c:636-655 | a packet is dropped exactly if it fails the check or is one that the patch makes invalid; an identification is used up and written exactly if a valid packet needs one |
| `Checksum.ClientMessageFields` | tools/tunslip.c:242-250 | the message to the client is that of the server with one hop more, no relay address and the chosen options |
| `Checksum.WriteToSerial` | tools/tunslip.c:626-680 | what passes goes out as one frame; nothing else does |
| `Checksum.RelayAccepted` | tools/tunslip.c:297-327 | a packet with both checksums filled in as the relay does passes check_ip |
| `Checksum.RelayToClient` | tools/tunslip.c:228-327 | the packet that the DHCP relay builds, field by field: addresses, ports 67 and 68, lengths, TTL 64, a UDP checksum that is not 0; it passes check_ip and is not patched |
| `Json.ScanPieces` | apps/json/jsonparse.c:76-86 | the string scan stops right behind the closing quote, escapes skipped |
| `Json.CopyPieces` | apps/json/jsonparse.c:270-297 | copying a string gives its pieces with the escapes resolved, cut to the room there is |
| `Json.CopyWritten` | apps/json/jsonparse.c:270-305 | copying the written form of any text without NUL, in which line break, carriage return, tabulator, backspace, form feed, quote, backslash and slash are escaped, gives the text back, cut to the room |
| `Json.UnknownEscape` | apps/json/jsonparse.c:280-297 | any other escape, \u included, leaves nothing |
| `Json.TextDocument` | apps/json/jsonparse.c:160-305 | such a text as a document gives one event, with the text |
| `Json.ValueParses` | apps/json/jsonparse.c:160-264 | inside any document, the calls on a value give exactly its events, leave the stack as it was and need exactly its depth on it |
| `Json.DocumentParses` | apps/json/jsonparse.c:160-264 | every value printed without white space gives exactly its event sequence, strings unescaped, then 0 with depth 0 and no error; the stack is large enough if and only if the value is nested at most JSONPARSE_MAX_DEPTH deep |
| `Json.LineBreakBehindLiteral` | apps/json/jsonparse.c:99-121 | true followed by a line break is refused |
| `JsonSpace.LiteralIff` | apps/json/jsonparse.c:99-121 | where a value may stand, a literal is accepted if and only if a blank, a comma, a closing bracket or brace or the end follows it |
| `JsonSpace.CallsAgree` | apps/json/jsonparse.c:125-256 | a call on two texts with the same tokens and skippable white space has the same result and stops before the same token |
| `JsonSpace.StuckCall` | apps/json/jsonparse.c:99-134 | a call that meets a tabulator or carriage return, or a literal with a line break behind it, returns an error |
| `JsonSpace.SpacedDocumentIff` | apps/json/jsonparse.c:66-256 | a value with any white space around its tokens gives exactly its events and then the end if and only if that is made of blanks and line breaks and no line break directly follows a literal; the depth limit is then that of the value |
| `JsonGrammar.SaneRun` | apps/json/jsonparse.c:160-264 | every run without an error, on any text, is in a state that has its place in the grammar |
| `JsonGrammar.RefusedCall` | apps/json/jsonparse.c:160-264 | in every such state, a character that is neither in the grammar of RFC 8259 nor among the tolerated ones is refused with the error code of its token |
| `JsonGrammar.OpenCall` | apps/json/jsonparse.c:174-181 | an opening bracket is returned and pushed |
| `JsonGrammar.CloseCall` | apps/json/jsonparse.c:182-197 | the closing bracket of the open container is returned and leads behind that container |
| `JsonGrammar.CommaCall` | apps/json/jsonparse.c:207-217 | a comma leads to the next name or value |
| `JsonGrammar.ColonCall` | apps/json/jsonparse.c:198-206 | a colon is passed over and the same call goes on with the value |
| `JsonGrammar.ValueCall` | apps/json/jsonparse.c:218-262 | a string, number or literal is read as its kind and leads behind the value; one that is spelled wrong is a syntax error |
| `JsonGrammar.EndCall` | apps/json/jsonparse.c:234-238 | the end of the text is an error unless the document is complete |
| `JsonGrammar.StringClosed` | apps/json/jsonparse.c:76-86 | the scan of a string ends behind the first quote with an even number of backslashes in front of it, and fails if there is none |
| `JsonGrammar.LiteralRead` | apps/json/jsonparse.c:99-121 | a literal is accepted if and only if it is null, true or false up to the end, a blank, a comma or a closing bracket or brace |
| `JsonGrammar.ToleratedDocument` | apps/json/jsonparse.c:160-264 | [,1"x"] is read without an error and is no value of the grammar |
| `JsonRuns.StrictRun` | apps/json/jsonparse.c:160-264 | the converse of DocumentParses, on any text without NUL: when every call has met a token that the grammar allows at its place and the document is complete, the events are those of a value |
| `JsonRuns.ReadValue` | apps/json/jsonparse.c:160-264 | inside any such run, the calls on a value return its events and lead behind it |
| `Json.Parser.PushType` | apps/json/jsonparse.c:37-44 | push onto the stack array |
| `Json.Parser.ModifyType` | apps/json/jsonparse.c:46-52 | the top of the stack is replaced |
| `Json.Parser.PopType` | apps/json/jsonparse.c:54-63 | the top is removed and becomes the current type |
| `Json.Parser.SkipSpace` | apps/json/jsonparse.c:126-135 | stops at the first character that is no white space |
| `Json.Parser.AtomicValue` | apps/json/jsonparse.c:68-124 | atomic equals `Atomic`, with position, start and length of the value |
| `Json.Parser.NextEvent` | apps/json/jsonparse.c:160-264 | jsonparse_next equals `Next`: event, stack, type, error |
| `Json.Parser.CopyValue` | apps/json/jsonparse.c:269-298 | the buffer holds the unescaped text as far as it fits, terminated; other values leave it alone |
| `CodeProp.PieceFits` | apps/codeprop/codeprop.c:308-320 | the next piece fits and extends what is stored to a longer prefix of the image |
| `CodeProp.ReceiveKeeps` | apps/codeprop/codeprop.c:273-354 | every packet keeps the invariant of the receiver |
| `CodeProp.RunKeeps` | apps/codeprop/codeprop.c:198-354 | in every run under loss, repetition and reordering: a receiver whose first packet was that of address 0 holds exactly the image below its address, which stays below the length, and programs are started only when everything is stored |
| `CodeProp.StartedImageIff` | apps/codeprop/codeprop.c:287-306 | the started program is the sender's image if and only if the first packet was that of address 0 or held the bytes that the image begins with |
| `CodeProp.SecondPacketFirst` | apps/codeprop/codeprop.c:292-297 | a receiver that hears the second packet first starts the wrong program |
| `CodeProp.NackRecovers` | apps/codeprop/codeprop.c:236-250 | while the sender is sending, a NACK that gets through and its answer bring the receiver forward by a packet |
| `CodeProp.NacksExact` | apps/codeprop/codeprop.c:265-346 | a packet is answered by a NACK if and only if it is data from behind the byte that the receiver waits for, and the NACK names that byte |
| `CodeProp.Ignored` | apps/codeprop/codeprop.c:273-354 | NACKs, other programs, old programs and bytes that are stored already change nothing |
| `CodeProp.HeardIff` | apps/codeprop/codeprop.c:242-249 | a NACK moves the sender back to the byte that it names and never forward |
| `CodeProp.StartedOnce` | apps/codeprop/codeprop.c:273-354 | in every run the ids of the started programs ascend: none is started twice or after a newer one |
| `CodeProp.LosslessDelivery` | apps/codeprop/codeprop.c:198-354 | when nothing is lost, a new image is stored by as many packets as it has pieces of 32 bytes and its program is started with exactly its bytes |
| `CodeProp.Node.SendNack` | apps/codeprop/codeprop.c:265-271 | overwrites type and address in the packet buffer and sends the header |
| `CodeProp.Node.TakePacket` | apps/codeprop/codeprop.c:304-325 | one turn of the receiving loop equals `Take` |
| `CodeProp.Node.RecvUdp` | apps/codeprop/codeprop.c:273-354 | the protothread on a packet equals `Receive`, fall-through behind the first NACK included |
| `CodeProp.Node.NackTimer` | apps/codeprop/codeprop.c:334-346 | a NACK for the current address |
| `CodeProp.Broadcaster.SendData` | apps/codeprop/codeprop.c:198-222 | the packet carries the next piece of the image and the address moves behind it |
| `CodeProp.Broadcaster.Hears` | apps/codeprop/codeprop.c:242-249 | a NACK moves the address back, never forward |

## Left out

- Lexing of AQL and all statements but WHERE clauses: the parser starts from tokens; table lookup and record filling would add easy members.
- String and float operands and NOT: the compiler gives strings and floats no code, and the meaning theorem covers identifiers and integers.
- WhereMeaning.DoubledGroupAccepted: what the code of such a clause, with its closing parenthesis too many, executes as.
- WhereMeaning.CompiledClauseMeaning: says nothing about clauses with two operators on a level or a parenthesis on the left; ClauseCodeExact and LeftParenthesisRejected say exactly what becomes of them.
- Selection.IndexedScanComplete: needs a strictly increasing column and bounds not below its first value, which is what the inline index is defined for; SearchInBoundsIff shows that below it the search leaves the relation.
- Selection.Select: for clauses that compile as written, a buffer and slots that hold them, and, where an index is searched, bounds like these and a sound derivation; a query without WHERE, or whose parsing fails, has no rows to speak of here. The slot behind the declared tables is empty at the start, whatever an earlier query has left there.
- Selection.Handle.Process: aggregation, storing rows in a result relation and the storage errors are not part of it.
- InlineIndex.Index.BinarySearch: ends at the first read outside the relation; the C code goes on with the row buffer as it was.
- InlineIndex.Index.GetNext: bounds below the first value of the column, for which binary_search reads a row that does not exist.
- AqlParser.Parser.Operand: the attribute list of the statement, to which the C code adds every identifier, is not modelled; `Query.Valid` asks that the query loads every name of its clause.
- Aggregation, assignment of results to relations and projection into storage layouts: rows are sequences of integers.
- Storage failures, CFS and EEPROM: files are arrays, reads and writes succeed.
- MaxHeapIndex.Index.GetNext: needs a store that no insert has changed since its buckets were cached, because bucket_append does not refresh the cache; duplicate keys and loading after a restart are not modelled.
- MaxHeapIndex.Index.SearchKey: the same condition on the cache.
- MaxHeapIndex.Index.LoadBucket: the same condition on the cache.
- The memhash index, which is not registered.
- Unique attributes, for which index_get_next stops behind the first row of an equality search, and range searches in an index that has none.
- CoapMessage.MessageArrives: needs a non-zero code, no Proxy options (the parser refuses them) and block sizes from 16 to 2048; a message with code 0 is its fixed header alone.
- CoapCodec.Parser.ParseMessage: needs 12 readable bytes behind the datagram, which the C parser reads without asking.
- CoapCodec.Serializer.SerializeMessage: needs a buffer for the head that is being written, which the C code does not check; a payload that already lies in the buffer is taken as a value.
- Packet fields set by the header accessors of CoAP, observers, separate responses, and the reply to messages that cannot be parsed.
- CoapTransactions.Transactions.SendTransaction: the callback of a transaction and the removal of observers when it times out are not modelled.
- WellKnownCore.Handler.Get: query filters of the listing; resources with no attributes and with empty ones are one case.
- CoapBlockwise.PrefixDelivered: bodies of less than 2^32 bytes; DiscoveryComplete listings whose block numbers fit into 20 bits.
- Slip.Tunnel.SerialToTun: frames are collected; what the program does with frames that begin with '!', '?' or a carriage return, echo at other verbosity levels, and I/O errors are left out.
- Checksum.CheckPacket: packets of at least 20 bytes that are not shorter than their header length says; the C code reads past the end of others.
- Checksum.Prepare: the same packets.
- Checksum.WriteToSerial: the same packets.
- Checksum.RelayToClient: which options of a DHCP reply are copied is a parameter; the relay towards the server is left out.
- Json.DocumentParses: exponents and `\u` escapes are outside the subset; white space is in JsonSpace.SpacedDocumentIff.
- Json.Parser.PushType: a full stack, behind which the C code writes all the same.
- Json.Parser.NextEvent: text that fits into the stack, for the same reason.
- jsonparse_get_value_as_int and jsonparse_strcmp_value, which would add easy members.
- CodeProp.RunKeeps: identifiers do not wrap past 65535; the TCP upload that gives the sender its image is one step, and every node is either sender or receiver.
- CTK, FTP, IRC, SMTP, HTTP and other clients: plumbing around libraries that are not part of this model.
