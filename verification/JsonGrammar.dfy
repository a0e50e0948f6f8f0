/**
  What the JSON pull parser makes of any text (apps/json/jsonparse.c), measured against the
  grammar of sections 2 to 7 of RFC 8259.

  `Call` says for every state that a run can reach (`SaneRun`) and every character which calls succeed,
  where they lead and with which error the others fail.  `Tolerated` is all that the parser accepts beyond
  the grammar; `ToleratedDocument` is a text that shows it.  `StringClosed`, `NumberEnd` and
  `LiteralCall` do the same for the values without structure.
 */
module JsonGrammar {
  import opened Segments
  import opened Json

  /** Where in a document a token is expected. */
  datatype Spot =
    | BeforeDocument | AfterDocument
    | ArrayOpened | ArrayComma | ArrayValue
    | ObjectOpened | ObjectComma | ObjectName | ObjectColon | ObjectValue

  function SpotOf(st: State): Spot {
    if st.stack == "" then if st.vtype == '\0' then BeforeDocument else AfterDocument
    else
      var top := st.stack[|st.stack| - 1];
      if top == '[' then if st.vtype == '\0' then ArrayOpened else if st.vtype == ',' then ArrayComma else ArrayValue
      else if top == ':' then if st.vtype == '\0' then ObjectColon else ObjectValue
      else if st.vtype == '\0' then ObjectOpened else if st.vtype == ',' then ObjectComma else ObjectName
  }

  /** The states that a run can reach: an object is open for a name only at the top of the stack. */
  predicate Sane(st: State) {
    && (forall k :: 0 <= k < |st.stack| - 1 ==> st.stack[k] == '[' || st.stack[k] == ':')
    && (st.stack == "" ==> st.vtype != ',')
    && (st.stack != "" ==>
          var top := st.stack[|st.stack| - 1];
          && (top == '[' || top == ':' || top == '{')
          && (top == '{' ==> st.vtype == '\0' || st.vtype == ',' || st.vtype == 'N')
          && (top == ':' ==> st.vtype != ','))
  }

  predicate StartsNumber(c: char) { c == '-' || '0' <= c <= '9' }

  predicate StartsLiteral(c: char) { c == 'n' || c == 't' || c == 'f' }

  predicate StartsValue(c: char) { c == '{' || c == '[' || c == '\"' || StartsNumber(c) || StartsLiteral(c) }

  /** The first characters of the tokens that the grammar allows. */
  predicate Standard(spot: Spot, c: char) {
    match spot
    case BeforeDocument => StartsValue(c)
    case AfterDocument => false
    case ArrayOpened => StartsValue(c) || c == ']'
    case ArrayComma => StartsValue(c)
    case ArrayValue => c == ',' || c == ']'
    case ObjectOpened => c == '\"' || c == '}'
    case ObjectComma => c == '\"'
    case ObjectName => c == ':'
    case ObjectColon => StartsValue(c)
    case ObjectValue => c == ',' || c == '}'
  }

  /** What the parser lets pass besides: a comma without a value in front of it in an array; a string, an
      array or an object right behind a value; a second name. */
  predicate Tolerated(spot: Spot, c: char) {
    match spot
    case ArrayOpened => c == ','
    case ArrayComma => c == ','
    case ArrayValue => c == '\"' || c == '{' || c == '['
    case ObjectName => c == '\"'
    case ObjectValue => c == '\"' || c == '{' || c == '['
    case _ => false
  }

  predicate Allowed(spot: Spot, c: char) { Standard(spot, c) || Tolerated(spot, c) }

  function RefusedWith(c: char): Error {
    if c == '{' then UNEXPECTED_OBJECT else if c == '}' then UNEXPECTED_END_OF_OBJECT
    else if c == '[' then UNEXPECTED_ARRAY else if c == ']' then UNEXPECTED_END_OF_ARRAY
    else if c == '\"' then UNEXPECTED_STRING else SYNTAX
  }

  /** The kind of the value that begins with a character. */
  function KindOf(spot: Spot, c: char): char {
    if c != '\"' then if StartsNumber(c) then '0' else c
    else if spot == ObjectOpened || spot == ObjectComma || spot == ObjectName then 'N' else '\"'
  }

  /** Where a value without structure leads. */
  function PastValue(spot: Spot): Spot {
    match spot
    case BeforeDocument => AfterDocument
    case AfterDocument => AfterDocument
    case ArrayOpened => ArrayValue
    case ArrayComma => ArrayValue
    case ArrayValue => ArrayValue
    case ObjectOpened => ObjectName
    case ObjectComma => ObjectName
    case ObjectName => ObjectName
    case ObjectColon => ObjectValue
    case ObjectValue => ObjectValue
  }

  /** Where a container that is closed leads, given the stack below it. */
  function Closed(below: string): Spot {
    if below == "" then AfterDocument else if below[|below| - 1] == '[' then ArrayValue else ObjectValue
  }

  /** Behind a call that has returned a token. */
  predicate Leads(st: State, u: State, pos: nat, stack: string, spot: Spot) {
    u.pos == pos && u.error == st.error && u.stack == stack && SpotOf(u) == spot && Sane(u)
  }

  /** The character that a call meets, and the state in which it has been read. */
  function Met(json: string, st: State): char { Peek(json, SkipWs(json, st.pos)) }

  function Reading(json: string, st: State): State { st.(pos := SkipWs(json, st.pos) + 1) }

  /** Nothing but spaces and line breaks is skipped in front of a token. */
  lemma {:induction false} SpaceSkipped(json: string, pos: nat)
    requires pos <= |json|
    ensures var at := SkipWs(json, pos);
            && pos <= at <= |json| && (forall k :: pos <= k < at ==> json[k] == ' ' || json[k] == '\n')
            && Peek(json, at) != ' ' && Peek(json, at) != '\n'
    decreases |json| - pos
  {
    if pos < |json| && (json[pos] == ' ' || json[pos] == '\n') {
      SpaceSkipped(json, pos + 1);
    }
  }

  /** The end of the text ends the run, with an error unless the document is complete. */
  lemma EndCall(json: string, st: State)
    requires Sane(st) && Met(json, st) == '\0'
    ensures var u := Reading(json, st);
            Next(json, st) == ('\0', if SpotOf(st) == AfterDocument then u else u.(error := SYNTAX))
  {
    hide SkipWs, Atomic;
  }

  /** Every other character that is neither in the grammar nor tolerated is refused, with the error of its token. */
  lemma RefusedCall(json: string, st: State)
    requires Sane(st) && Met(json, st) != '\0' && !Allowed(SpotOf(st), Met(json, st))
    ensures Next(json, st) == ('\0', Reading(json, st).(error := RefusedWith(Met(json, st))))
  {
    hide SkipWs, Atomic;
  }

  lemma OpenCall(json: string, st: State)
    requires Sane(st) && Allowed(SpotOf(st), Met(json, st)) && (Met(json, st) == '{' || Met(json, st) == '[')
    ensures var (c, (r, u)) := (Met(json, st), Next(json, st));
            && r == c && u.pos == Reading(json, st).pos
            && Leads(st, u, u.pos, st.stack + [c], if c == '{' then ObjectOpened else ArrayOpened)
  {
    hide SkipWs, Atomic;
  }

  lemma CloseCall(json: string, st: State)
    requires Sane(st) && Allowed(SpotOf(st), Met(json, st)) && (Met(json, st) == '}' || Met(json, st) == ']')
    ensures st.stack != ""
    ensures var (r, u) := Next(json, st);
            var below := st.stack[..|st.stack| - 1];
            && r == Met(json, st) && u.pos == Reading(json, st).pos && Leads(st, u, u.pos, below, Closed(below))
  {
    hide SkipWs, Atomic;
  }

  lemma CommaCall(json: string, st: State)
    requires Sane(st) && Allowed(SpotOf(st), ',') && Met(json, st) == ','
    ensures st.stack != ""
    ensures var (r, u) := Next(json, st);
            && r == ',' && u.pos == Reading(json, st).pos
            && if SpotOf(st) == ObjectValue then Leads(st, u, u.pos, st.stack[..|st.stack| - 1] + "{", ObjectComma)
               else Leads(st, u, u.pos, st.stack, ArrayComma)
  {
    hide SkipWs, Atomic;
  }

  /** A colon is not returned: the same call goes on with the value. */
  lemma ColonCall(json: string, st: State)
    requires Sane(st) && Allowed(SpotOf(st), ':') && Met(json, st) == ':'
    ensures st.stack != ""
    ensures var w := Reading(json, st).(stack := st.stack[..|st.stack| - 1] + ":", vtype := '\0');
            SpotOf(w) == ObjectColon && Sane(w) && Next(json, st) == Next(json, w)
  {
    hide SkipWs, Atomic;
  }

  /** A value without structure that is not spelled as it should is a syntax error. */
  lemma ValueCall(json: string, st: State)
    requires Sane(st) && Allowed(SpotOf(st), Met(json, st))
    requires Met(json, st) == '"' || StartsNumber(Met(json, st)) || StartsLiteral(Met(json, st))
    ensures var (c, (r, u)) := (Met(json, st), Next(json, st));
            && (r, u) == Atomic(json, Reading(json, st), KindOf(SpotOf(st), c))
            && (r != '\0' ==> r == KindOf(SpotOf(st), c) && Leads(st, u, u.pos, st.stack, PastValue(SpotOf(st))))
            && (r == '\0' ==> u.error == SYNTAX && u.stack == st.stack)
  {
    hide SkipWs, Atomic;
    var kind := KindOf(SpotOf(st), Met(json, st));
    ValueRead(json, Reading(json, st), kind);
  }

  lemma ValueRead(json: string, st: State, kind: char)
    requires kind != '\0'
    ensures var (r, u) := Atomic(json, st, kind);
            && u.stack == st.stack
            && (r != '\0' ==> r == kind && u.vtype == kind && u.error == st.error)
            && (r == '\0' ==> u.error == SYNTAX)
  {
    hide ScanString, ScanNumber, ScanLiteral, Has;
  }

  // ----- runs ----------------------------------------------------------------------------------

  /** A call that returns a token leads from a state of a run to a state of a run. */
  lemma SaneCall(json: string, st: State)
    requires Sane(st) && Next(json, st).0 != '\0'
    ensures Sane(Next(json, st).1)
    decreases |json| - st.pos
  {
    hide Sane, Allowed, Next, SpotOf, SkipWs;
    var c := Met(json, st);
    if c == '\0' {
      EndCall(json, st);
    } else if !Allowed(SpotOf(st), c) {
      RefusedCall(json, st);
    } else if c == '{' || c == '[' {
      OpenCall(json, st);
    } else if c == '}' || c == ']' {
      CloseCall(json, st);
    } else if c == ',' {
      CommaCall(json, st);
    } else if c == ':' {
      ColonCall(json, st);
      BehindColon(json, st);
    } else {
      OnlyValues(SpotOf(st), c);
      ValueCall(json, st);
    }
  }

  lemma OnlyValues(spot: Spot, c: char)
    requires Allowed(spot, c) && c != '{' && c != '[' && c != '}' && c != ']' && c != ',' && c != ':'
    ensures c == '"' || StartsNumber(c) || StartsLiteral(c)
  {
  }

  /** No second colon follows, so that this call returns a value. */
  lemma BehindColon(json: string, st: State)
    requires Sane(st) && Allowed(SpotOf(st), ':') && Met(json, st) == ':' && Next(json, st).0 != '\0'
    ensures Sane(Next(json, st).1)
  {
    hide Allowed, Next, SpotOf, SkipWs;
    ColonCall(json, st);
    var w := Reading(json, st).(stack := st.stack[..|st.stack| - 1] + ":", vtype := '\0');
    var c := Met(json, w);
    if c == '\0' {
      EndCall(json, w);
    } else if !Allowed(ObjectColon, c) {
      RefusedCall(json, w);
    } else {
      OnlyStarts(c);
      if c == '{' || c == '[' {
        OpenCall(json, w);
      } else {
        ValueCall(json, w);
      }
    }
  }

  lemma OnlyStarts(c: char)
    requires Allowed(ObjectColon, c)
    ensures c == '{' || c == '[' || c == '"' || StartsNumber(c) || StartsLiteral(c)
  {
  }

  /** Every run without an error is in such a state, on any text. */
  lemma {:induction false} SaneRun(json: string, st: State, n: nat)
    requires Sane(st) && forall k :: 0 <= k < |Trace(json, st, n).0| ==> Trace(json, st, n).0[k].kind != '\0'
    ensures Sane(Trace(json, st, n).1)
    decreases n
  {
    hide Sane, Next, EventOf;
    if n > 0 {
      TraceStep(json, st, n);
      var (r, u) := Next(json, st);
      var all, rest := Trace(json, st, n).0, Trace(json, u, n - 1).0;
      EventKind(json, r, u);
      assert all[0].kind == r;
      SaneCall(json, st);
      assert forall k :: 0 <= k < |rest| ==> rest[k] == all[k + 1];
      SaneRun(json, u, n - 1);
    }
  }

  lemma EventKind(json: string, r: char, u: State)
    ensures EventOf(json, r, u).kind == r
  {
  }

  lemma SaneStart()
    ensures Sane(START)
  {
  }

  // ----- values without structure ------------------------------------------------------------

  /** How many backslashes stand right in front of `k`, from `pos` on. */
  function Backslashes(json: string, pos: nat, k: nat): nat
    requires pos <= k <= |json|
  {
    if k > pos && json[k - 1] == '\\' then 1 + Backslashes(json, pos, k - 1) else 0
  }

  /** A quote that closes a string which begins at `pos`. */
  predicate Closes(json: string, pos: nat, k: nat)
    requires pos <= k < |json|
  {
    json[k] == '"' && Backslashes(json, pos, k) % 2 == 0
  }

  lemma {:induction false} BackslashesFrom(json: string, pos: nat, k: nat)
    requires pos < k <= |json|
    ensures json[pos] != '\\' ==> Backslashes(json, pos, k) == Backslashes(json, pos + 1, k)
    ensures json[pos] == '\\' && pos + 2 <= k ==> Backslashes(json, pos, k) % 2 == Backslashes(json, pos + 2, k) % 2
    decreases k
  {
    if k > pos + 1 {
      BackslashesFrom(json, pos, k - 1);
    }
    assert Backslashes(json, pos, pos) == 0;
    assert k == pos + 2 ==> Backslashes(json, pos + 2, k) == 0;
  }

  /** The scan of a string ends behind the first quote with an even number of backslashes in front of it;
      without one the string is refused. */
  lemma {:induction false} StringClosed(json: string, pos: nat)
    requires '\0' !in json
    ensures var (end, closed) := ScanString(json, pos);
            if closed then pos < end <= |json| && Closes(json, pos, end - 1)
                           && forall k :: pos <= k < end - 1 ==> !Closes(json, pos, k)
            else forall k :: pos <= k < |json| ==> !Closes(json, pos, k)
    decreases |json| - pos
  {
    if pos < |json| && json[pos] != '"' {
      assert json[pos] in json;
      var step := if json[pos] == '\\' then 2 else 1;
      StringClosed(json, pos + step);
      forall k | pos <= k < |json|
        ensures Closes(json, pos, k) <==> k >= pos + step && Closes(json, pos + step, k)
      {
        if k > pos {
          BackslashesFrom(json, pos, k);
          assert k == pos + 1 ==> Backslashes(json, pos, k) == (if json[pos] == '\\' then 1 else 0) by {
            assert Backslashes(json, pos, pos) == 0;
          }
        }
      }
    }
  }

  /** A number goes on as long as digits and points do. */
  lemma {:induction false} NumberEnd(json: string, pos: nat)
    requires pos <= |json|
    ensures var end := ScanNumber(json, pos);
            && pos <= end <= |json| && (forall k :: pos <= k < end ==> '0' <= json[k] <= '9' || json[k] == '.')
            && (end < |json| ==> !('0' <= json[end] <= '9') && json[end] != '.')
    decreases |json| - pos
  {
    if pos < |json| && NumberChar(json[pos]) {
      NumberEnd(json, pos + 1);
    }
  }

  /** The character behind a literal: the end of the text, a space, a comma or a closing bracket. */
  predicate Stops(c: char) { c == '\0' || c == ' ' || c == ',' || c == ']' || c == '}' }

  lemma {:induction false} LiteralEnd(json: string, pos: nat)
    requires pos <= |json|
    ensures var end := ScanLiteral(json, pos);
            && pos <= end <= |json| && (forall k :: pos <= k < end ==> !Stops(json[k]))
            && Stops(Peek(json, end))
    decreases |json| - pos
  {
    if pos < |json| && !Stops(json[pos]) {
      LiteralEnd(json, pos + 1);
    }
  }

  /** The word that a literal has to be. */
  function Word(t: char): string { if t == 'n' then "null" else if t == 't' then "true" else "false" }

  /** A literal is accepted iff it is its word up to such a character. */
  lemma LiteralRead(json: string, st: State, t: char)
    requires StartsLiteral(t) && 0 < st.pos <= |json|
    ensures var end := st.pos - 1 + |Word(t)|;
            Atomic(json, st, t).0 == t <==>
              end <= |json| && json[st.pos - 1..end] == Word(t) && Stops(Peek(json, end))
  {
    hide ScanLiteral;
    LiteralEnd(json, st.pos);
    var at, w := st.pos - 1, Word(t);
    var stop := ScanLiteral(json, st.pos);
    var end := at + |w|;
    if end <= |json| && json[at..end] == w {
      forall k | at <= k < end
        ensures !Stops(json[k])
      {
        assert json[k] == json[at..end][k - at] == w[k - at];
      }
    }
  }

  // ----- more than the grammar ---------------------------------------------------------------

  /** An array that begins with a comma and has no comma between its values is read without an error, as
      the events of a comma, a number and a string. */
  lemma ToleratedDocument()
    ensures var json := "[,1\"x\"]";
            && (forall v :: GoodValue(v) ==> Print(v) != json)
            && (var st := START; var (r1, u1) := Next(json, st); var (r2, u2) := Next(json, u1);
                var (r3, u3) := Next(json, u2); var (r4, u4) := Next(json, u3); var (r5, u5) := Next(json, u4);
                && [r1, r2, r3, r4, r5] == "[,0\"]" && SpotOf(u5) == AfterDocument
                && u5.pos == |json| && u5.error == OK)
  {
    var json := "[,1\"x\"]";
    assert ScanNumber(json, 3) == 3;
    assert ScanString(json, 5) == (6, true);
    assert ScanString(json, 4) == (6, true);
    forall v | GoodValue(v)
      ensures Print(v) != json
    {
      NoCommaFirst(v);
    }
  }

  lemma NoCommaFirst(v: Value)
    requires GoodValue(v)
    ensures |Print(v)| > 0 && Print(v)[0] != ','
    ensures |Print(v)| > 1 && Print(v)[0] == '[' ==> Print(v)[1] != ','
  {
    match v {
      case Arr(items) =>
        if items.Values? {
          NoCommaFirst(items.head);
        }
      case _ =>
    }
  }
}
