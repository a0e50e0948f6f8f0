/**
  Runs of the JSON pull parser that keep to the grammar (apps/json/jsonparse.c; sections 2 to 7 of
  RFC 8259): the converse of `Json.DocumentParses`.

  `StrictRun` is the main result: when every call has met a token that the grammar allows at its place, and the
  document is complete, the events are those of a value.
 */
module JsonRuns {
  import opened Segments
  import opened Json
  import opened JsonGrammar

  /** The state behind `n` calls. */
  function Ends(json: string, st: State, n: nat): State { Trace(json, st, n).1 }

  /** The call returns a token, and one that the grammar allows. */
  predicate Proper(json: string, st: State) {
    Next(json, st).0 != '\0' && Standard(SpotOf(st), Met(json, st))
  }

  predicate Strict(json: string, st: State, n: nat)
    decreases n
  {
    n == 0 || (Proper(json, st) && Strict(json, Next(json, st).1, n - 1))
  }

  // ----- calls one after the other -------------------------------------------------------------

  lemma EndsNone(json: string, st: State)
    ensures Ends(json, st, 0) == st
  {
  }

  lemma EndsOne(json: string, st: State)
    ensures Ends(json, st, 1) == Next(json, st).1
    ensures Trace(json, st, 1).0 == [EventOf(json, Next(json, st).0, Next(json, st).1)]
  {
    hide Trace, Next, EventOf;
    TraceOne(json, st);
  }

  lemma Then(json: string, st: State, k: nat, m: nat)
    ensures Trace(json, st, k + m).0 == Trace(json, st, k).0 + Trace(json, Ends(json, st, k), m).0
    ensures Ends(json, st, k + m) == Ends(json, Ends(json, st, k), m)
  {
    hide Trace, Peak;
    TraceConcat(json, st, k, m);
  }

  lemma {:induction false} StrictRest(json: string, st: State, n: nat, k: nat)
    requires Strict(json, st, n) && k <= n
    ensures Strict(json, Ends(json, st, k), n - k)
    ensures Ends(json, Ends(json, st, k), n - k) == Ends(json, st, n)
    decreases k
  {
    hide Next, Proper, Trace, Ends;
    if k == 0 {
      EndsNone(json, st);
    } else {
      var u := Next(json, st).1;
      StrictRest(json, u, n - 1, k - 1);
      EndsOne(json, st);
      Then(json, st, 1, k - 1);
      Then(json, st, 1, n - 1);
    }
  }

  /** Two states with the same next call have the same runs. */
  lemma SameRun(json: string, st: State, w: State, n: nat)
    requires n > 0 && Next(json, st) == Next(json, w)
    ensures Trace(json, st, n) == Trace(json, w, n)
    ensures Strict(json, st, n) && Proper(json, w) ==> Strict(json, w, n)
  {
    hide Next, EventOf, Proper, Peak;
    TraceStep(json, st, n);
    TraceStep(json, w, n);
  }

  // ----- the events of single calls ------------------------------------------------------------

  lemma StructureEvent(json: string, st: State)
    requires Sane(st) && Allowed(SpotOf(st), Met(json, st))
    requires Met(json, st) in ['{', '[', '}', ']', ',']
    ensures EventOf(json, Next(json, st).0, Next(json, st).1) == Event(Met(json, st), "")
  {
    hide SkipWs, Atomic, CopyFrom;
  }

  /** What is copied of a text without NUL has none. */
  lemma {:induction false} CopyNoNul(json: string, i: nat, end: int, room: nat)
    requires '\0' !in json && end <= |json|
    ensures '\0' !in CopyFrom(json, i, end, room)
    decreases end - i
  {
    if i < end && room > 0 {
      if Peek(json, i) == '\\' {
        var u := Unescape(Peek(json, i + 1));
        UnescapeLength(Peek(json, i + 1));
        CopyNoNul(json, i + 2, end, room - |u|);
      } else {
        assert json[i] in json;
        CopyNoNul(json, i + 1, end, room - 1);
      }
    }
  }

  lemma StringEvent(json: string, st: State, kind: char)
    requires '\0' !in json && (kind == '\"' || kind == 'N') && Atomic(json, st, kind).0 != '\0'
    ensures var e := EventOf(json, kind, Atomic(json, st, kind).1); e.kind == kind && '\0' !in e.text
  {
    hide ScanString, CopyFrom;
    StringClosed(json, st.pos);
    var u := Atomic(json, st, kind).1;
    CopyNoNul(json, u.vstart, u.vstart + u.vlen, u.vlen);
  }

  lemma NumberEvent(json: string, st: State)
    requires '\0' !in json && 0 < st.pos <= |json| && StartsNumber(json[st.pos - 1])
    ensures var e := EventOf(json, '0', Atomic(json, st, '0').1); e.kind == '0' && GoodNumber(e.text)
  {
    hide ScanNumber, CopyFrom;
    NumberEnd(json, st.pos);
    var at, end := st.pos - 1, ScanNumber(json, st.pos);
    var t := json[at..end];
    assert forall k :: 0 <= k < |t| ==> t[k] == json[at + k];
    CopyPlain(json, at, t);
  }

  lemma LiteralEvent(json: string, st: State, t: char)
    requires 0 < st.pos <= |json| && StartsLiteral(t) && Atomic(json, st, t).0 != '\0'
    ensures EventOf(json, t, Atomic(json, st, t).1) == Event(t, Literal(t))
  {
    hide ScanLiteral, CopyFrom;
    CopyPlain(json, st.pos - 1, Literal(t));
  }

  /** A value without structure, as a value. */
  predicate IsEvent(e: Event, kind: char) {
    && e.kind == kind
    && (kind == '\"' || kind == 'N' ==> '\0' !in e.text)
    && (kind == '0' ==> GoodNumber(e.text))
    && (StartsLiteral(kind) ==> e.text == Literal(kind))
  }

  lemma ValueEvent(json: string, st: State)
    requires '\0' !in json && Sane(st) && Allowed(SpotOf(st), Met(json, st)) && Next(json, st).0 != '\0'
    requires Met(json, st) == '\"' || StartsNumber(Met(json, st)) || StartsLiteral(Met(json, st))
    ensures IsEvent(EventOf(json, Next(json, st).0, Next(json, st).1), KindOf(SpotOf(st), Met(json, st)))
    ensures Leads(st, Next(json, st).1, Next(json, st).1.pos, st.stack, PastValue(SpotOf(st)))
  {
    hide Next, Atomic, SkipWs, Sane, Allowed, EventOf, Leads;
    var c, r := Met(json, st), Reading(json, st);
    var kind := KindOf(SpotOf(st), c);
    ValueCall(json, st);
    if c == '\"' {
      StringEvent(json, r, kind);
    } else if StartsNumber(c) {
      NumberEvent(json, r);
    } else {
      LiteralEvent(json, r, c);
    }
  }

  /** The value of such an event. */
  function ValueOf(e: Event): Value {
    if e.kind == '\"' then Str(WrittenText(e.text)) else if e.kind == '0' then Num(e.text) else Lit(e.kind)
  }

  lemma ValueOfEvent(e: Event)
    requires IsEvent(e, e.kind) && (e.kind == '\"' || e.kind == '0' || StartsLiteral(e.kind))
    ensures GoodValue(ValueOf(e)) && Events(ValueOf(e)) == [e]
  {
    if e.kind == '\"' {
      WrittenDecodes(e.text);
    }
  }

  // ----- values ----------------------------------------------------------------------------------

  predicate ValueSpot(spot: Spot) {
    spot == BeforeDocument || spot == ArrayOpened || spot == ArrayComma || spot == ObjectColon
  }

  lemma ClosedBehind(st: State)
    requires Sane(st) && ValueSpot(SpotOf(st))
    ensures Closed(st.stack) == PastValue(SpotOf(st))
  {
  }

  /** A call on a single character, and the run behind it. */
  predicate Steps(json: string, st: State, n: nat, c: char, stack: string, spot: Spot)
    requires n > 0
  {
    var u := Ends(json, st, 1);
    && Trace(json, st, 1).0 == [Event(c, "")] && Sane(u) && u.stack == stack && SpotOf(u) == spot
    && Strict(json, u, n - 1) && Ends(json, u, n - 1) == Ends(json, st, n)
  }

  lemma OpenStep(json: string, st: State, n: nat)
    requires Sane(st) && Strict(json, st, n) && n > 0 && (Met(json, st) == '[' || Met(json, st) == '{')
    ensures Steps(json, st, n, Met(json, st), st.stack + [Met(json, st)],
                  if Met(json, st) == '[' then ArrayOpened else ObjectOpened)
  {
    hide Next, Trace, EventOf, Sane, SpotOf, SkipWs, Ends;
    assert Proper(json, st);
    OpenCall(json, st);
    StructureEvent(json, st);
    EndsOne(json, st);
    StrictRest(json, st, n, 1);
  }

  lemma CloseStep(json: string, st: State, n: nat)
    requires Sane(st) && Strict(json, st, n) && n > 0 && (Met(json, st) == ']' || Met(json, st) == '}')
    ensures st.stack != ""
    ensures var below := st.stack[..|st.stack| - 1]; Steps(json, st, n, Met(json, st), below, Closed(below))
  {
    hide Next, Trace, EventOf, Sane, SpotOf, SkipWs, Ends;
    assert Proper(json, st);
    CloseCall(json, st);
    StructureEvent(json, st);
    EndsOne(json, st);
    StrictRest(json, st, n, 1);
  }

  lemma CommaStep(json: string, st: State, n: nat)
    requires Sane(st) && Strict(json, st, n) && n > 0 && Met(json, st) == ','
    ensures st.stack != ""
    ensures SpotOf(st) == ArrayValue ==> Steps(json, st, n, ',', st.stack, ArrayComma)
    ensures SpotOf(st) == ObjectValue ==> Steps(json, st, n, ',', st.stack[..|st.stack| - 1] + "{", ObjectComma)
  {
    hide Next, Trace, EventOf, Sane, SpotOf, SkipWs, Ends;
    assert Proper(json, st);
    CommaCall(json, st);
    StructureEvent(json, st);
    EndsOne(json, st);
    StrictRest(json, st, n, 1);
  }

  /** While a container is open that is closed in the end, there is a next call, and a proper one. */
  lemma Pending(json: string, st: State, n: nat, k: nat)
    requires Strict(json, st, n) && k <= n && |Ends(json, st, n).stack| < |Ends(json, st, k).stack|
    ensures var u := Ends(json, st, k);
            && k < n && Strict(json, u, n - k) && Ends(json, u, n - k) == Ends(json, st, n)
            && Standard(SpotOf(u), Met(json, u))
  {
    hide Next, Trace, SpotOf, Ends, Met, Standard;
    StrictRest(json, st, n, k);
    EndsNone(json, Ends(json, st, k));
    assert Proper(json, Ends(json, st, k));
  }

  /** The calls on a value: they return its events and lead behind it. */
  lemma {:induction false} ReadValue(json: string, st: State, n: nat) returns (v: Value, k: nat)
    requires '\0' !in json && Sane(st) && Strict(json, st, n) && n > 0
    requires StartsValue(Met(json, st)) && ValueSpot(SpotOf(st)) && |Ends(json, st, n).stack| <= |st.stack|
    ensures 0 < k <= n && GoodValue(v) && Trace(json, st, k).0 == Events(v)
    ensures var u := Ends(json, st, k); Sane(u) && u.stack == st.stack && SpotOf(u) == PastValue(SpotOf(st))
    decreases n, 0
  {
    hide Next, Trace, EventOf, Sane, SpotOf, SkipWs, Ends, Strict, Met, Closed, PastValue, ValueSpot, Standard, IsEvent;
    var c := Met(json, st);
    ClosedBehind(st);
    OpenedStack(st.stack, c);
    if c == '[' {
      OpenStep(json, st, n);
      var items, m := ReadItems(json, Ends(json, st, 1), n - 1);
      v, k := Arr(items), 1 + m;
      Then(json, st, 1, m);
      ArrayEvents(items);
    } else if c == '{' {
      OpenStep(json, st, n);
      var members, m := ReadMembers(json, Ends(json, st, 1), n - 1);
      v, k := Obj(members), 1 + m;
      Then(json, st, 1, m);
      ObjectEvents(members);
    } else {
      v := ReadPlain(json, st, n);
      k := 1;
    }
  }

  lemma ArrayEvents(items: Values)
    ensures Events(Arr(items)) == [Event('[', "")] + (EventsOf(items) + [Event(']', "")])
    ensures GoodValue(Arr(items)) <==> GoodValues(items)
  {
  }

  lemma ObjectEvents(members: Members)
    ensures Events(Obj(members)) == [Event('{', "")] + (MemberEvents(members) + [Event('}', "")])
    ensures GoodValue(Obj(members)) <==> GoodMembers(members)
  {
  }

  /** A value without structure takes one call. */
  lemma ReadPlain(json: string, st: State, n: nat) returns (v: Value)
    requires '\0' !in json && Sane(st) && Strict(json, st, n) && n > 0 && ValueSpot(SpotOf(st))
    requires StartsValue(Met(json, st)) && Met(json, st) != '[' && Met(json, st) != '{'
    ensures GoodValue(v) && Trace(json, st, 1).0 == Events(v)
    ensures var u := Ends(json, st, 1); Sane(u) && u.stack == st.stack && SpotOf(u) == PastValue(SpotOf(st))
  {
    hide Next, Trace, EventOf, Sane, SpotOf, SkipWs, Ends;
    assert Proper(json, st);
    EndsOne(json, st);
    ValueEvent(json, st);
    var e := EventOf(json, Next(json, st).0, Next(json, st).1);
    v := ValueOf(e);
    ValueOfEvent(e);
  }

  lemma OpenedStack(stack: string, c: char)
    ensures (stack + [c])[..|stack + [c]| - 1] == stack
  {
  }

  /** The calls behind an opening bracket, or behind a comma in an array, up to the closing one. */
  lemma {:induction false} ReadItems(json: string, st: State, n: nat) returns (items: Values, k: nat)
    requires '\0' !in json && Sane(st) && Strict(json, st, n)
    requires (SpotOf(st) == ArrayOpened || SpotOf(st) == ArrayComma) && |Ends(json, st, n).stack| < |st.stack|
    ensures 0 < k <= n && GoodValues(items) && Trace(json, st, k).0 == EventsOf(items) + [Event(']', "")]
    ensures SpotOf(st) == ArrayComma ==> items.Values?
    ensures var u := Ends(json, st, k);
            Sane(u) && u.stack == st.stack[..|st.stack| - 1] && SpotOf(u) == Closed(u.stack)
    decreases n, 1
  {
    hide Next, Trace, EventOf, Sane, SpotOf, SkipWs, Ends, Strict, Met, Closed, GoodValue, Events;
    EndsNone(json, st);
    Pending(json, st, n, 0);
    if Met(json, st) == ']' {
      CloseStep(json, st, n);
      items, k := NoValues, 1;
    } else {
      var v, m := ReadValue(json, st, n);
      var u := Ends(json, st, m);
      Pending(json, st, n, m);
      Then(json, st, m, 1);
      if Met(json, u) == ']' {
        CloseStep(json, u, n - m);
        items, k := Values(v, NoValues), m + 1;
      } else {
        CommaStep(json, u, n - m);
        var rest, j := ReadItems(json, Ends(json, u, 1), n - m - 1);
        items, k := Values(v, rest), m + 1 + j;
        Then(json, st, m + 1, j);
      }
    }
  }

  /** A colon is read together with the value behind it. */
  lemma BehindName(json: string, st: State, n: nat) returns (w: State)
    requires Sane(st) && SpotOf(st) == ObjectName && Strict(json, st, n) && n > 0
    ensures st.stack != "" && w.stack == st.stack[..|st.stack| - 1] + ":" && Sane(w) && SpotOf(w) == ObjectColon
    ensures StartsValue(Met(json, w)) && Strict(json, w, n)
    ensures forall k :: 0 < k <= n ==> Trace(json, st, k) == Trace(json, w, k) && Ends(json, st, k) == Ends(json, w, k)
  {
    hide Next, Trace, SkipWs;
    assert Proper(json, st);
    ColonCall(json, st);
    w := Reading(json, st).(stack := st.stack[..|st.stack| - 1] + ":", vtype := '\0');
    if Met(json, w) == '\0' {
      EndCall(json, w);
    } else if !Allowed(ObjectColon, Met(json, w)) {
      RefusedCall(json, w);
    }
    forall k | 0 < k <= n
      ensures Trace(json, st, k) == Trace(json, w, k) && Ends(json, st, k) == Ends(json, w, k)
    {
      SameRun(json, st, w, k);
    }
    SameRun(json, st, w, n);
  }

  /** The two or more calls on a name and its value. */
  lemma {:induction false} ReadMember(json: string, st: State, n: nat) returns (name: seq<Piece>, v: Value, k: nat)
    requires '\0' !in json && Sane(st) && Strict(json, st, n) && Met(json, st) == '\"'
    requires (SpotOf(st) == ObjectOpened || SpotOf(st) == ObjectComma) && |Ends(json, st, n).stack| < |st.stack|
    ensures 0 < k <= n && GoodPieces(name) && GoodValue(v)
    ensures Trace(json, st, k).0 == [Event('N', Decoded(name))] + Events(v)
    ensures var u := Ends(json, st, k);
            Sane(u) && st.stack != "" && u.stack == st.stack[..|st.stack| - 1] + ":" && SpotOf(u) == ObjectValue
    decreases n, 1
  {
    hide Next, Trace, EventOf, Sane, SpotOf, SkipWs, Ends, Allowed;
    EndsNone(json, st);
    EndsOne(json, st);
    assert Allowed(SpotOf(st), '\"') by { QuoteAllowed(SpotOf(st)); }
    ValueEvent(json, st);
    var e, u := EventOf(json, Next(json, st).0, Next(json, st).1), Next(json, st).1;
    WrittenDecodes(e.text);
    StrictRest(json, st, n, 1);
    EndsNone(json, u);
    var w := BehindName(json, u, n - 1);
    var m;
    v, m := ReadValue(json, w, n - 1);
    Then(json, st, 1, m);
    name, k := WrittenText(e.text), 1 + m;
  }

  lemma QuoteAllowed(spot: Spot)
    requires spot == ObjectOpened || spot == ObjectComma
    ensures Allowed(spot, '\"')
  {
  }

  /** The same for an object. */
  lemma {:induction false} ReadMembers(json: string, st: State, n: nat) returns (members: Members, k: nat)
    requires '\0' !in json && Sane(st) && Strict(json, st, n)
    requires (SpotOf(st) == ObjectOpened || SpotOf(st) == ObjectComma) && |Ends(json, st, n).stack| < |st.stack|
    ensures 0 < k <= n && GoodMembers(members) && Trace(json, st, k).0 == MemberEvents(members) + [Event('}', "")]
    ensures SpotOf(st) == ObjectComma ==> members.Members?
    ensures var u := Ends(json, st, k);
            Sane(u) && u.stack == st.stack[..|st.stack| - 1] && SpotOf(u) == Closed(u.stack)
    decreases n, 2
  {
    hide Next, Trace, EventOf, Sane, SpotOf, SkipWs, Ends, Strict, Met, Closed, GoodPieces, Decoded, GoodValue, Events;
    EndsNone(json, st);
    ObjectTop(st);
    Pending(json, st, n, 0);
    if Met(json, st) == '}' {
      CloseStep(json, st, n);
      members, k := NoMembers, 1;
    } else {
      var name, v, m := ReadMember(json, st, n);
      var u := Ends(json, st, m);
      Pending(json, st, n, m);
      Then(json, st, m, 1);
      OpenedStack(st.stack[..|st.stack| - 1], ':');
      if Met(json, u) == '}' {
        CloseStep(json, u, n - m);
        members, k := Members(name, v, NoMembers), m + 1;
      } else {
        CommaStep(json, u, n - m);
        var rest, j := ReadMembers(json, Ends(json, u, 1), n - m - 1);
        members, k := Members(name, v, rest), m + 1 + j;
        Then(json, st, m + 1, j);
      }
    }
  }

  lemma ObjectTop(st: State)
    requires Sane(st) && (SpotOf(st) == ObjectOpened || SpotOf(st) == ObjectComma)
    ensures st.stack != "" && st.stack == st.stack[..|st.stack| - 1] + "{"
  {
  }

  /**
    Every text without NUL, every number of calls: if each call has met a token that the grammar allows
    at its place and the document is complete, the events are those of a value: nested as brackets
    are, every member a name and a value, every string, number and literal in its place.
   */
  lemma StrictRun(json: string, n: nat) returns (v: Value)
    requires '\0' !in json && n > 0 && Strict(json, START, n) && SpotOf(Ends(json, START, n)) == AfterDocument
    ensures GoodValue(v) && Trace(json, START, n).0 == Events(v)
  {
    hide Next, Trace, Ends, Sane;
    SaneStart();
    var k;
    v, k := ReadValue(json, START, n);
    StrictRest(json, START, n, k);
  }
}
