/**
  The JSON pull parser (apps/json/jsonparse.c; sections 2 to 7 of RFC 8259).

  `Next` is one call of jsonparse_next as a function of the parser state, `Print` and
  `Events` say what a value looks like as text and as a sequence of events.
  `DocumentParses` is the main result; class `Parser` is the implementation with its stack.
 */
module Json {
  import opened Segments

  const NUL: char := '\0'
  const QUOTE: char := '\"'
  const BACKSLASH: char := '\\'
  const NEWLINE: char := '\n'
  const JSONPARSE_MAX_DEPTH: nat := 10

  datatype Error = OK | SYNTAX | UNEXPECTED_ARRAY | UNEXPECTED_END_OF_ARRAY | UNEXPECTED_OBJECT
    | UNEXPECTED_END_OF_OBJECT | UNEXPECTED_STRING

  /** struct jsonparse_state without the text; `stack` has `depth` elements. */
  datatype State = State(pos: nat, stack: string, vtype: char, error: Error, vstart: int, vlen: int)

  /** The character at `pos`; behind the text there is its terminator. */
  function Peek(json: string, pos: nat): char {
    if pos < |json| then json[pos] else NUL
  }

  function SkipWs(json: string, pos: nat): (p: nat)
    ensures pos <= p && (p == pos || p <= |json|)
    decreases |json| - pos
  {
    if pos < |json| && (json[pos] == ' ' || json[pos] == NEWLINE) then SkipWs(json, pos + 1) else pos
  }

  /** jsonparse_get_type: the container around the current position. */
  function Top(stack: string): char { if stack == "" then NUL else stack[|stack| - 1] }

  predicate NumberChar(c: char) { '0' <= c <= '9' || c == '.' }

  predicate LiteralChar(c: char) { c != NUL && c != ' ' && c != ',' && c != ']' && c != '}' }

  /** The end of a string from inside it: behind the closing quote, or nowhere. */
  function ScanString(json: string, pos: nat): (r: (nat, bool))
    ensures pos < r.0
    decreases |json| - pos
  {
    var c := Peek(json, pos);
    if c == NUL then (pos + 1, false)
    else if c == QUOTE then (pos + 1, true)
    else if c == BACKSLASH then ScanString(json, pos + 2)
    else ScanString(json, pos + 1)
  }

  function ScanNumber(json: string, pos: nat): (r: nat)
    ensures pos <= r
    decreases |json| - pos
  {
    if pos < |json| && NumberChar(Peek(json, pos)) then ScanNumber(json, pos + 1) else pos
  }

  function ScanLiteral(json: string, pos: nat): (r: nat)
    ensures pos <= r && (pos <= |json| ==> r <= |json|)
    decreases |json| - pos
  {
    if pos < |json| && LiteralChar(Peek(json, pos)) then ScanLiteral(json, pos + 1) else pos
  }

  function Literal(t: char): string {
    if t == 'n' then "null" else if t == 't' then "true" else "false"
  }

  function Fail(st: State, e: Error): (char, State) { (NUL, st.(error := e)) }

  /** atomic, with the position behind the first character of the value. */
  function Atomic(json: string, st: State, t: char): (char, State) {
    if t == QUOTE || t == 'N' then
      var (pos, closed) := ScanString(json, st.pos);
      if !closed then Fail(st.(pos := pos, vstart := st.pos), SYNTAX)
      else (t, st.(pos := pos, vstart := st.pos, vlen := pos - st.pos - 1, vtype := t))
    else if t == '0' then
      var pos := ScanNumber(json, st.pos);
      (t, st.(pos := pos, vstart := st.pos - 1, vlen := pos - (st.pos - 1), vtype := t))
    else
      var pos := ScanLiteral(json, st.pos);
      var u := st.(pos := pos, vstart := st.pos - 1, vlen := pos - (st.pos - 1));
      if Has(json, st.pos - 1, Literal(t)) && u.vlen == |Literal(t)| then (t, u.(vtype := t)) else Fail(u, SYNTAX)
  }

  function Push(st: State, c: char): State { st.(stack := st.stack + [c], vtype := NUL) }

  function Pop(st: State): State
    requires st.stack != ""
  {
    st.(stack := st.stack[..|st.stack| - 1], vtype := Top(st.stack))
  }

  function Modify(st: State, c: char, v: char): State
    requires st.stack != ""
  {
    st.(stack := st.stack[..|st.stack| - 1] + [c], vtype := v)
  }

  /** The case of the switch for a character that is neither structure nor quote. */
  function NextAtom(json: string, st: State, c: char): (char, State) {
    var s, v := Top(st.stack), st.vtype;
    if s == NUL || s == ':' || s == '[' then
      if v != NUL && v != ',' then Fail(st, SYNTAX)
      else if c == '-' || '0' <= c <= '9' then Atomic(json, st, '0')
      else if c == 'n' || c == 't' || c == 'f' then Atomic(json, st, c)
      else Fail(st, SYNTAX)
    else if s == '{' then Fail(st, SYNTAX)
    else (NUL, st)
  }

  /** jsonparse_next. */
  function Next(json: string, before: State): (char, State)
    decreases |json| - before.pos
  {
    var at := SkipWs(json, before.pos);
    var c, s, v := Peek(json, at), Top(before.stack), before.vtype;
    var st := before.(pos := at + 1);
    if c == '{' then
      if (s == NUL && v == NUL) || s == '[' || s == ':' then (c, Push(st, c)) else Fail(st, UNEXPECTED_OBJECT)
    else if c == '}' then
      if (s == ':' && v != ',' && v != NUL) || (s == '{' && v == NUL) then (c, Pop(st))
      else Fail(st, UNEXPECTED_END_OF_OBJECT)
    else if c == ']' then
      if s == '[' && v != ',' then (c, Pop(st)) else Fail(st, UNEXPECTED_END_OF_ARRAY)
    else if c == ':' then
      if s == '{' && v == 'N' then Next(json, Modify(st, ':', NUL)) else Fail(st, SYNTAX)
    else if c == ',' then
      if s == ':' && v != NUL then (c, Modify(st, '{', c))
      else if s == '[' then (c, st.(vtype := c))
      else Fail(st, SYNTAX)
    else if c == QUOTE then
      if (s == NUL && v == NUL) || s == '{' || s == '[' || s == ':' then
        Atomic(json, st, if s == '{' then 'N' else c)
      else Fail(st, UNEXPECTED_STRING)
    else if c == '[' then
      if (s == NUL && v == NUL) || s == '[' || s == ':' then (c, Push(st, c)) else Fail(st, UNEXPECTED_ARRAY)
    else if c == NUL then
      (NUL, if v == NUL || st.stack != "" then st.(error := SYNTAX) else st)
    else NextAtom(json, st, c)
  }

  // ----- copying values -----------------------------------------------------------------------

  /** The character that an escape stands for; others leave nothing. */
  function Unescape(e: char): string {
    if e == QUOTE then [QUOTE] else if e == BACKSLASH then [BACKSLASH] else if e == '/' then "/"
    else if e == 'b' then [8 as char] else if e == 'f' then [12 as char] else if e == 'n' then [NEWLINE]
    else if e == 'r' then "\r" else if e == 't' then "\t" else ""
  }

  /** The loop of jsonparse_copy_value with room for `room` characters. */
  function CopyFrom(json: string, i: nat, end: int, room: nat): (r: string)
    ensures |r| <= room
    decreases end - i
  {
    if i >= end || room == 0 then ""
    else if Peek(json, i) == BACKSLASH then
      var u := Unescape(Peek(json, i + 1));
      u + CopyFrom(json, i + 2, end, room - |u|)
    else [Peek(json, i)] + CopyFrom(json, i + 1, end, room - 1)
  }

  predicate IsAtomic(v: char) { v == 'N' || v == QUOTE || v == '0' || v == 'n' || v == 't' || v == 'f' }

  // ----- values --------------------------------------------------------------------------------

  /** A character of a string as it is written. */
  datatype Piece = Plain(c: char) | Escaped(e: char)

  datatype Value =
    | Str(pieces: seq<Piece>)
    | Num(text: string)
    | Lit(t: char)
    | Arr(items: Values)
    | Obj(members: Members)

  datatype Values = NoValues | Values(head: Value, tail: Values)

  datatype Members = NoMembers | Members(name: seq<Piece>, value: Value, rest: Members)

  predicate GoodPieces(s: seq<Piece>) {
    forall k :: 0 <= k < |s| ==>
      match s[k]
      case Plain(c) => c != NUL && c != QUOTE && c != BACKSLASH
      case Escaped(e) => |Unescape(e)| == 1
  }

  /** Digits and points behind an optional sign, as the parser takes them for a number. */
  predicate GoodNumber(t: string) {
    |t| > 0 && (t[0] == '-' || '0' <= t[0] <= '9') && forall k :: 1 <= k < |t| ==> NumberChar(t[k])
  }

  predicate GoodValue(v: Value) {
    match v
    case Str(s) => GoodPieces(s)
    case Num(t) => GoodNumber(t)
    case Lit(t) => t == 'n' || t == 't' || t == 'f'
    case Arr(items) => GoodValues(items)
    case Obj(members) => GoodMembers(members)
  }

  predicate GoodValues(vs: Values) { vs.Values? ==> GoodValue(vs.head) && GoodValues(vs.tail) }

  predicate GoodMembers(ms: Members) {
    ms.Members? ==> GoodPieces(ms.name) && GoodValue(ms.value) && GoodMembers(ms.rest)
  }

  function PrintPiece(p: Piece): string {
    match p
    case Plain(c) => [c]
    case Escaped(e) => [BACKSLASH, e]
  }

  function PrintPieces(s: seq<Piece>): string {
    if s == [] then "" else PrintPiece(s[0]) + PrintPieces(s[1..])
  }

  function PrintString(s: seq<Piece>): string { [QUOTE] + PrintPieces(s) + [QUOTE] }

  function Print(v: Value): string {
    match v
    case Str(s) => PrintString(s)
    case Num(t) => t
    case Lit(t) => Literal(t)
    case Arr(items) => "[" + PrintValues(items) + "]"
    case Obj(members) => "{" + PrintMembers(members) + "}"
  }

  function PrintValues(vs: Values): string {
    if vs.NoValues? then "" else Print(vs.head) + (if vs.tail.NoValues? then "" else "," + PrintValues(vs.tail))
  }

  function PrintMembers(ms: Members): string {
    if ms.NoMembers? then ""
    else PrintString(ms.name) + ":" + Print(ms.value) + (if ms.rest.NoMembers? then "" else "," + PrintMembers(ms.rest))
  }

  /** The text of a string with its escapes resolved. */
  function Decoded(s: seq<Piece>): string {
    if s == [] then "" else (match s[0] case Plain(c) => [c] case Escaped(e) => Unescape(e)) + Decoded(s[1..])
  }

  /** What a call returns, and what jsonparse_copy_value then copies. */
  datatype Event = Event(kind: char, text: string)

  function Events(v: Value): (r: seq<Event>)
    ensures |r| > 0
  {
    match v
    case Str(s) => [Event(QUOTE, Decoded(s))]
    case Num(t) => [Event('0', t)]
    case Lit(t) => [Event(t, Literal(t))]
    case Arr(items) => [Event('[', "")] + EventsOf(items) + [Event(']', "")]
    case Obj(members) => [Event('{', "")] + MemberEvents(members) + [Event('}', "")]
  }

  function EventsOf(vs: Values): seq<Event> {
    if vs.NoValues? then []
    else Events(vs.head) + (if vs.tail.NoValues? then [] else [Event(',', "")] + EventsOf(vs.tail))
  }

  function MemberEvents(ms: Members): seq<Event> {
    if ms.NoMembers? then []
    else [Event('N', Decoded(ms.name))] + Events(ms.value)
         + (if ms.rest.NoMembers? then [] else [Event(',', "")] + MemberEvents(ms.rest))
  }

  function Max(a: nat, b: nat): nat { if a > b then a else b }

  /** How many containers are open at once. */
  function Depth(v: Value): nat {
    match v
    case Arr(items) => 1 + DepthOf(items)
    case Obj(members) => 1 + MemberDepth(members)
    case _ => 0
  }

  function DepthOf(vs: Values): nat { if vs.NoValues? then 0 else Max(Depth(vs.head), DepthOf(vs.tail)) }

  function MemberDepth(ms: Members): nat { if ms.NoMembers? then 0 else Max(Depth(ms.value), MemberDepth(ms.rest)) }

  // ----- runs -------------------------------------------------------------------------------------

  /** The event of a call that has left the state `st`. */
  function EventOf(json: string, c: char, st: State): Event {
    Event(c, if IsAtomic(st.vtype) && st.vstart >= 0 && st.vlen >= 0
             then CopyFrom(json, st.vstart, st.vstart + st.vlen, st.vlen) else "")
  }

  /** `n` calls. */
  function Trace(json: string, st: State, n: nat): (seq<Event>, State)
    decreases n
  {
    if n == 0 then ([], st)
    else
      var (c, u) := Next(json, st);
      var (rest, w) := Trace(json, u, n - 1);
      ([EventOf(json, c, u)] + rest, w)
  }

  /** The most that `n` calls have on the stack at once. */
  function Peak(json: string, st: State, n: nat): nat
    decreases n
  {
    if n == 0 then |st.stack| else Max(|st.stack|, Peak(json, Next(json, st).1, n - 1))
  }

  /** None of `n` calls uses more of the stack than there is. */
  predicate Fits(json: string, st: State, n: nat) { Peak(json, st, n) <= JSONPARSE_MAX_DEPTH }

  lemma {:induction false} TraceConcat(json: string, st: State, n: nat, m: nat)
    ensures var (a, u) := Trace(json, st, n);
            var (b, w) := Trace(json, u, m);
            && Trace(json, st, n + m) == (a + b, w)
            && Peak(json, st, n + m) == Max(Peak(json, st, n), Peak(json, u, m))
    decreases n
  {
    hide Next, EventOf;
    var (b, w) := Trace(json, Trace(json, st, n).1, m);
    if n == 0 {
      assert [] + b == b;
    } else {
      var (c, u) := Next(json, st);
      TraceConcat(json, u, n - 1, m);
      var rest := Trace(json, u, n - 1).0;
      assert [EventOf(json, c, u)] + (rest + b) == [EventOf(json, c, u)] + rest + b;
    }
  }

  lemma TraceOne(json: string, st: State)
    ensures var (c, u) := Next(json, st);
            && Trace(json, st, 1) == ([EventOf(json, c, u)], u)
            && Peak(json, st, 1) == Max(|st.stack|, |u.stack|)
  {
    hide Next, EventOf;
    var u := Next(json, st).1;
    assert Trace(json, u, 0) == ([], u);
    assert [EventOf(json, Next(json, st).0, u)] + [] == [EventOf(json, Next(json, st).0, u)];
    assert Peak(json, u, 0) == |u.stack|;
  }

  lemma TraceStep(json: string, st: State, n: nat)
    requires n > 0
    ensures var (c, u) := Next(json, st);
            var (rest, w) := Trace(json, u, n - 1);
            && Trace(json, st, n) == ([EventOf(json, c, u)] + rest, w)
            && Peak(json, st, n) == Max(|st.stack|, Peak(json, u, n - 1))
  {
  }

  // ----- atomic values ------------------------------------------------------------------------------

  lemma {:induction false} ScanPieces(json: string, pos: nat, s: seq<Piece>)
    requires GoodPieces(s) && Has(json, pos, PrintPieces(s) + [QUOTE])
    ensures ScanString(json, pos) == (pos + |PrintPieces(s)| + 1, true)
    decreases s
  {
    if s == [] {
      HasAt(json, pos, [QUOTE], 0);
    } else {
      var p := PrintPiece(s[0]);
      assert GoodPieces(s[1..]);
      assert PrintPieces(s) + [QUOTE] == p + (PrintPieces(s[1..]) + [QUOTE]);
      HasSplit(json, pos, p, PrintPieces(s[1..]) + [QUOTE]);
      HasAt(json, pos, p, 0);
      assert s[0].Plain? || s[0].Escaped?;
      ScanPieces(json, pos + |p|, s[1..]);
    }
  }

  function Cut(s: string, n: nat): string { if |s| <= n then s else s[..n] }

  /** Copying a string gives its text with the escapes resolved, as far as there is room. */
  lemma {:induction false} CopyPieces(json: string, i: nat, s: seq<Piece>, room: nat)
    requires GoodPieces(s) && Has(json, i, PrintPieces(s))
    ensures CopyFrom(json, i, i + |PrintPieces(s)|, room) == Cut(Decoded(s), room)
    decreases s
  {
    hide Unescape, Cut, CopyFrom, Has, GoodPieces, PrintPieces, Decoded;
    if s == [] || room == 0 {
      CopyNothing(json, i, s, room);
    } else {
      PiecesStep(json, i, s);
      var p := PrintPiece(s[0]);
      var c := if s[0].Plain? then [s[0].c] else Unescape(s[0].e);
      CopyPieces(json, i + |p|, s[1..], room - 1);
      CopyStep(json, i, i + |PrintPieces(s)|, s[0], room);
      CutStep(c, Decoded(s[1..]), room);
    }
  }

  lemma CopyNothing(json: string, i: nat, s: seq<Piece>, room: nat)
    requires s == [] || room == 0
    ensures CopyFrom(json, i, i + |PrintPieces(s)|, room) == Cut(Decoded(s), room) == ""
  {
  }

  lemma PiecesStep(json: string, i: nat, s: seq<Piece>)
    requires s != [] && GoodPieces(s) && Has(json, i, PrintPieces(s))
    ensures GoodPieces(s[1..]) && Has(json, i + |PrintPiece(s[0])|, PrintPieces(s[1..]))
    ensures PrintPieces(s) == PrintPiece(s[0]) + PrintPieces(s[1..])
    ensures Decoded(s) == (if s[0].Plain? then [s[0].c] else Unescape(s[0].e)) + Decoded(s[1..])
    ensures s[0].Plain? ==> Peek(json, i) == s[0].c != BACKSLASH
    ensures s[0].Escaped? ==> Peek(json, i) == BACKSLASH && Peek(json, i + 1) == s[0].e && |Unescape(s[0].e)| == 1
  {
    hide Unescape;
    HasSplit(json, i, PrintPiece(s[0]), PrintPieces(s[1..]));
    HasAt(json, i, PrintPiece(s[0]), 0);
    if s[0].Escaped? {
      HasAt(json, i, PrintPiece(s[0]), 1);
    }
  }

  lemma CopyStep(json: string, i: nat, end: nat, p: Piece, room: nat)
    requires room > 0 && i + |PrintPiece(p)| <= end
    requires p.Plain? ==> Peek(json, i) == p.c != BACKSLASH
    requires p.Escaped? ==> Peek(json, i) == BACKSLASH && Peek(json, i + 1) == p.e && |Unescape(p.e)| == 1
    ensures CopyFrom(json, i, end, room)
         == (if p.Plain? then [p.c] else Unescape(p.e)) + CopyFrom(json, i + |PrintPiece(p)|, end, room - 1)
  {
    hide Unescape;
  }

  lemma CutStep(c: string, s: string, room: nat)
    requires |c| == 1 && room > 0
    ensures Cut(c + s, room) == c + Cut(s, room - 1)
  {
  }

  lemma {:induction false} DecodedLength(s: seq<Piece>)
    requires GoodPieces(s)
    ensures |Decoded(s)| <= |PrintPieces(s)|
    decreases s
  {
    hide Unescape;
    if s != [] {
      assert s[0].Escaped? ==> |Unescape(s[0].e)| == 1;
      assert GoodPieces(s[1..]);
      DecodedLength(s[1..]);
    }
  }

  /** Text without escapes is copied as it is. */
  lemma {:induction false} CopyPlain(json: string, i: nat, t: string)
    requires Has(json, i, t) && BACKSLASH !in t
    ensures CopyFrom(json, i, i + |t|, |t|) == t
    decreases t
  {
    if t != "" {
      HasAt(json, i, t, 0);
      assert t == [t[0]] + t[1..];
      HasSplit(json, i, [t[0]], t[1..]);
      assert t[0] in t && forall k :: 0 <= k < |t[1..]| ==> t[1..][k] in t;
      CopyPlain(json, i + 1, t[1..]);
    }
  }

  // ----- writing text -----------------------------------------------------------------------------

  /** How a character is written in a string (section 7 of RFC 8259): line break, carriage return,
      tabulator, backspace and form feed by their letters, quote, backslash and slash by
      themselves behind a backslash, every other one as it is. */
  function WrittenChar(c: char): Piece {
    if c == '\n' then Escaped('n')
    else if c == '\r' then Escaped('r')
    else if c == '\t' then Escaped('t')
    else if c == 8 as char then Escaped('b')
    else if c == 12 as char then Escaped('f')
    else if c == '\"' then Escaped('\"')
    else if c == '\\' then Escaped('\\')
    else if c == '/' then Escaped('/')
    else Plain(c)
  }

  function WrittenText(t: string): seq<Piece> {
    if t == "" then [] else [WrittenChar(t[0])] + WrittenText(t[1..])
  }

  /** A text without NUL can be written, and stands for itself. */
  lemma {:induction false} WrittenDecodes(t: string)
    requires '\0' !in t
    ensures GoodPieces(WrittenText(t)) && Decoded(WrittenText(t)) == t
    decreases t
  {
    if t != "" {
      assert t[0] in t && forall k :: 0 <= k < |t[1..]| ==> t[1..][k] in t;
      WrittenDecodes(t[1..]);
      var s, rest := WrittenText(t), WrittenText(t[1..]);
      assert s[1..] == rest;
      WrittenPiece(t[0]);
      assert forall k :: 0 < k < |s| ==> s[k] == rest[k - 1];
      assert t == [t[0]] + t[1..];
    }
  }

  lemma WrittenPiece(c: char)
    requires c != '\0'
    ensures GoodPieces([WrittenChar(c)]) && Decoded([WrittenChar(c)]) == [c]
  {
    assert Decoded([]) == "";
  }

  /** Copying the written form of any text gives the text back, as far as there is room. */
  lemma CopyWritten(json: string, i: nat, t: string, room: nat)
    requires '\0' !in t && Has(json, i, PrintPieces(WrittenText(t)))
    ensures CopyFrom(json, i, i + |PrintPieces(WrittenText(t))|, room) == Cut(t, room)
  {
    WrittenDecodes(t);
    CopyPieces(json, i, WrittenText(t), room);
  }

  /** An escape with any other letter, that of section 7 of RFC 8259 for a code point included, leaves nothing. */
  lemma UnknownEscape(json: string, i: nat, end: int, room: nat)
    requires i < end && room > 0 && Peek(json, i) == '\\'
    requires Peek(json, i + 1) !in ['\"', '\\', '/', 'b', 'f', 'n', 'r', 't']
    ensures CopyFrom(json, i, end, room) == CopyFrom(json, i + 2, end, room)
  {
    assert Unescape(Peek(json, i + 1)) == "";
  }

  lemma {:induction false} ScanDigits(json: string, pos: nat, t: string)
    requires Has(json, pos, t) && (forall k :: 0 <= k < |t| ==> NumberChar(t[k])) && !NumberChar(Peek(json, pos + |t|))
    ensures ScanNumber(json, pos) == pos + |t|
    decreases t
  {
    if t != "" {
      HasAt(json, pos, t, 0);
      assert t == [t[0]] + t[1..];
      HasSplit(json, pos, [t[0]], t[1..]);
      ScanDigits(json, pos + 1, t[1..]);
    }
  }

  lemma {:induction false} ScanLetters(json: string, pos: nat, t: string)
    requires Has(json, pos, t) && (forall k :: 0 <= k < |t| ==> LiteralChar(t[k]))
        && !LiteralChar(Peek(json, pos + |t|))
    ensures ScanLiteral(json, pos) == pos + |t|
    decreases t
  {
    if t != "" {
      HasAt(json, pos, t, 0);
      assert t == [t[0]] + t[1..];
      HasSplit(json, pos, [t[0]], t[1..]);
      ScanLetters(json, pos + 1, t[1..]);
    }
  }

  /** What may stand behind a value. */
  predicate Delimited(json: string, pos: nat) {
    Peek(json, pos) == NUL || Peek(json, pos) == ',' || Peek(json, pos) == ']' || Peek(json, pos) == '}'
  }

  /** Where a value may begin. */
  predicate CanStart(st: State) {
    || (st.stack == "" && st.vtype == NUL)
    || (Top(st.stack) == '[' && (st.vtype == NUL || st.vtype == ','))
    || (Top(st.stack) == ':' && st.vtype == NUL)
  }

  function After(v: Value): char {
    match v
    case Str(_) => QUOTE
    case Num(_) => '0'
    case Lit(t) => t
    case Arr(_) => '['
    case Obj(members) => if members.NoMembers? then '{' else ':'
  }

  /** The state behind a value. */
  predicate Behind(st: State, r: State, length: nat, stack: string, vtype: char) {
    r.pos == st.pos + length && r.stack == stack && r.vtype == vtype && r.error == st.error
  }

  lemma NotSpace(json: string, pos: nat)
    requires Peek(json, pos) != ' ' && Peek(json, pos) != NEWLINE
    ensures SkipWs(json, pos) == pos
  {
  }

  /** A string in quotes, as a value or as a name. */
  lemma StringParses(json: string, st: State, s: seq<Piece>, t: char)
    requires GoodPieces(s) && Has(json, st.pos, PrintString(s))
    requires t == if Top(st.stack) == '{' then 'N' else QUOTE
    requires CanStart(st) || Top(st.stack) == '{'
    ensures var (c, r) := Next(json, st);
            Behind(st, r, |PrintString(s)|, st.stack, t) && EventOf(json, c, r) == Event(t, Decoded(s))
  {
    hide ScanString, PrintPieces, CopyFrom, Decoded;
    HasSplit(json, st.pos, [QUOTE], PrintPieces(s) + [QUOTE]);
    assert [QUOTE] + (PrintPieces(s) + [QUOTE]) == PrintString(s);
    HasAt(json, st.pos, [QUOTE], 0);
    HasSplit(json, st.pos + 1, PrintPieces(s), [QUOTE]);
    NotSpace(json, st.pos);
    ScanPieces(json, st.pos + 1, s);
    CopyPieces(json, st.pos + 1, s, |PrintPieces(s)|);
    DecodedLength(s);
  }

  lemma NumberParses(json: string, st: State, t: string)
    requires GoodNumber(t) && Has(json, st.pos, t) && Delimited(json, st.pos + |t|) && CanStart(st)
    ensures var (c, r) := Next(json, st);
            Behind(st, r, |t|, st.stack, '0') && EventOf(json, c, r) == Event('0', t)
  {
    hide ScanNumber, CopyFrom;
    HasAt(json, st.pos, t, 0);
    NotSpace(json, st.pos);
    assert t == [t[0]] + t[1..];
    HasSplit(json, st.pos, [t[0]], t[1..]);
    ScanDigits(json, st.pos + 1, t[1..]);
    CopyPlain(json, st.pos, t);
  }

  lemma LiteralText(t: char)
    requires t == 'n' || t == 't' || t == 'f'
    ensures var w := Literal(t);
            && |w| >= 4 && w[0] == t && BACKSLASH !in w && (forall k :: 0 <= k < |w[1..]| ==> LiteralChar(w[1..][k]))
  {
  }

  lemma LiteralParses(json: string, st: State, t: char)
    requires (t == 'n' || t == 't' || t == 'f') && Has(json, st.pos, Literal(t))
    requires Delimited(json, st.pos + |Literal(t)|) && CanStart(st)
    ensures var (c, r) := Next(json, st);
            Behind(st, r, |Literal(t)|, st.stack, t) && EventOf(json, c, r) == Event(t, Literal(t))
  {
    hide ScanLiteral, CopyFrom, Literal;
    var w := Literal(t);
    LiteralText(t);
    HasAt(json, st.pos, w, 0);
    NotSpace(json, st.pos);
    assert w == [w[0]] + w[1..];
    HasSplit(json, st.pos, [w[0]], w[1..]);
    ScanLetters(json, st.pos + 1, w[1..]);
    CopyPlain(json, st.pos, w);
  }

  // ----- structure --------------------------------------------------------------------------------

  lemma OpensArray(json: string, st: State)
    requires CanStart(st) && Peek(json, st.pos) == '['
    ensures var (c, r) := Next(json, st);
            Behind(st, r, 1, st.stack + "[", NUL) && EventOf(json, c, r) == Event('[', "")
  {
    NotSpace(json, st.pos);
  }

  lemma OpensObject(json: string, st: State)
    requires CanStart(st) && Peek(json, st.pos) == '{'
    ensures var (c, r) := Next(json, st);
            Behind(st, r, 1, st.stack + "{", NUL) && EventOf(json, c, r) == Event('{', "")
  {
    NotSpace(json, st.pos);
  }

  lemma ClosesArray(json: string, st: State, stack: string)
    requires st.stack == stack + "[" && st.vtype != ',' && Peek(json, st.pos) == ']'
    ensures var (c, r) := Next(json, st);
            Behind(st, r, 1, stack, '[') && EventOf(json, c, r) == Event(']', "")
  {
    NotSpace(json, st.pos);
  }

  lemma ClosesObject(json: string, st: State, stack: string, s: char)
    requires st.stack == stack + [s] && Peek(json, st.pos) == '}'
    requires (s == ':' && st.vtype != ',' && st.vtype != NUL) || (s == '{' && st.vtype == NUL)
    ensures var (c, r) := Next(json, st);
            Behind(st, r, 1, stack, s) && EventOf(json, c, r) == Event('}', "")
  {
    NotSpace(json, st.pos);
  }

  lemma CommaInArray(json: string, st: State)
    requires Top(st.stack) == '[' && Peek(json, st.pos) == ','
    ensures var (c, r) := Next(json, st);
            Behind(st, r, 1, st.stack, ',') && EventOf(json, c, r) == Event(',', "")
  {
    NotSpace(json, st.pos);
  }

  lemma CommaInObject(json: string, st: State, stack: string)
    requires st.stack == stack + ":" && st.vtype != NUL && Peek(json, st.pos) == ','
    ensures var (c, r) := Next(json, st);
            Behind(st, r, 1, stack + "{", ',') && EventOf(json, c, r) == Event(',', "")
  {
    NotSpace(json, st.pos);
  }

  /** The colon is no event of its own: the call goes on with the value behind it. */
  lemma ColonGoesOn(json: string, st: State, stack: string)
    requires st.stack == stack + "{" && st.vtype == 'N' && Peek(json, st.pos) == ':'
    ensures var u := st.(pos := st.pos + 1, stack := stack + ":", vtype := NUL);
            Next(json, st) == Next(json, u)
  {
    NotSpace(json, st.pos);
    assert Modify(st.(pos := st.pos + 1), ':', NUL) == st.(pos := st.pos + 1, stack := stack + ":", vtype := NUL);
  }

  // ----- whole values -------------------------------------------------------------------------------

  /** As many calls as there are events in `es` give these events, end behind the text and have
      at most `peak` characters on the stack at once. */
  predicate Parses(json: string, st: State, es: seq<Event>, length: nat, stack: string, vtype: char, peak: nat) {
    && Trace(json, st, |es|).0 == es && Behind(st, Trace(json, st, |es|).1, length, stack, vtype)
    && Peak(json, st, |es|) == peak
  }

  lemma OneParses(json: string, st: State, e: Event, length: nat, stack: string, vtype: char)
    requires var (c, r) := Next(json, st);
             Behind(st, r, length, stack, vtype) && EventOf(json, c, r) == e
    ensures Parses(json, st, [e], length, stack, vtype, Max(|st.stack|, |stack|))
  {
    hide Next, EventOf, Trace, Peak;
    TraceOne(json, st);
  }

  lemma ParsesThen(json: string, st: State, a: seq<Event>, b: seq<Event>,
                   l1: nat, s1: string, v1: char, p1: nat, l2: nat, s2: string, v2: char, p2: nat)
    requires Parses(json, st, a, l1, s1, v1, p1)
    requires Parses(json, Trace(json, st, |a|).1, b, l2, s2, v2, p2)
    ensures Parses(json, st, a + b, l1 + l2, s2, v2, Max(p1, p2))
  {
    hide Trace, Peak;
    TraceConcat(json, st, |a|, |b|);
  }

  /** The rest of a run continues from a state with known position, stack and type. */
  lemma Continues(json: string, st: State, es: seq<Event>, length: nat, stack: string, vtype: char, peak: nat)
    returns (u: State)
    requires Parses(json, st, es, length, stack, vtype, peak)
    ensures u == Trace(json, st, |es|).1 && Behind(st, u, length, stack, vtype)
  {
    u := Trace(json, st, |es|).1;
  }

  lemma {:induction false} ValueParses(json: string, st: State, v: Value)
    requires GoodValue(v) && CanStart(st) && Has(json, st.pos, Print(v)) && Delimited(json, st.pos + |Print(v)|)
    ensures Parses(json, st, Events(v), |Print(v)|, st.stack, After(v), |st.stack| + Depth(v))
    decreases v, 0
  {
    hide Parses, Next, EventOf, Delimited, CanStart, GoodPieces, Literal, PrintString, Decoded;
    match v {
      case Str(s) => {
        NotInObject(st);
        StringParses(json, st, s, QUOTE);
        OneParses(json, st, Event(QUOTE, Decoded(s)), |Print(v)|, st.stack, QUOTE);
      }
      case Num(t) => {
        NumberParses(json, st, t);
        OneParses(json, st, Event('0', t), |t|, st.stack, '0');
      }
      case Lit(t) => {
        LiteralParses(json, st, t);
        OneParses(json, st, Event(t, Literal(t)), |Print(v)|, st.stack, t);
      }
      case Arr(items) => ArrayParses(json, st, items);
      case Obj(members) => ObjectParses(json, st, members);
    }
  }

  lemma NotInObject(st: State)
    requires CanStart(st)
    ensures Top(st.stack) != '{'
  {
  }

  lemma {:induction false} ArrayParses(json: string, st: State, items: Values)
    requires GoodValues(items) && CanStart(st) && Has(json, st.pos, "[" + PrintValues(items) + "]")
    ensures Parses(json, st, [Event('[', "")] + EventsOf(items) + [Event(']', "")],
                   |"[" + PrintValues(items) + "]"|, st.stack, '[', |st.stack| + 1 + DepthOf(items))
    decreases items, 2
  {
    hide Parses, Next, EventOf, CanStart, PrintValues, EventsOf, Has, DepthOf, LastAfter, GoodValues;
    var text := PrintValues(items);
    HasSplit(json, st.pos, "[" + text, "]");
    HasSplit(json, st.pos, "[", text);
    HasAt(json, st.pos, "[", 0);
    OpensArray(json, st);
    OneParses(json, st, Event('[', ""), 1, st.stack + "[", NUL);
    var n := |st.stack| + 1;
    var u := Continues(json, st, [Event('[', "")], 1, st.stack + "[", NUL, n);
    HasAt(json, st.pos + 1 + |text|, "]", 0);
    var es, w := [Event('[', "")] + EventsOf(items), u;
    if items.NoValues? {
      EmptyTexts();
      assert es == [Event('[', "")];
    } else {
      ValuesParse(json, u, items);
      LastKinds(items);
      ParsesThen(json, st, [Event('[', "")], EventsOf(items), 1, st.stack + "[", NUL, n,
                 |text|, st.stack + "[", LastAfter(items), n + DepthOf(items));
      w := Continues(json, st, es, 1 + |text|, st.stack + "[", LastAfter(items), n + DepthOf(items));
    }
    ClosesArray(json, w, st.stack);
    OneParses(json, w, Event(']', ""), 1, st.stack, '[');
    ParsesThen(json, st, es, [Event(']', "")], 1 + |text|, st.stack + "[", w.vtype, n + DepthOf(items),
               1, st.stack, '[', n);
  }

  lemma EmptyTexts()
    ensures PrintValues(NoValues) == "" && EventsOf(NoValues) == [] && DepthOf(NoValues) == 0
    ensures PrintMembers(NoMembers) == "" && MemberEvents(NoMembers) == [] && MemberDepth(NoMembers) == 0
  {
  }

  function LastAfter(vs: Values): char
    requires vs.Values?
  {
    if vs.tail.NoValues? then After(vs.head) else LastAfter(vs.tail)
  }

  function LastMemberAfter(ms: Members): char
    requires ms.Members?
  {
    if ms.rest.NoMembers? then After(ms.value) else LastMemberAfter(ms.rest)
  }

  lemma AfterKinds(v: Value)
    requires GoodValue(v)
    ensures After(v) != NUL && After(v) != ','
  {
  }

  lemma {:induction false} LastKinds(vs: Values)
    requires vs.Values? && GoodValues(vs)
    ensures LastAfter(vs) != NUL && LastAfter(vs) != ','
    decreases vs
  {
    AfterKinds(vs.head);
    if vs.tail.Values? {
      LastKinds(vs.tail);
    }
  }

  lemma {:induction false} LastMemberKinds(ms: Members)
    requires ms.Members? && GoodMembers(ms)
    ensures LastMemberAfter(ms) != NUL && LastMemberAfter(ms) != ','
    decreases ms
  {
    AfterKinds(ms.value);
    if ms.rest.Members? {
      LastMemberKinds(ms.rest);
    }
  }

  /** A list of values in terms of its first one and the others. */
  lemma ValuesUnfold(vs: Values)
    requires vs.Values? && GoodValues(vs)
    ensures GoodValue(vs.head) && GoodValues(vs.tail)
    ensures vs.tail.NoValues? ==>
              && PrintValues(vs) == Print(vs.head) && EventsOf(vs) == Events(vs.head)
              && DepthOf(vs) == Depth(vs.head) && LastAfter(vs) == After(vs.head)
    ensures vs.tail.Values? ==>
              && PrintValues(vs) == Print(vs.head) + ("," + PrintValues(vs.tail))
              && EventsOf(vs) == Events(vs.head) + ([Event(',', "")] + EventsOf(vs.tail))
              && DepthOf(vs) == Max(Depth(vs.head), DepthOf(vs.tail)) && LastAfter(vs) == LastAfter(vs.tail)
  {
    hide Print, Events, Depth, After;
  }

  lemma {:induction false} ValuesParse(json: string, st: State, vs: Values)
    requires vs.Values? && GoodValues(vs) && Top(st.stack) == '[' && (st.vtype == NUL || st.vtype == ',')
    requires Has(json, st.pos, PrintValues(vs)) && Peek(json, st.pos + |PrintValues(vs)|) == ']'
    ensures Parses(json, st, EventsOf(vs), |PrintValues(vs)|, st.stack, LastAfter(vs), |st.stack| + DepthOf(vs))
    decreases vs, 1
  {
    hide Parses, Next, EventOf, Print, Events, Top, Depth, PrintValues, EventsOf, DepthOf, LastAfter, GoodValue,
      After, Has;
    ValuesUnfold(vs);
    var n := |st.stack|;
    if vs.tail.NoValues? {
      ValueParses(json, st, vs.head);
    } else {
      var head, comma, rest := Print(vs.head), [Event(',', "")], PrintValues(vs.tail);
      HasSplit(json, st.pos, head, "," + rest);
      HasSplit(json, st.pos + |head|, ",", rest);
      HasAt(json, st.pos + |head|, ",", 0);
      ValueParses(json, st, vs.head);
      var u := Continues(json, st, Events(vs.head), |head|, st.stack, After(vs.head), n + Depth(vs.head));
      CommaInArray(json, u);
      OneParses(json, u, Event(',', ""), 1, st.stack, ',');
      var w := Continues(json, u, comma, 1, st.stack, ',', n);
      ValuesParse(json, w, vs.tail);
      ParsesThen(json, u, comma, EventsOf(vs.tail), 1, st.stack, ',', n,
                 |rest|, st.stack, LastAfter(vs.tail), n + DepthOf(vs.tail));
      ParsesThen(json, st, Events(vs.head), comma + EventsOf(vs.tail), |head|, st.stack,
                 After(vs.head), n + Depth(vs.head), 1 + |rest|, st.stack, LastAfter(vs.tail), n + DepthOf(vs.tail));
    }
  }

  lemma {:induction false} ObjectParses(json: string, st: State, members: Members)
    requires GoodMembers(members) && CanStart(st) && Has(json, st.pos, "{" + PrintMembers(members) + "}")
    ensures Parses(json, st, [Event('{', "")] + MemberEvents(members) + [Event('}', "")],
                   |"{" + PrintMembers(members) + "}"|, st.stack, if members.NoMembers? then '{' else ':',
                   |st.stack| + 1 + MemberDepth(members))
    decreases members, 2
  {
    hide Parses, Next, EventOf, CanStart, PrintMembers, MemberEvents, Has, MemberDepth, LastMemberAfter, GoodMembers;
    var text := PrintMembers(members);
    HasSplit(json, st.pos, "{" + text, "}");
    HasSplit(json, st.pos, "{", text);
    HasAt(json, st.pos, "{", 0);
    OpensObject(json, st);
    OneParses(json, st, Event('{', ""), 1, st.stack + "{", NUL);
    var n := |st.stack| + 1;
    var u := Continues(json, st, [Event('{', "")], 1, st.stack + "{", NUL, n);
    HasAt(json, st.pos + 1 + |text|, "}", 0);
    var es, w, s := [Event('{', "")] + MemberEvents(members), u, '{';
    if members.NoMembers? {
      EmptyTexts();
      assert es == [Event('{', "")];
    } else {
      s := ':';
      MembersParse(json, u, members, st.stack);
      LastMemberKinds(members);
      ParsesThen(json, st, [Event('{', "")], MemberEvents(members), 1, st.stack + "{", NUL, n,
                 |text|, st.stack + ":", LastMemberAfter(members), n + MemberDepth(members));
      w := Continues(json, st, es, 1 + |text|, st.stack + ":", LastMemberAfter(members), n + MemberDepth(members));
    }
    ClosesObject(json, w, st.stack, s);
    OneParses(json, w, Event('}', ""), 1, st.stack, s);
    ParsesThen(json, st, es, [Event('}', "")], 1 + |text|, st.stack + [s], w.vtype, n + MemberDepth(members),
               1, st.stack, s, n);
  }

  /** A value behind a colon, seen from the state in front of the colon. */
  lemma ParsesThroughColon(json: string, st: State, u: State, es: seq<Event>, length: nat, stack: string, vtype: char,
                           peak: nat)
    requires es != [] && Next(json, st) == Next(json, u) && u.pos == st.pos + 1 && u.error == st.error
    requires |st.stack| == |u.stack| && Parses(json, u, es, length, stack, vtype, peak)
    ensures Parses(json, st, es, 1 + length, stack, vtype, peak)
  {
    hide Next, EventOf, Trace, Peak;
    TraceStep(json, st, |es|);
    TraceStep(json, u, |es|);
  }

  /** A name, a colon and a value. */
  lemma {:induction false} MemberParses(json: string, st: State, name: seq<Piece>, value: Value, stack: string)
    requires GoodPieces(name) && GoodValue(value) && st.stack == stack + "{"
    requires Has(json, st.pos, PrintString(name) + (":" + Print(value)))
    requires Delimited(json, st.pos + |PrintString(name)| + 1 + |Print(value)|)
    ensures Parses(json, st, [Event('N', Decoded(name))] + Events(value),
                   |PrintString(name)| + (1 + |Print(value)|), stack + ":", After(value), |stack| + 1 + Depth(value))
    decreases value, 1
  {
    hide Parses, Next, EventOf, Print, PrintString, Events, Decoded, Depth, GoodPieces, Delimited, GoodValue, After;
    var head, text := PrintString(name), Print(value);
    HasSplit(json, st.pos, head, ":" + text);
    HasSplit(json, st.pos + |head|, ":", text);
    HasAt(json, st.pos + |head|, ":", 0);
    StringParses(json, st, name, 'N');
    OneParses(json, st, Event('N', Decoded(name)), |head|, stack + "{", 'N');
    var es := [Event('N', Decoded(name))];
    var n := |stack| + 1;
    var r := Continues(json, st, es, |head|, stack + "{", 'N', n);
    ColonGoesOn(json, r, stack);
    var u := r.(pos := r.pos + 1, stack := stack + ":", vtype := NUL);
    ValueParses(json, u, value);
    ParsesThroughColon(json, r, u, Events(value), |text|, stack + ":", After(value), n + Depth(value));
    ParsesThen(json, st, es, Events(value), |head|, stack + "{", 'N', n,
               1 + |text|, stack + ":", After(value), n + Depth(value));
  }

  lemma {:induction false} MembersParse(json: string, st: State, ms: Members, stack: string)
    requires ms.Members? && GoodMembers(ms) && st.stack == stack + "{"
    requires Has(json, st.pos, PrintMembers(ms)) && Peek(json, st.pos + |PrintMembers(ms)|) == '}'
    ensures Parses(json, st, MemberEvents(ms), |PrintMembers(ms)|, stack + ":", LastMemberAfter(ms),
                   |stack| + 1 + MemberDepth(ms))
    decreases ms, 1
  {
    hide Parses, Print, PrintString, Events, Decoded, Depth, GoodPieces, GoodValue, After, Delimited, Peek;
    var first := PrintString(ms.name) + (":" + Print(ms.value));
    var rest := if ms.rest.NoMembers? then "" else "," + PrintMembers(ms.rest);
    assert PrintMembers(ms) == first + rest;
    HasSplit(json, st.pos, first, rest);
    DelimitedMember(json, ms, st.pos + |first|, rest);
    MemberParses(json, st, ms.name, ms.value, stack);
    if ms.rest.Members? {
      MoreMembers(json, st, ms, stack);
    } else {
      assert MemberEvents(ms) == [Event('N', Decoded(ms.name))] + Events(ms.value);
    }
  }

  lemma DelimitedMember(json: string, ms: Members, pos: nat, rest: string)
    requires ms.Members? && rest == if ms.rest.NoMembers? then "" else "," + PrintMembers(ms.rest)
    requires Has(json, pos, rest) && Peek(json, pos + |rest|) == '}'
    ensures Delimited(json, pos)
  {
    if ms.rest.Members? {
      HasAt(json, pos, rest, 0);
    }
  }

  /** The members behind the first one. */
  lemma {:induction false} MoreMembers(json: string, st: State, ms: Members, stack: string)
    requires ms.Members? && GoodMembers(ms) && ms.rest.Members? && st.stack == stack + "{"
    requires Has(json, st.pos, PrintMembers(ms)) && Peek(json, st.pos + |PrintMembers(ms)|) == '}'
    requires Parses(json, st, [Event('N', Decoded(ms.name))] + Events(ms.value),
                    |PrintString(ms.name)| + (1 + |Print(ms.value)|), stack + ":", After(ms.value),
                    |stack| + 1 + Depth(ms.value))
    ensures Parses(json, st, MemberEvents(ms), |PrintMembers(ms)|, stack + ":", LastMemberAfter(ms),
                   |stack| + 1 + MemberDepth(ms))
    decreases ms, 0
  {
    hide Parses, Next, EventOf, Print, PrintString, Events, Decoded, Depth, GoodPieces;
    var first := PrintString(ms.name) + ":" + Print(ms.value);
    var es, comma := [Event('N', Decoded(ms.name))] + Events(ms.value), [Event(',', "")];
    var rest := PrintMembers(ms.rest);
    assert PrintMembers(ms) == first + ("," + rest);
    HasSplit(json, st.pos, first, "," + rest);
    HasSplit(json, st.pos + |first|, ",", rest);
    HasAt(json, st.pos + |first|, ",", 0);
    AfterKinds(ms.value);
    var n := |stack| + 1;
    var u := Continues(json, st, es, |first|, stack + ":", After(ms.value), n + Depth(ms.value));
    CommaInObject(json, u, stack);
    OneParses(json, u, Event(',', ""), 1, stack + "{", ',');
    var w := Continues(json, u, comma, 1, stack + "{", ',', n);
    MembersParse(json, w, ms.rest, stack);
    ParsesThen(json, u, comma, MemberEvents(ms.rest), 1, stack + "{", ',', n,
               |rest|, stack + ":", LastMemberAfter(ms.rest), n + MemberDepth(ms.rest));
    ParsesThen(json, st, es, comma + MemberEvents(ms.rest), |first|, stack + ":", After(ms.value), n + Depth(ms.value),
               1 + |rest|, stack + ":", LastMemberAfter(ms.rest), n + MemberDepth(ms.rest));
    assert MemberEvents(ms) == es + (comma + MemberEvents(ms.rest));
  }

  const START: State := State(0, "", NUL, OK, 0, 0)

  /**
    Every value printed without white space: the calls give exactly its events, strings
    unescaped, then 0 with no error and nothing open; and the stack of the parser is large
    enough if and only if the value is nested at most as deep as it allows.
   */
  lemma DocumentParses(v: Value)
    requires GoodValue(v)
    ensures var (es, st) := Trace(Print(v), START, |Events(v)|);
            && es == Events(v) && st.pos == |Print(v)| && st.stack == "" && st.error == OK
            && var (c, last) := Next(Print(v), st);
            c == NUL && last.stack == "" && last.error == OK
    ensures Fits(Print(v), START, |Events(v)|) <==> Depth(v) <= JSONPARSE_MAX_DEPTH
  {
    hide Trace, Peak, Print, Events;
    var json := Print(v);
    ValueParses(json, START, v);
    AfterKinds(v);
    NotSpace(json, |json|);
  }

  /** A written text as a document: one event, with the text. */
  lemma TextDocument(t: string)
    requires '\0' !in t
    ensures var v := Str(WrittenText(t));
            GoodValue(v) && Trace(Print(v), START, 1).0 == [Event('\"', t)]
  {
    hide Trace, Print, Peak;
    WrittenDecodes(t);
    DocumentParses(Str(WrittenText(t)));
  }

  // ----- where the parser is narrower than JSON -------------------------------------------------------

  /** A line break is white space, but not behind a literal: there the literal is refused. */
  lemma LineBreakBehindLiteral()
    ensures Next("true" + [NEWLINE], START).0 == NUL && Next("true" + [NEWLINE], START).1.error == SYNTAX
  {
    var json := "true" + [NEWLINE];
    NotSpace(json, 0);
    assert ScanLiteral(json, 5) == 5;
    assert ScanLiteral(json, 4) == 5;
    assert ScanLiteral(json, 3) == 5;
    assert ScanLiteral(json, 2) == 5;
    assert ScanLiteral(json, 1) == 5;
  }

  // ----- in place -------------------------------------------------------------------------------------

  /** struct jsonparse_state. */
  class Parser {
    const json: string
    const stack: array<char>
    var pos: nat
    var depth: nat
    var vtype: char
    var error: Error
    var vstart: int
    var vlen: int

    ghost predicate Valid()
      reads this
    {
      stack.Length == JSONPARSE_MAX_DEPTH && depth <= JSONPARSE_MAX_DEPTH
    }

    ghost function Contents(): State
      requires Valid()
      reads this, stack
    {
      State(pos, stack[..depth], vtype, error, vstart, vlen)
    }

    /** jsonparse_setup. */
    constructor (json: string)
      ensures Valid() && Contents() == START && this.json == json && fresh(stack)
    {
      this.json := json;
      stack := new char[JSONPARSE_MAX_DEPTH](_ => NUL);
      pos, depth, vtype, error, vstart, vlen := 0, 0, NUL, OK, 0, 0;
    }

    /** jsonparse_get_type. */
    method GetType() returns (c: char)
      requires Valid()
      ensures c == Top(Contents().stack)
    {
      if depth == 0 {
        return NUL;
      }
      c := stack[depth - 1];
    }

    method SkipSpace()
      requires Valid()
      modifies this`pos
      ensures pos == SkipWs(json, old(pos))
    {
      while pos < |json| && (json[pos] == ' ' || json[pos] == NEWLINE)
        invariant SkipWs(json, pos) == SkipWs(json, old(pos))
        decreases |json| - pos
      {
        pos := pos + 1;
      }
    }

    /** push, which does not refuse a full stack: the caller has to. */
    method PushType(c: char)
      requires Valid() && depth < JSONPARSE_MAX_DEPTH
      modifies this, stack
      ensures Valid() && Contents() == Push(old(Contents()), c)
    {
      stack[depth] := c;
      depth := depth + 1;
      vtype := NUL;
    }

    /** modify, and the type that its callers set. */
    method ModifyType(c: char, v: char)
      requires Valid() && depth > 0
      modifies this, stack
      ensures Valid() && Contents() == Modify(old(Contents()), c, v)
    {
      stack[depth - 1] := c;
      vtype := v;
    }

    method PopType()
      requires Valid() && depth > 0
      modifies this
      ensures Valid() && Contents() == Pop(old(Contents()))
    {
      depth := depth - 1;
      vtype := stack[depth];
      assert stack[..depth] == old(stack[..depth])[..depth];
    }

    /** The scanning loop of a string. */
    method SkipString() returns (closed: bool)
      modifies this`pos
      ensures (pos, closed) == ScanString(json, old(pos))
    {
      var c := Peek(json, pos);
      pos := pos + 1;
      while c != NUL && c != QUOTE
        invariant pos > 0 && c == Peek(json, pos - 1) && ScanString(json, pos - 1) == ScanString(json, old(pos))
        decreases |json| - pos
      {
        if c == BACKSLASH {
          pos := pos + 1;
        }
        c := Peek(json, pos);
        pos := pos + 1;
      }
      closed := c == QUOTE;
    }

    method SkipNumber()
      modifies this`pos
      ensures pos == ScanNumber(json, old(pos))
    {
      while pos < |json| && NumberChar(Peek(json, pos))
        invariant ScanNumber(json, pos) == ScanNumber(json, old(pos))
        decreases |json| - pos
      {
        pos := pos + 1;
      }
    }

    method SkipLiteral()
      modifies this`pos
      ensures pos == ScanLiteral(json, old(pos))
    {
      while pos < |json| && LiteralChar(Peek(json, pos))
        invariant ScanLiteral(json, pos) == ScanLiteral(json, old(pos))
        decreases |json| - pos
      {
        pos := pos + 1;
      }
    }

    /** atomic. */
    method AtomicValue(t: char) returns (c: char)
      requires Valid() && pos > 0
      modifies this
      ensures Valid() && (c, Contents()) == Atomic(json, old(Contents()), t)
    {
      hide ScanString, ScanNumber, ScanLiteral, Has;
      vstart := pos;
      if t == QUOTE || t == 'N' {
        var closed := SkipString();
        if !closed {
          error := SYNTAX;
          return NUL;
        }
        vlen := pos - vstart - 1;
      } else if t == '0' {
        SkipNumber();
        vstart := vstart - 1;
        vlen := pos - vstart;
      } else {
        vstart := vstart - 1;
        SkipLiteral();
        vlen := pos - vstart;
        var w := Literal(t);
        if !(Has(json, vstart, w) && vlen == |w|) {
          error := SYNTAX;
          return NUL;
        }
      }
      vtype := t;
      c := t;
    }

    /** The default case of the switch. */
    method Atom(c: char, s: char, v: char) returns (r: char)
      requires Valid() && pos > 0 && s == Top(Contents().stack) && v == vtype
      modifies this
      ensures Valid() && (r, Contents()) == NextAtom(json, old(Contents()), c)
    {
      hide Atomic;
      if s == NUL || s == ':' || s == '[' {
        if v != NUL && v != ',' {
          error := SYNTAX;
          return NUL;
        }
        if c == '-' || '0' <= c <= '9' {
          r := AtomicValue('0');
        } else if c == 'n' || c == 't' || c == 'f' {
          r := AtomicValue(c);
        } else {
          error := SYNTAX;
          r := NUL;
        }
      } else if s == '{' {
        error := SYNTAX;
        r := NUL;
      } else {
        r := NUL;
      }
    }

    method Refuse(e: Error) returns (c: char)
      requires Valid()
      modifies this`error
      ensures Valid() && (c, Contents()) == Fail(old(Contents()), e)
    {
      error := e;
      c := NUL;
    }

    /** jsonparse_next, on text that is not nested deeper than the stack. */
    method NextEvent() returns (r: char)
      requires Valid() && |Next(json, Contents()).1.stack| <= JSONPARSE_MAX_DEPTH
      modifies this, stack
      ensures Valid() && (r, Contents()) == Next(json, old(Contents()))
      decreases |json| - pos
    {
      hide NextAtom, Atomic, SkipWs;
      SkipSpace();
      var c := Peek(json, pos);
      var s := GetType();
      var v := vtype;
      pos := pos + 1;
      r := c;
      if c == '{' {
        if (s == NUL && v == NUL) || s == '[' || s == ':' {
          PushType(c);
        } else {
          r := Refuse(UNEXPECTED_OBJECT);
        }
      } else if c == '}' {
        if (s == ':' && v != ',' && v != NUL) || (s == '{' && v == NUL) {
          PopType();
        } else {
          r := Refuse(UNEXPECTED_END_OF_OBJECT);
        }
      } else if c == ']' {
        if s == '[' && v != ',' {
          PopType();
        } else {
          r := Refuse(UNEXPECTED_END_OF_ARRAY);
        }
      } else if c == ':' {
        if s == '{' && v == 'N' {
          ModifyType(':', NUL);
          r := NextEvent();
        } else {
          r := Refuse(SYNTAX);
        }
      } else if c == ',' {
        if s == ':' && v != NUL {
          ModifyType('{', c);
        } else if s == '[' {
          vtype := c;
        } else {
          r := Refuse(SYNTAX);
        }
      } else if c == QUOTE {
        if (s == NUL && v == NUL) || s == '{' || s == '[' || s == ':' {
          r := AtomicValue(if s == '{' then 'N' else c);
        } else {
          r := Refuse(UNEXPECTED_STRING);
        }
      } else if c == '[' {
        if (s == NUL && v == NUL) || s == '[' || s == ':' {
          PushType(c);
        } else {
          r := Refuse(UNEXPECTED_ARRAY);
        }
      } else if c == NUL {
        if v == NUL || depth > 0 {
          error := SYNTAX;
        }
        r := NUL;
      } else {
        r := Atom(c, s, v);
      }
    }

    /** One turn of the loop of jsonparse_copy_value. */
    method CopyOne(str: array<char>, i: nat, o: nat, size: nat) returns (next: nat, n: nat)
      requires vstart >= 0 && i < vlen && o < size - 1 && size <= str.Length
      modifies str
      ensures i < next && n <= size - 1
      ensures str[..n] + CopyFrom(json, vstart + next, vstart + vlen, size - 1 - n)
           == old(str[..o]) + CopyFrom(json, vstart + i, vstart + vlen, size - 1 - o)
    {
      hide CopyFrom, Unescape;
      CopyUnfold(json, vstart + i, vstart + vlen, size - 1 - o);
      next, n := i, o;
      var c := Peek(json, vstart + next);
      ghost var w := [c];
      if c == BACKSLASH {
        next := next + 1;
        var u := Unescape(Peek(json, vstart + next));
        UnescapeLength(Peek(json, vstart + next));
        if u != "" {
          str[n] := u[0];
          n := n + 1;
        }
        w := u;
      } else {
        str[n] := c;
        n := n + 1;
      }
      next := next + 1;
      assert str[..n] == old(str[..o]) + w;
      Regroup(old(str[..o]), w, CopyFrom(json, vstart + next, vstart + vlen, size - 1 - n));
    }

    /** The loop of jsonparse_copy_value. */
    method CopyAll(str: array<char>, size: nat) returns (o: nat)
      requires 0 < size <= str.Length && vstart >= 0
      modifies str
      ensures o < size && str[..o] == CopyFrom(json, vstart, vstart + vlen, size - 1)
    {
      hide CopyFrom;
      o := 0;
      var i: nat := 0;
      ghost var all := CopyFrom(json, vstart, vstart + vlen, size - 1);
      assert str[..0] + all == all;
      while i < vlen && o < size - 1
        invariant o <= size - 1
        invariant str[..o] + CopyFrom(json, vstart + i, vstart + vlen, size - 1 - o) == all
        decreases vlen - i
      {
        i, o := CopyOne(str, i, o, size);
      }
      CopyEnds(json, vstart + i, vstart + vlen, size - 1 - o);
      assert str[..o] + "" == str[..o];
    }

    /** jsonparse_copy_value: the unescaped text, as much of it as fits, and its terminator. */
    method CopyValue(str: array<char>, size: nat) returns (r: char, o: nat)
      requires Valid() && 0 < size <= str.Length && vstart >= 0 && str != stack
      modifies str
      ensures r == if IsAtomic(vtype) then vtype else NUL
      ensures IsAtomic(vtype) ==>
                o < size && str[o] == NUL && str[..o] == CopyFrom(json, vstart, vstart + vlen, size - 1)
      ensures !IsAtomic(vtype) ==> str[..] == old(str[..])
    {
      hide CopyFrom, IsAtomic;
      if !IsAtomic(vtype) {
        return NUL, 0;
      }
      o := CopyAll(str, size);
      ghost var copied := str[..o];
      str[o] := NUL;
      assert str[..o] == copied;
      r := vtype;
    }
  }

  lemma Regroup(a: string, b: string, c: string)
    ensures a + (b + c) == (a + b) + c
  {
  }

  lemma UnescapeLength(e: char)
    ensures |Unescape(e)| <= 1
  {
  }

  lemma CopyUnfold(json: string, i: nat, end: int, room: nat)
    requires i < end && room > 0
    ensures CopyFrom(json, i, end, room)
         == if Peek(json, i) == BACKSLASH then
              var u := Unescape(Peek(json, i + 1));
              u + CopyFrom(json, i + 2, end, if |u| <= room then room - |u| else 0)
            else [Peek(json, i)] + CopyFrom(json, i + 1, end, room - 1)
  {
  }

  lemma CopyEnds(json: string, i: nat, end: int, room: nat)
    requires i >= end || room == 0
    ensures CopyFrom(json, i, end, room) == ""
  {
  }
}
