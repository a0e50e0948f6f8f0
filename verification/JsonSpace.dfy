/**
  White space in JSON texts (apps/json/jsonparse.c; section 2 of RFC 8259).

  A document is a sequence of tokens with white space around them.  `SpacedDocumentIff` is the
  main result: whatever stands between the tokens, the parser gives the events of the document
  if and only if it is made of blanks and line breaks and no literal is directly followed by a
  line break.
 */
module JsonSpace {
  import opened Segments
  import opened Json

  // ----- tokens ------------------------------------------------------------------------------

  datatype Token = Mark(c: char) | Text(s: seq<Piece>) | Number(digits: string) | Word(t: char)

  predicate GoodToken(tok: Token) {
    match tok
    case Mark(c) => c == '{' || c == '}' || c == '[' || c == ']' || c == ':' || c == ','
    case Text(s) => GoodPieces(s)
    case Number(t) => GoodNumber(t)
    case Word(t) => t == 'n' || t == 't' || t == 'f'
  }

  function Written(tok: Token): string {
    match tok
    case Mark(c) => [c]
    case Text(s) => PrintString(s)
    case Number(t) => t
    case Word(t) => Literal(t)
  }

  function Tokens(v: Value): seq<Token> {
    match v
    case Str(s) => [Text(s)]
    case Num(t) => [Number(t)]
    case Lit(t) => [Word(t)]
    case Arr(items) => [Mark('[')] + TokensOf(items) + [Mark(']')]
    case Obj(members) => [Mark('{')] + MemberTokens(members) + [Mark('}')]
  }

  function TokensOf(vs: Values): seq<Token> {
    if vs.NoValues? then []
    else Tokens(vs.head) + (if vs.tail.NoValues? then [] else [Mark(',')] + TokensOf(vs.tail))
  }

  function MemberTokens(ms: Members): seq<Token> {
    if ms.NoMembers? then []
    else [Text(ms.name), Mark(':')] + Tokens(ms.value)
         + (if ms.rest.NoMembers? then [] else [Mark(',')] + MemberTokens(ms.rest))
  }

  /** The text of tokens with `ws[k]` in front of token k and the last of `ws` at the end. */
  function Layout(ts: seq<Token>, ws: seq<string>): string
    requires |ws| == |ts| + 1
  {
    if ts == [] then ws[0] else ws[0] + Written(ts[0]) + Layout(ts[1..], ws[1..])
  }

  /** White space of JSON. */
  predicate White(w: string) {
    forall k :: 0 <= k < |w| ==> w[k] == ' ' || w[k] == NEWLINE || w[k] == '\t' || w[k] == '\r'
  }

  /** White space that the parser skips. */
  predicate Blank(w: string) {
    forall k :: 0 <= k < |w| ==> w[k] == ' ' || w[k] == NEWLINE
  }

  /** White space that begins with a line break or a tabulator goes on as part of a literal. */
  predicate Sticks(w: string) { w != "" && w[0] != ' ' }

  /** Blanks and line breaks only, and no line break directly behind a literal. */
  predicate Skipped(ts: seq<Token>, ws: seq<string>)
    requires |ws| == |ts| + 1
  {
    && (forall k :: 0 <= k < |ws| ==> Blank(ws[k]))
    && (forall k :: 0 <= k < |ts| && ts[k].Word? ==> !Sticks(ws[k + 1]))
  }

  predicate Delimiter(tok: Token) { tok.Mark? && (tok.c == ',' || tok.c == ']' || tok.c == '}') }

  /** Good tokens, with delimiters behind numbers and literals. */
  predicate Sentence(ts: seq<Token>) {
    && (forall k :: 0 <= k < |ts| ==> GoodToken(ts[k]))
    && (forall k :: 0 <= k < |ts| - 1 && (ts[k].Number? || ts[k].Word?) ==> Delimiter(ts[k + 1]))
  }

  // ----- the tokens of a value -----------------------------------------------------------------

  function None(n: nat): seq<string> { seq(n, _ => "") }

  lemma {:induction false} LayoutConcat(a: seq<Token>, b: seq<Token>)
    ensures Layout(a + b, None(|a + b| + 1)) == Layout(a, None(|a| + 1)) + Layout(b, None(|b| + 1))
    decreases a
  {
    hide Written;
    if a == [] {
      assert a + b == b;
    } else {
      assert (a + b)[1..] == a[1..] + b;
      assert None(|a + b| + 1)[1..] == None(|(a + b)[1..]| + 1);
      assert None(|a| + 1)[1..] == None(|a[1..]| + 1);
      LayoutConcat(a[1..], b);
    }
  }

  lemma LayoutOne(tok: Token)
    ensures Layout([tok], None(2)) == Written(tok)
  {
    assert Layout([tok], None(2)) == "" + Written(tok) + Layout([], None(2)[1..]);
  }

  lemma LayoutTwo(a: Token, b: Token)
    ensures Layout([a, b], None(3)) == Written(a) + Written(b)
  {
    LayoutOne(a);
    LayoutOne(b);
    LayoutConcat([a], [b]);
    assert [a] + [b] == [a, b];
  }

  /** Without white space the tokens are the text of the value. */
  lemma {:induction false} TokensPrint(v: Value)
    ensures Layout(Tokens(v), None(|Tokens(v)| + 1)) == Print(v)
    decreases v, 0
  {
    hide Layout;
    match v {
      case Str(s) => LayoutOne(Text(s));
      case Num(t) => LayoutOne(Number(t));
      case Lit(t) => LayoutOne(Word(t));
      case Arr(items) =>
        Enclosed(TokensOf(items), '[', ']');
        ListPrint(items);
      case Obj(members) =>
        Enclosed(MemberTokens(members), '{', '}');
        MembersPrint(members);
    }
  }

  lemma Enclosed(ts: seq<Token>, open: char, close: char)
    ensures var all := [Mark(open)] + ts + [Mark(close)];
            Layout(all, None(|all| + 1)) == [open] + Layout(ts, None(|ts| + 1)) + [close]
  {
    LayoutOne(Mark(open));
    LayoutOne(Mark(close));
    LayoutConcat([Mark(open)], ts);
    LayoutConcat([Mark(open)] + ts, [Mark(close)]);
  }

  lemma {:induction false} ListPrint(vs: Values)
    ensures Layout(TokensOf(vs), None(|TokensOf(vs)| + 1)) == PrintValues(vs)
    decreases vs, 1
  {
    hide Tokens, Print;
    if vs.Values? {
      TokensPrint(vs.head);
      if vs.tail.Values? {
        ListPrint(vs.tail);
        LayoutOne(Mark(','));
        LayoutConcat([Mark(',')], TokensOf(vs.tail));
        LayoutConcat(Tokens(vs.head), [Mark(',')] + TokensOf(vs.tail));
      } else {
        assert TokensOf(vs) == Tokens(vs.head);
      }
    }
  }

  lemma {:induction false} MembersPrint(ms: Members)
    ensures Layout(MemberTokens(ms), None(|MemberTokens(ms)| + 1)) == PrintMembers(ms)
    decreases ms, 1
  {
    hide Tokens, Print, PrintString, Layout;
    if ms.Members? {
      var name := [Text(ms.name), Mark(':')];
      LayoutTwo(Text(ms.name), Mark(':'));
      TokensPrint(ms.value);
      LayoutConcat(name, Tokens(ms.value));
      if ms.rest.Members? {
        MembersPrint(ms.rest);
        LayoutOne(Mark(','));
        LayoutConcat([Mark(',')], MemberTokens(ms.rest));
        LayoutConcat(name + Tokens(ms.value), [Mark(',')] + MemberTokens(ms.rest));
      } else {
        assert MemberTokens(ms) == name + Tokens(ms.value);
      }
    } else {
      assert Layout([], None(1)) == "" by { NothingLaid(); }
    }
  }

  lemma NothingLaid()
    ensures Layout([], None(1)) == ""
  {
  }

  /** Tokens before others that do not go on with a number or a literal. */
  lemma SentenceConcat(a: seq<Token>, b: seq<Token>)
    requires Sentence(a) && Sentence(b)
    requires b == [] || Delimiter(b[0]) || (a != [] ==> a[|a| - 1].Mark?)
    ensures Sentence(a + b)
  {
  }

  lemma {:induction false} ValueSentence(v: Value)
    requires GoodValue(v)
    ensures Sentence(Tokens(v))
    decreases v, 0
  {
    hide GoodPieces, GoodNumber, Sentence;
    match v {
      case Arr(items) =>
        ListSentence(items);
        EnclosedSentence(TokensOf(items), '[', ']');
      case Obj(members) =>
        MembersSentence(members);
        EnclosedSentence(MemberTokens(members), '{', '}');
      case _ => OneSentence(Tokens(v)[0]);
    }
  }

  lemma OneSentence(tok: Token)
    requires GoodToken(tok)
    ensures Sentence([tok])
  {
  }

  lemma EnclosedSentence(ts: seq<Token>, open: char, close: char)
    requires Sentence(ts) && GoodToken(Mark(open)) && (close == ']' || close == '}')
    ensures Sentence([Mark(open)] + ts + [Mark(close)])
  {
    hide Sentence;
    OneSentence(Mark(open));
    OneSentence(Mark(close));
    SentenceConcat([Mark(open)], ts);
    SentenceConcat([Mark(open)] + ts, [Mark(close)]);
  }

  lemma {:induction false} ListSentence(vs: Values)
    requires GoodValues(vs)
    ensures Sentence(TokensOf(vs))
    decreases vs, 1
  {
    hide Tokens, GoodValue, Sentence;
    if vs.NoValues? {
      NoSentence();
    } else {
      ValueSentence(vs.head);
      if vs.tail.Values? {
        ListSentence(vs.tail);
        OneSentence(Mark(','));
        SentenceConcat([Mark(',')], TokensOf(vs.tail));
        SentenceConcat(Tokens(vs.head), [Mark(',')] + TokensOf(vs.tail));
      } else {
        assert TokensOf(vs) == Tokens(vs.head);
      }
    }
  }

  lemma NoSentence()
    ensures Sentence([])
  {
  }

  lemma {:induction false} MembersSentence(ms: Members)
    requires GoodMembers(ms)
    ensures Sentence(MemberTokens(ms))
    decreases ms, 1
  {
    hide Tokens, GoodValue, GoodPieces, Sentence;
    if ms.NoMembers? {
      NoSentence();
    } else {
      var name := [Text(ms.name)] + [Mark(':')];
      OneSentence(Text(ms.name));
      OneSentence(Mark(':'));
      assert Sentence(name) by { NameSentence(ms.name); }
      ValueSentence(ms.value);
      SentenceConcat(name, Tokens(ms.value));
      if ms.rest.Members? {
        MembersSentence(ms.rest);
        OneSentence(Mark(','));
        SentenceConcat([Mark(',')], MemberTokens(ms.rest));
        SentenceConcat(name + Tokens(ms.value), [Mark(',')] + MemberTokens(ms.rest));
        assert MemberTokens(ms) == name + Tokens(ms.value) + ([Mark(',')] + MemberTokens(ms.rest));
      } else {
        assert MemberTokens(ms) == name + Tokens(ms.value);
      }
    }
  }

  lemma NameSentence(s: seq<Piece>)
    requires GoodPieces(s)
    ensures Sentence([Text(s)] + [Mark(':')])
  {
  }

  // ----- one call on two texts with the same tokens ----------------------------------------------

  /** The token is written at `pos`, and ends there. */
  predicate At(json: string, pos: nat, tok: Token) {
    && Has(json, pos, Written(tok))
    && (tok.Number? ==> !NumberChar(Peek(json, pos + |Written(tok)|)))
    && (tok.Word? ==> !LiteralChar(Peek(json, pos + |Written(tok)|)))
  }

  predicate Same(a: State, b: State) { a.stack == b.stack && a.vtype == b.vtype && a.error == b.error }

  /** Two calls with the same result, behind `n` and `n2` characters. */
  predicate Alike(json: string, st: State, n: nat, json2: string, st2: State, n2: nat) {
    var (c, u) := Next(json, st);
    var (c2, u2) := Next(json2, st2);
    && c == c2 && Same(u, u2)
    && (c != NUL ==> u.pos == st.pos + n && u2.pos == st2.pos + n2 && EventOf(json, c, u) == EventOf(json2, c2, u2))
  }

  lemma MarkAlike(json: string, st: State, json2: string, st2: State, c: char)
    requires GoodToken(Mark(c)) && c != ':' && Same(st, st2)
    requires At(json, st.pos, Mark(c)) && At(json2, st2.pos, Mark(c))
    ensures Alike(json, st, 1, json2, st2, 1)
  {
    hide CopyFrom;
    HasAt(json, st.pos, [c], 0);
    HasAt(json2, st2.pos, [c], 0);
    NotSpace(json, st.pos);
    NotSpace(json2, st2.pos);
  }

  lemma TextAlike(json: string, st: State, json2: string, st2: State, s: seq<Piece>)
    requires GoodPieces(s) && Same(st, st2) && At(json, st.pos, Text(s)) && At(json2, st2.pos, Text(s))
    ensures Alike(json, st, |PrintString(s)|, json2, st2, |PrintString(s)|)
  {
    hide Next, EventOf, PrintString, CopyFrom, Decoded, Cut;
    TextNext(json, st, s);
    TextNext(json2, st2, s);
  }

  /** Where a string may stand, as a value or as a name. */
  predicate TextFits(st: State) {
    (Top(st.stack) == NUL && st.vtype == NUL) || Top(st.stack) == '{' || Top(st.stack) == '[' || Top(st.stack) == ':'
  }

  lemma TextNext(json: string, st: State, s: seq<Piece>)
    requires GoodPieces(s) && Has(json, st.pos, PrintString(s))
    ensures var (c, u) := Next(json, st);
            var kind, n := if Top(st.stack) == '{' then 'N' else QUOTE, |PrintString(s)|;
            if TextFits(st) then
              && c == kind && u.pos == st.pos + n && u.stack == st.stack && u.vtype == kind && u.error == st.error
              && EventOf(json, c, u) == Event(kind, Cut(Decoded(s), n - 2))
            else c == NUL && u.stack == st.stack && u.vtype == st.vtype && u.error == UNEXPECTED_STRING
  {
    hide ScanString, PrintPieces, CopyFrom, Decoded, Cut;
    TextScan(json, st.pos, s);
  }

  lemma TextScan(json: string, pos: nat, s: seq<Piece>)
    requires GoodPieces(s) && Has(json, pos, PrintString(s))
    ensures Peek(json, pos) == QUOTE && SkipWs(json, pos) == pos
    ensures ScanString(json, pos + 1) == (pos + |PrintString(s)|, true)
    ensures var n := |PrintString(s)| - 2; CopyFrom(json, pos + 1, pos + 1 + n, n) == Cut(Decoded(s), n)
  {
    hide ScanString, PrintPieces, CopyFrom, Decoded;
    HasSplit(json, pos, [QUOTE], PrintPieces(s) + [QUOTE]);
    assert [QUOTE] + (PrintPieces(s) + [QUOTE]) == PrintString(s);
    HasAt(json, pos, [QUOTE], 0);
    HasSplit(json, pos + 1, PrintPieces(s), [QUOTE]);
    NotSpace(json, pos);
    ScanPieces(json, pos + 1, s);
    CopyPieces(json, pos + 1, s, |PrintPieces(s)|);
  }

  lemma NumberAlike(json: string, st: State, json2: string, st2: State, t: string)
    requires GoodNumber(t) && Same(st, st2) && At(json, st.pos, Number(t)) && At(json2, st2.pos, Number(t))
    ensures Alike(json, st, |t|, json2, st2, |t|)
  {
    hide Next, EventOf;
    NumberNext(json, st, t);
    NumberNext(json2, st2, t);
  }

  /** Where another atom may stand. */
  predicate AtomFits(st: State) {
    var s := Top(st.stack);
    (s == NUL || s == ':' || s == '[') && (st.vtype == NUL || st.vtype == ',')
  }

  lemma NumberNext(json: string, st: State, t: string)
    requires GoodNumber(t) && Has(json, st.pos, t) && !NumberChar(Peek(json, st.pos + |t|))
    ensures var (c, u) := Next(json, st);
            if AtomFits(st) then
              && c == '0' && u.pos == st.pos + |t| && u.stack == st.stack && u.vtype == '0' && u.error == st.error
              && EventOf(json, c, u) == Event('0', t)
            else c == NUL && u.stack == st.stack && u.vtype == st.vtype
                 && u.error == if Top(st.stack) in "{[:" || Top(st.stack) == NUL then SYNTAX else st.error
  {
    hide ScanNumber, CopyFrom;
    NumberScan(json, st.pos, t);
  }

  lemma NumberScan(json: string, pos: nat, t: string)
    requires GoodNumber(t) && Has(json, pos, t) && !NumberChar(Peek(json, pos + |t|))
    ensures Peek(json, pos) == t[0] && SkipWs(json, pos) == pos
    ensures ScanNumber(json, pos + 1) == pos + |t| && CopyFrom(json, pos, pos + |t|, |t|) == t
  {
    hide ScanNumber, CopyFrom;
    HasAt(json, pos, t, 0);
    NotSpace(json, pos);
    assert t == [t[0]] + t[1..];
    HasSplit(json, pos, [t[0]], t[1..]);
    ScanDigits(json, pos + 1, t[1..]);
    CopyPlain(json, pos, t);
  }

  lemma WordAlike(json: string, st: State, json2: string, st2: State, t: char)
    requires GoodToken(Word(t)) && Same(st, st2) && At(json, st.pos, Word(t)) && At(json2, st2.pos, Word(t))
    ensures Alike(json, st, |Literal(t)|, json2, st2, |Literal(t)|)
  {
    hide Next, EventOf, Literal;
    WordNext(json, st, t);
    WordNext(json2, st2, t);
  }

  lemma WordNext(json: string, st: State, t: char)
    requires GoodToken(Word(t)) && Has(json, st.pos, Literal(t)) && !LiteralChar(Peek(json, st.pos + |Literal(t)|))
    ensures var (c, u) := Next(json, st);
            if AtomFits(st) then
              && c == t && u.pos == st.pos + |Literal(t)| && u.stack == st.stack && u.vtype == t && u.error == st.error
              && EventOf(json, c, u) == Event(t, Literal(t))
            else c == NUL && u.stack == st.stack && u.vtype == st.vtype
                 && u.error == if Top(st.stack) in "{[:" || Top(st.stack) == NUL then SYNTAX else st.error
  {
    hide ScanLiteral, CopyFrom, Literal;
    WordScan(json, st.pos, t);
  }

  lemma WordScan(json: string, pos: nat, t: char)
    requires GoodToken(Word(t)) && Has(json, pos, Literal(t)) && !LiteralChar(Peek(json, pos + |Literal(t)|))
    ensures Peek(json, pos) == t && SkipWs(json, pos) == pos
    ensures ScanLiteral(json, pos + 1) == pos + |Literal(t)|
    ensures CopyFrom(json, pos, pos + |Literal(t)|, |Literal(t)|) == Literal(t)
  {
    hide ScanLiteral, CopyFrom, Literal;
    var w := Literal(t);
    LiteralText(t);
    HasAt(json, pos, w, 0);
    NotSpace(json, pos);
    assert w == [w[0]] + w[1..];
    HasSplit(json, pos, [w[0]], w[1..]);
    ScanLetters(json, pos + 1, w[1..]);
    CopyPlain(json, pos, w);
  }

  lemma TokenAlike(json: string, st: State, json2: string, st2: State, tok: Token)
    requires GoodToken(tok) && tok != Mark(':') && Same(st, st2) && At(json, st.pos, tok) && At(json2, st2.pos, tok)
    ensures Alike(json, st, |Written(tok)|, json2, st2, |Written(tok)|)
  {
    hide Alike, At;
    match tok {
      case Mark(c) => MarkAlike(json, st, json2, st2, c);
      case Text(s) => TextAlike(json, st, json2, st2, s);
      case Number(t) => NumberAlike(json, st, json2, st2, t);
      case Word(t) => WordAlike(json, st, json2, st2, t);
    }
  }

  // ----- texts that are laid out ------------------------------------------------------------------

  /** From `pos` on the text is the layout of the tokens. */
  predicate Laid(json: string, pos: nat, ts: seq<Token>, ws: seq<string>) {
    |ws| == |ts| + 1 && pos <= |json| && json[pos..] == Layout(ts, ws)
  }

  predicate AllWhite(ws: seq<string>) { forall k :: 0 <= k < |ws| ==> White(ws[k]) }

  lemma LaidStep(json: string, pos: nat, ts: seq<Token>, ws: seq<string>)
    requires Laid(json, pos, ts, ws) && ts != []
    ensures Has(json, pos, ws[0]) && Has(json, pos + |ws[0]|, Written(ts[0]))
    ensures Laid(json, pos + |ws[0]| + |Written(ts[0])|, ts[1..], ws[1..])
  {
    hide Written;
    var rest := Layout(ts[1..], ws[1..]);
    assert Has(json, pos, ws[0] + Written(ts[0]) + rest);
    HasSplit(json, pos, ws[0] + Written(ts[0]), rest);
    HasSplit(json, pos, ws[0], Written(ts[0]));
  }

  lemma LaidEnd(json: string, pos: nat, ws: seq<string>)
    requires Laid(json, pos, [], ws)
    ensures Has(json, pos, ws[0]) && pos + |ws[0]| == |json|
  {
  }

  lemma LaidPeek(json: string, pos: nat, ts: seq<Token>, ws: seq<string>)
    requires Laid(json, pos, ts, ws)
    ensures ws[0] != "" ==> Peek(json, pos) == ws[0][0]
    ensures ws[0] == "" && ts != [] ==> Written(ts[0]) != "" ==> Peek(json, pos) == Written(ts[0])[0]
    ensures ws[0] == "" && ts == [] ==> Peek(json, pos) == NUL
  {
    hide Written;
    if ts == [] {
      LaidEnd(json, pos, ws);
    } else {
      LaidStep(json, pos, ts, ws);
      if ws[0] == "" && Written(ts[0]) != "" {
        HasAt(json, pos, Written(ts[0]), 0);
      }
    }
    if ws[0] != "" {
      HasAt(json, pos, ws[0], 0);
    }
  }

  /** A token ends where its text ends, but for a literal that goes on as white space. */
  lemma TokenEnds(json: string, pos: nat, ts: seq<Token>, ws: seq<string>)
    requires Laid(json, pos, ts, ws) && ts != [] && Sentence(ts) && White(ws[1])
    requires ts[0].Word? ==> !Sticks(ws[1])
    ensures At(json, pos + |ws[0]|, ts[0])
  {
    hide Layout;
    LaidStep(json, pos, ts, ws);
    var next := pos + |ws[0]| + |Written(ts[0])|;
    LaidPeek(json, next, ts[1..], ws[1..]);
    if |ts| > 1 && (ts[0].Number? || ts[0].Word?) {
      assert Delimiter(ts[1]) && ts[1..][0] == ts[1];
    }
  }

  lemma {:induction false} SkipOver(json: string, pos: nat, w: string)
    requires Has(json, pos, w) && Blank(w)
    ensures SkipWs(json, pos) == SkipWs(json, pos + |w|)
    decreases w
  {
    if w != "" {
      HasAt(json, pos, w, 0);
      assert w == [w[0]] + w[1..];
      HasSplit(json, pos, [w[0]], w[1..]);
      SkipOver(json, pos + 1, w[1..]);
    }
  }

  lemma SkipBlanks(json: string, st: State, w: string)
    requires Has(json, st.pos, w) && Blank(w)
    ensures Next(json, st) == Next(json, st.(pos := st.pos + |w|))
  {
    SkipOver(json, st.pos, w);
  }

  // ----- a call, white space included ---------------------------------------------------------------

  /** How many tokens a call takes: a colon is no event of its own. */
  function Used(ts: seq<Token>): (n: nat)
    ensures n <= |ts|
  {
    if ts == [] then 0 else if ts[0] == Mark(':') then 1 + Used(ts[1..]) else 1
  }

  /** The white space that the next call meets is skipped, and does not stick to its literal. */
  predicate Ready(ts: seq<Token>, ws: seq<string>)
    requires |ws| == |ts| + 1
  {
    && Blank(ws[0])
    && (ts != [] ==> if ts[0] == Mark(':') then Ready(ts[1..], ws[1..]) else ts[0].Word? ==> !Sticks(ws[1]))
  }

  /** A text, a state in it, and what is laid out from there on. */
  datatype Place = Place(json: string, st: State, ws: seq<string>) {
    predicate Ok(ts: seq<Token>) { Laid(json, st.pos, ts, ws) && AllWhite(ws) }

    function Char(): char { Next(json, st).0 }

    function Step(n: nat): Place
      requires n <= |ws|
    {
      Place(json, Next(json, st).1, ws[n..])
    }

    function Seen(): Event { EventOf(json, Next(json, st).0, Next(json, st).1) }
  }

  /** Two calls that agree and stand before the same tokens afterwards. */
  predicate Agree(a: Place, b: Place, ts: seq<Token>)
    requires a.Ok(ts) && b.Ok(ts)
  {
    var n := Used(ts);
    && a.Char() == b.Char() && Same(a.Step(n).st, b.Step(n).st)
    && (a.Char() != NUL ==> ts != [] && a.Seen() == b.Seen() && a.Step(n).Ok(ts[n..]) && b.Step(n).Ok(ts[n..]))
  }

  lemma {:induction false} CallsAgree(a: Place, b: Place, ts: seq<Token>)
    requires a.Ok(ts) && b.Ok(ts) && Same(a.st, b.st) && Sentence(ts) && Ready(ts, a.ws) && Ready(ts, b.ws)
    ensures Agree(a, b, ts)
    decreases ts
  {
    hide Next, EventOf, Layout, Written, At;
    if ts == [] {
      EndCall(a);
      EndCall(b);
    } else {
      LaidStep(a.json, a.st.pos, ts, a.ws);
      LaidStep(b.json, b.st.pos, ts, b.ws);
      SkipBlanks(a.json, a.st, a.ws[0]);
      SkipBlanks(b.json, b.st, b.ws[0]);
      if ts[0] == Mark(':') {
        ColonAgree(a, b, ts);
      } else {
        TokenEnds(a.json, a.st.pos, ts, a.ws);
        TokenEnds(b.json, b.st.pos, ts, b.ws);
        var x, y := a.st.(pos := a.st.pos + |a.ws[0]|), b.st.(pos := b.st.pos + |b.ws[0]|);
        TokenAlike(a.json, x, b.json, y, ts[0]);
      }
    }
  }

  lemma EndCall(a: Place)
    requires a.Ok([]) && Blank(a.ws[0])
    ensures var e := if a.st.vtype == NUL || a.st.stack != "" then SYNTAX else a.st.error;
            a.Char() == NUL && Same(a.Step(0).st, a.st.(error := e))
  {
    LaidEnd(a.json, a.st.pos, a.ws);
    SkipBlanks(a.json, a.st, a.ws[0]);
    NotSpace(a.json, |a.json|);
  }

  lemma {:induction false} ColonAgree(a: Place, b: Place, ts: seq<Token>)
    requires a.Ok(ts) && b.Ok(ts) && Same(a.st, b.st) && Sentence(ts) && Ready(ts, a.ws) && Ready(ts, b.ws)
    requires ts != [] && ts[0] == Mark(':')
    ensures Agree(a, b, ts)
    decreases ts, 0
  {
    hide Next, EventOf, Layout;
    ColonCall(a, ts);
    ColonCall(b, ts);
    if Top(a.st.stack) == '{' && a.st.vtype == 'N' {
      CallsAgree(BehindColon(a), BehindColon(b), ts[1..]);
    }
  }

  /** The place behind a colon, from where the call goes on. */
  function BehindColon(a: Place): Place
    requires a.ws != [] && a.st.stack != ""
  {
    Place(a.json, Modify(a.st.(pos := a.st.pos + |a.ws[0]| + 1), ':', NUL), a.ws[1..])
  }

  lemma ColonCall(a: Place, ts: seq<Token>)
    requires a.Ok(ts) && ts != [] && ts[0] == Mark(':') && Blank(a.ws[0])
    ensures if Top(a.st.stack) == '{' && a.st.vtype == 'N' then
              && a.st.stack != "" && BehindColon(a).Ok(ts[1..])
              && Next(a.json, a.st) == Next(a.json, BehindColon(a).st)
            else a.Char() == NUL && Same(a.Step(0).st, a.st.(error := SYNTAX))
  {
    LaidStep(a.json, a.st.pos, ts, a.ws);
    SkipBlanks(a.json, a.st, a.ws[0]);
    HasAt(a.json, a.st.pos + |a.ws[0]|, ":", 0);
    NotSpace(a.json, a.st.pos + |a.ws[0]|);
  }

  // ----- where the parser stops at white space --------------------------------------------------------

  /** A tabulator or carriage return is no token. */
  lemma OddChar(json: string, st: State)
    requires Peek(json, st.pos) == '\t' || Peek(json, st.pos) == '\r'
    ensures Next(json, st).0 == NUL
    ensures st.stack == "" && st.vtype != NUL && st.vtype != ',' ==> Next(json, st).1.error == SYNTAX
  {
    NotSpace(json, st.pos);
  }

  lemma OddSpace(a: Place, ts: seq<Token>)
    requires a.Ok(ts) && !Blank(a.ws[0])
    ensures a.Char() == NUL
    ensures a.st.stack == "" && a.st.vtype != NUL && a.st.vtype != ',' ==> a.Step(0).st.error == SYNTAX
  {
    hide Next, Layout, Written;
    var w := a.ws[0];
    if ts == [] {
      LaidEnd(a.json, a.st.pos, a.ws);
    } else {
      LaidStep(a.json, a.st.pos, ts, a.ws);
    }
    var k := FirstOdd(w);
    assert w == w[..k] + w[k..];
    HasSplit(a.json, a.st.pos, w[..k], w[k..]);
    HasAt(a.json, a.st.pos, w, k);
    SkipBlanks(a.json, a.st, w[..k]);
    OddChar(a.json, a.st.(pos := a.st.pos + k));
  }

  lemma {:induction false} FirstOdd(w: string) returns (k: nat)
    requires !Blank(w)
    ensures k < |w| && Blank(w[..k]) && w[k] != ' ' && w[k] != NEWLINE
    decreases w
  {
    if w[0] != ' ' && w[0] != NEWLINE {
      k := 0;
    } else {
      assert exists j :: 0 <= j < |w[1..]| && w[1..][j] != ' ' && w[1..][j] != NEWLINE by {
        var j :| 0 <= j < |w| && w[j] != ' ' && w[j] != NEWLINE;
        assert w[1..][j - 1] == w[j];
      }
      k := FirstOdd(w[1..]);
      assert w[..k + 1] == [w[0]] + w[1..][..k];
      k := k + 1;
    }
  }

  lemma {:induction false} ScanPast(json: string, pos: nat, t: string)
    requires Has(json, pos, t) && (forall k :: 0 <= k < |t| ==> LiteralChar(t[k]))
    requires LiteralChar(Peek(json, pos + |t|))
    ensures ScanLiteral(json, pos) > pos + |t|
    decreases t
  {
    if t != "" {
      HasAt(json, pos, t, 0);
      assert t == [t[0]] + t[1..];
      HasSplit(json, pos, [t[0]], t[1..]);
      ScanPast(json, pos + 1, t[1..]);
    }
  }

  /** A literal goes on to the next blank, comma, closing bracket or brace, or the end: it is
      accepted iff one of these follows it, whatever the parser has seen before. */
  lemma LiteralIff(json: string, st: State, t: char)
    requires GoodToken(Word(t)) && Has(json, st.pos, Literal(t)) && AtomFits(st)
    ensures Next(json, st).0 == t <==> !LiteralChar(Peek(json, st.pos + |Literal(t)|))
    ensures Next(json, st).0 != t ==> Next(json, st).0 == NUL && Next(json, st).1.error == SYNTAX
  {
    hide ScanLiteral, Literal;
    if LiteralChar(Peek(json, st.pos + |Literal(t)|)) {
      StickyWord(json, st, t);
    } else {
      WordNext(json, st, t);
    }
  }

  lemma StickyWord(json: string, st: State, t: char)
    requires GoodToken(Word(t)) && Has(json, st.pos, Literal(t)) && LiteralChar(Peek(json, st.pos + |Literal(t)|))
    ensures Next(json, st).0 == NUL
    ensures AtomFits(st) ==> Next(json, st).1.error == SYNTAX
  {
    hide ScanLiteral, Literal;
    var w := Literal(t);
    LiteralText(t);
    HasAt(json, st.pos, w, 0);
    NotSpace(json, st.pos);
    assert w == [w[0]] + w[1..];
    HasSplit(json, st.pos, [w[0]], w[1..]);
    ScanPast(json, st.pos + 1, w[1..]);
  }

  lemma {:induction false} StuckCall(a: Place, ts: seq<Token>)
    requires a.Ok(ts) && Sentence(ts) && !Ready(ts, a.ws)
    ensures a.Char() == NUL
    decreases ts
  {
    hide Next, Layout, Written, Blank;
    if !Blank(a.ws[0]) {
      OddSpace(a, ts);
    } else if ts[0] == Mark(':') {
      ColonCall(a, ts);
      if Top(a.st.stack) == '{' && a.st.vtype == 'N' {
        StuckCall(BehindColon(a), ts[1..]);
      }
    } else {
      LaidStep(a.json, a.st.pos, ts, a.ws);
      SkipBlanks(a.json, a.st, a.ws[0]);
      var behind := a.st.pos + |a.ws[0]| + |Written(ts[0])|;
      LaidPeek(a.json, behind, ts[1..], a.ws[1..]);
      assert LiteralChar(Peek(a.json, behind)) by { StickyChar(a.ws[1]); }
      WordWritten(ts[0]);
      StickyWord(a.json, a.st.(pos := a.st.pos + |a.ws[0]|), ts[0].t);
    }
  }

  lemma StickyChar(w: string)
    requires White(w) && Sticks(w)
    ensures LiteralChar(w[0])
  {
  }

  lemma WordWritten(tok: Token)
    requires tok.Word?
    ensures Written(tok) == Literal(tok.t)
  {
  }

  // ----- whole runs -----------------------------------------------------------------------------------

  lemma {:induction false} SkippedSplit(ts: seq<Token>, ws: seq<string>)
    requires |ws| == |ts| + 1
    ensures var n := Used(ts);
            Skipped(ts, ws) <==> Ready(ts, ws) && Skipped(ts[n..], ws[n..])
    decreases ts
  {
    hide Blank, Sticks;
    if ts != [] {
      SkippedFirst(ts, ws);
      if ts[0] == Mark(':') {
        SkippedSplit(ts[1..], ws[1..]);
        assert ts[1..][Used(ts[1..])..] == ts[Used(ts)..] && ws[1..][Used(ts[1..])..] == ws[Used(ts)..];
      }
    }
  }

  lemma SkippedFirst(ts: seq<Token>, ws: seq<string>)
    requires |ws| == |ts| + 1 && ts != []
    ensures Skipped(ts, ws) <==> Blank(ws[0]) && (ts[0].Word? ==> !Sticks(ws[1])) && Skipped(ts[1..], ws[1..])
  {
    hide Blank, Sticks;
    if Blank(ws[0]) && (ts[0].Word? ==> !Sticks(ws[1])) && Skipped(ts[1..], ws[1..]) {
      forall k | 0 <= k < |ws|
        ensures Blank(ws[k])
      {
        assert k > 0 ==> ws[k] == ws[1..][k - 1];
      }
      forall k | 0 <= k < |ts| && ts[k].Word?
        ensures !Sticks(ws[k + 1])
      {
        assert k > 0 ==> ts[k] == ts[1..][k - 1] && ws[k + 1] == ws[1..][k];
      }
    }
    if Skipped(ts, ws) {
      assert forall k :: 0 <= k < |ws[1..]| ==> ws[1..][k] == ws[k + 1];
      assert forall k :: 0 <= k < |ts[1..]| ==> ts[1..][k] == ts[k + 1];
    }
  }

  /** The calls give these events, and then the end without an error. */
  predicate Accepts(json: string, st: State, es: seq<Event>) {
    var (got, w) := Trace(json, st, |es|);
    var (c, last) := Next(json, w);
    got == es && c == NUL && last.error == OK && last.stack == ""
  }

  lemma AcceptsFirst(json: string, st: State, es: seq<Event>)
    requires es != []
    ensures var (c, u) := Next(json, st);
            Accepts(json, st, es) <==> EventOf(json, c, u) == es[0] && Accepts(json, u, es[1..])
  {
    hide Next, EventOf;
    var (c, u) := Next(json, st);
    TraceStep(json, st, |es|);
    assert es == [es[0]] + es[1..];
    var rest := Trace(json, u, |es| - 1).0;
    assert [EventOf(json, c, u)] + rest == es ==> rest == es[1..];
  }

  /** The calls give these events and come to the very end of the text, with nothing open. */
  predicate Finishes(json: string, st: State, es: seq<Event>) {
    var (got, w) := Trace(json, st, |es|);
    got == es && w.pos == |json| && w.stack == "" && w.error == OK && w.vtype != NUL && w.vtype != ','
  }

  lemma FinishesFirst(json: string, st: State, es: seq<Event>)
    requires es != [] && Finishes(json, st, es)
    ensures var (c, u) := Next(json, st);
            EventOf(json, c, u) == es[0] && Finishes(json, u, es[1..])
  {
    hide Next, EventOf;
    TraceStep(json, st, |es|);
    var (c, u) := Next(json, st);
    assert ([EventOf(json, c, u)] + Trace(json, u, |es| - 1).0)[1..] == es[1..];
  }

  predicate NoErrors(es: seq<Event>) { forall k :: 0 <= k < |es| ==> es[k].kind != NUL }

  /** When one text of these tokens gives the events to its very end, another one does so iff its
      white space is skipped, and with as much of the stack. */
  lemma {:induction false} RunsAgree(a: Place, b: Place, ts: seq<Token>, es: seq<Event>)
    requires a.Ok(ts) && b.Ok(ts) && Same(a.st, b.st) && Sentence(ts) && NoErrors(es)
    requires Skipped(ts, b.ws) && Finishes(b.json, b.st, es)
    ensures Accepts(a.json, a.st, es) <==> Skipped(ts, a.ws)
    ensures Skipped(ts, a.ws) ==> Peak(a.json, a.st, |es|) == Peak(b.json, b.st, |es|)
    decreases es
  {
    hide Next, CopyFrom, Trace, Layout, AllWhite, Sentence, Skipped, Accepts, Finishes, Ready, NoErrors;
    if es == [] {
      LastCall(a, b, ts);
    } else {
      SkippedSplit(ts, a.ws);
      SkippedSplit(ts, b.ws);
      AcceptsFirst(a.json, a.st, es);
      FinishesFirst(b.json, b.st, es);
      NoErrorsFirst(es);
      if Ready(ts, a.ws) {
        CallsAgree(a, b, ts);
        var n := Used(ts);
        SentenceRest(ts, n);
        RunsAgree(a.Step(n), b.Step(n), ts[n..], es[1..]);
      } else {
        StuckCall(a, ts);
      }
    }
  }

  lemma NoErrorsFirst(es: seq<Event>)
    requires es != [] && NoErrors(es)
    ensures es[0].kind != NUL && NoErrors(es[1..])
  {
  }

  lemma SentenceRest(ts: seq<Token>, n: nat)
    requires Sentence(ts) && n <= |ts|
    ensures Sentence(ts[n..])
  {
    hide GoodToken, Delimiter;
    var us := ts[n..];
    assert forall k :: 0 <= k < |us| ==> us[k] == ts[n + k];
  }

  /** Behind the last token there is white space only. */
  lemma LastCall(a: Place, b: Place, ts: seq<Token>)
    requires a.Ok(ts) && b.Ok(ts) && Same(a.st, b.st) && Sentence(ts) && Finishes(b.json, b.st, [])
    ensures Accepts(a.json, a.st, []) <==> Skipped(ts, a.ws)
    ensures Peak(a.json, a.st, 0) == Peak(b.json, b.st, 0)
  {
    hide Next, EventOf;
    assert Trace(a.json, a.st, 0) == ([], a.st) && Trace(b.json, b.st, 0) == ([], b.st);
    if ts != [] {
      LaidStep(b.json, b.st.pos, ts, b.ws);
      WrittenSomething(ts[0]);
      assert false;
    }
    if Blank(a.ws[0]) {
      EndCall(a);
    } else {
      OddSpace(a, ts);
    }
  }

  lemma WrittenSomething(tok: Token)
    requires GoodToken(tok)
    ensures Written(tok) != ""
  {
  }

  lemma {:induction false} EventKinds(v: Value)
    requires GoodValue(v)
    ensures NoErrors(Events(v))
    decreases v, 0
  {
    hide GoodPieces, GoodNumber, Decoded;
    match v {
      case Arr(items) => ListKinds(items);
      case Obj(members) => MemberKinds(members);
      case _ =>
    }
  }

  lemma {:induction false} ListKinds(vs: Values)
    requires GoodValues(vs)
    ensures NoErrors(EventsOf(vs))
    decreases vs, 1
  {
    hide Events, GoodValue;
    if vs.Values? {
      EventKinds(vs.head);
      ListKinds(vs.tail);
    }
  }

  lemma {:induction false} MemberKinds(ms: Members)
    requires GoodMembers(ms)
    ensures NoErrors(MemberEvents(ms))
    decreases ms, 1
  {
    hide Events, GoodValue, GoodPieces, Decoded;
    if ms.Members? {
      EventKinds(ms.value);
      MemberKinds(ms.rest);
    }
  }

  /**
    Every value in a text with any white space around its tokens: the calls give exactly its
    events and then the end without an error if and only if the white space is made of blanks and
    line breaks and no line break directly follows `true`, `false` or `null`.  The stack is then
    large enough if and only if the value is nested at most as deep as it allows.
   */
  lemma SpacedDocumentIff(v: Value, ws: seq<string>)
    requires GoodValue(v) && |ws| == |Tokens(v)| + 1 && AllWhite(ws)
    ensures var json := Layout(Tokens(v), ws);
            && (Accepts(json, START, Events(v)) <==> Skipped(Tokens(v), ws))
            && (Skipped(Tokens(v), ws) ==> (Fits(json, START, |Events(v)|) <==> Depth(v) <= JSONPARSE_MAX_DEPTH))
  {
    hide Next, Trace, Peak, Print, Events, Tokens, Layout, Depth;
    var ts, none := Tokens(v), None(|Tokens(v)| + 1);
    var json := Layout(ts, ws);
    TokensPrint(v);
    ValueSentence(v);
    EventKinds(v);
    ValueParses(Print(v), START, v);
    AfterKinds(v);
    assert Finishes(Print(v), START, Events(v));
    assert json[0..] == json && Print(v)[0..] == Print(v);
    RunsAgree(Place(json, START, ws), Place(Print(v), START, none), ts, Events(v));
  }
}
