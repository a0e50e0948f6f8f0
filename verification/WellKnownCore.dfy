/**
  The resource listing in link format, produced chunk by chunk
  (apps/er-coap/er-coap-res-well-known-core.c; section 2 of RFC 6690), without query filter.

  The handler walks over the whole listing on every call and writes only the part that
  lies in the requested window.  `Handler.Get` is proved to write exactly that window.
 */
module WellKnownCore {
  import opened Segments
  import opened CoapOptions
  import opened CoapMessage

  const LESS: byte := 0x3C
  const GREATER: byte := 0x3E
  const COMMA: byte := 0x2C
  const SEMICOLON: byte := 0x3B

  /** A resource: url and attributes are C strings; missing attributes are empty. */
  datatype Resource = Resource(url: seq<byte>, attributes: seq<byte>)

  /** Attributes that begin with a semicolon are not listed. */
  predicate Described(r: Resource) {
    |r.attributes| > 0 && r.attributes[0] != SEMICOLON
  }

  function Entry(r: Resource): (s: seq<byte>)
    ensures |s| >= 3
  {
    [LESS, SLASH] + r.url + [GREATER] + if Described(r) then [SEMICOLON] + r.attributes else []
  }

  /** The first `k` entries, separated by commas. */
  function ListingTo(rs: seq<Resource>, k: nat): seq<byte>
    requires k <= |rs|
  {
    if k == 0 then []
    else ListingTo(rs, k - 1) + (if k > 1 then [COMMA] else []) + Entry(rs[k - 1])
  }

  function Listing(rs: seq<Resource>): seq<byte> { ListingTo(rs, |rs|) }

  function Min(a: nat, b: nat): nat { if a < b then a else b }

  /** The bytes of `s` from `offset` on, at most `size` of them. */
  function Window(s: seq<byte>, offset: nat, size: nat): (w: seq<byte>)
    ensures |w| <= size
  {
    if offset >= |s| then [] else s[offset..Min(offset + size, |s|)]
  }

  /** What has been written once the walk has passed the text `w`: its part in the window. */
  predicate At(bytes: seq<byte>, bufpos: nat, w: seq<byte>, offset: nat, size: nat) {
    bufpos <= size < |bytes| && bytes[..bufpos] == Window(w, offset, size)
  }

  /** The window is full, and text beyond it has been met. */
  predicate Full(bytes: seq<byte>, w: seq<byte>, offset: nat, size: nat) {
    size < |bytes| && |w| >= offset + size && bytes[..size] == w[offset..offset + size]
  }

  lemma WindowGrows(w: seq<byte>, v: seq<byte>, offset: nat, size: nat)
    ensures Window(w, offset, size) <= Window(w + v, offset, size)
    ensures |w| > offset ==> |Window(w, offset, size)| == Min(|w| - offset, size)
    ensures |w| <= offset ==> Window(w, offset, size) == []
    ensures |w + v| > offset ==> |Window(w + v, offset, size)| == Min(|w + v| - offset, size)
  {
    if offset < |w| {
      var n := Min(offset + size, |w|);
      assert (w + v)[offset..n] == w[offset..n];
    }
  }

  /** A character that lies in the window is its next one. */
  lemma WindowChar(w: seq<byte>, c: byte, offset: nat, size: nat)
    ensures Window(w + [c], offset, size)
         == if |w| >= offset && |Window(w, offset, size)| < size then Window(w, offset, size) + [c]
            else Window(w, offset, size)
  {
  }

  /** The part of a string that lies behind the window's start and fits into its rest. */
  lemma WindowString(w: seq<byte>, v: seq<byte>, offset: nat, size: nat)
    requires |w + v| > offset
    ensures var skip := if offset > |w| then offset - |w| else 0;
            var used := |Window(w, offset, size)|;
            && skip <= |v| && used <= size
            && Window(w + v, offset, size) == Window(w, offset, size) + v[skip..skip + Min(|v| - skip, size - used)]
            && (used < size ==> used + |v| - skip == |w + v| - offset)
            && (used + |v| - skip >= size <==> |w + v| >= offset + size)
            && (|v| > 0 ==> (used + |v| - skip > size <==> |w + v| > offset + size))
  {
    var skip := if offset > |w| then offset - |w| else 0;
    var used := |Window(w, offset, size)|;
    var n := Min(|v| - skip, size - used);
    WindowGrows(w, v, offset, size);
    if used < size {
      var end := Min(offset + size, |w + v|);
      assert (w + v)[offset..end] == (if offset < |w| then w[offset..] else []) + v[skip..skip + n];
      if offset < |w| {
        assert Window(w, offset, size) == w[offset..];
      }
    } else {
      assert v[skip..skip + n] == [];
    }
  }

  lemma WindowNothing(w: seq<byte>, v: seq<byte>, offset: nat, size: nat)
    requires |w + v| <= offset
    ensures Window(w + v, offset, size) == Window(w, offset, size) == []
  {
  }

  class Handler {
    const buffer: array<byte>
    var strpos: nat
    var bufpos: nat

    constructor (buffer: array<byte>)
      ensures this.buffer == buffer
    {
      this.buffer := buffer;
      strpos, bufpos := 0, 0;
    }

    /** The walk has passed the text `w`. */
    ghost predicate Passed(w: seq<byte>, offset: nat, size: nat)
      reads this, buffer
    {
      strpos == |w| && At(buffer[..], bufpos, w, offset, size)
    }

    /** ADD_CHAR_IF_POSSIBLE. */
    method AddChar(c: byte, size: nat, offset: nat, ghost w: seq<byte>)
      requires Passed(w, offset, size)
      modifies this, buffer
      ensures Passed(w + [c], offset, size)
      ensures bufpos <= old(bufpos) + 1
    {
      hide Window;
      WindowChar(w, c, offset, size);
      WindowGrows(w, [c], offset, size);
      if strpos >= offset && bufpos < size {
        buffer[bufpos] := c;
        bufpos := bufpos + 1;
      }
      strpos := strpos + 1;
    }

    /** snprintf with "%s": writes what fits in front of the terminator, returns the whole length. */
    method Snprintf(at: nat, n: nat, s: seq<byte>) returns (length: nat)
      requires at + n <= buffer.Length
      modifies buffer
      ensures length == |s|
      ensures n > 0 ==> buffer[..at + Min(|s|, n - 1)] == old(buffer[..at]) + s[..Min(|s|, n - 1)]
      ensures buffer[at + n..] == old(buffer[at + n..])
    {
      length := |s|;
      if n > 0 {
        var k := Min(|s|, n - 1);
        forall i | 0 <= i < k {
          buffer[at + i] := s[i];
        }
        buffer[at + k] := 0;
      }
    }

    /** ADD_STRING_IF_POSSIBLE; `inclusive` is its comparison, `broken` its break. */
    method AddString(s: seq<byte>, inclusive: bool, size: nat, offset: nat, ghost w: seq<byte>) returns (broken: bool)
      requires Passed(w, offset, size) && size > 0 && (inclusive || |s| > 0)
      modifies this, buffer
      ensures broken <==> |w + s| > offset && if inclusive then |w + s| >= offset + size else |w + s| > offset + size
      ensures !broken ==> Passed(w + s, offset, size)
      ensures broken ==> Full(buffer[..], w + s, offset, size) && bufpos >= size
    {
      hide Window, At, Full;
      var length := |s|;
      if strpos + length > offset {
        var skip := if offset > strpos then offset - strpos else 0;
        WindowUsed(buffer[..], bufpos, w, s, offset, size);
        ghost var before, used := buffer[..], bufpos;
        var n := Snprintf(bufpos, size - bufpos + 1, s[skip..]);
        StringWritten(before, buffer[..], used, w, s, offset, size);
        bufpos := bufpos + n;
        if (inclusive && bufpos >= size) || (!inclusive && bufpos > size) {
          return true;
        }
      } else {
        StringPassed(buffer[..], bufpos, w, s, offset, size);
      }
      strpos := strpos + length;
      broken := false;
    }

    /** What the loop writes for one resource. */
    method AddResource(r: Resource, size: nat, offset: nat, ghost w: seq<byte>) returns (broken: bool)
      requires Passed(w, offset, size) && size > 0
      modifies this, buffer
      ensures var v := w + (if w != [] then [COMMA] else []) + Entry(r);
              && (!broken ==> Passed(v, offset, size))
              && (broken <==> |v| > offset + size)
              && (broken ==> Full(buffer[..], v, offset, size) && bufpos >= size)
    {
      hide At, Full;
      if strpos > 0 {
        AddChar(COMMA, size, offset, w);
      }
      ghost var w1 := w + if w != [] then [COMMA] else [];
      assert w == [] ==> w1 == w;
      AddChar(LESS, size, offset, w1);
      AddChar(SLASH, size, offset, w1 + [LESS]);
      ghost var w2 := w1 + [LESS] + [SLASH];
      broken := AddString(r.url, true, size, offset, w2);
      EntryParts(w1, r);
      if broken {
        FullGrows(buffer[..], w2 + r.url, [GREATER] + Rest(r), offset, size);
        return;
      }
      AddChar(GREATER, size, offset, w2 + r.url);
      if |r.attributes| > 0 && r.attributes[0] != SEMICOLON {
        ghost var w3 := w2 + r.url + [GREATER];
        AddChar(SEMICOLON, size, offset, w3);
        broken := AddString(r.attributes, false, size, offset, w3 + [SEMICOLON]);
      }
    }

    /**
      well_known_core_get_handler: the payload that it sets, whether it is the listing, and
      the new value of *offset.  The engine passes a size of at most a chunk.
     */
    method Get(rs: seq<Resource>, size: nat, offset: nat) returns (outcome: Outcome, payload: seq<byte>, next: int)
      requires 0 < size <= REST_MAX_CHUNK_SIZE && buffer.Length == REST_MAX_CHUNK_SIZE + 1
      requires strpos == 0 && bufpos == 0
      modifies this, buffer
      ensures next == if offset + size >= |Listing(rs)| then -1 else offset + size
      ensures outcome == if offset < |Listing(rs)| then Content else if rs != [] then OutOfScope else Unset
      ensures outcome == Content ==> AtMost(payload, size) == Window(Listing(rs), offset, size)
      ensures outcome == Content && next == -1 ==> |payload| <= size
    {
      hide At, Full, Entry, Window;
      var k, broken := 0, false;
      NothingPassed(buffer[..], offset, size);
      while k < |rs|
        invariant k <= |rs| && Passed(ListingTo(rs, k), offset, size)
        invariant (k > 0 <==> ListingTo(rs, k) != []) && |ListingTo(rs, k)| <= offset + size
      {
        broken := AddResource(rs[k], size, offset, ListingTo(rs, k));
        if broken {
          ListingGrows(rs, k + 1);
          FullPrefix(buffer[..], ListingTo(rs, k + 1), Listing(rs), offset, size);
          break;
        }
        k := k + 1;
        if bufpos > size && strpos - bufpos > offset {
          broken := true;
          break;
        }
      }
      if !broken {
        PassedAll(buffer[..], bufpos, Listing(rs), offset, size);
      }
      payload := buffer[..Min(REST_MAX_CHUNK_SIZE, bufpos)];
      outcome := if bufpos > 0 then Content else if strpos > 0 then OutOfScope else Unset;
      next := if broken then offset + size else -1;
      CutPayload(buffer[..], bufpos, size);
      assert payload == buffer[..][..Min(REST_MAX_CHUNK_SIZE, bufpos)];
    }
  }

  datatype Outcome = Content | OutOfScope | Unset

  /** The end of an entry behind the closing bracket. */
  function Rest(r: Resource): seq<byte> {
    if Described(r) then [SEMICOLON] + r.attributes else []
  }

  lemma EntryParts(w: seq<byte>, r: Resource)
    ensures w + Entry(r) == w + [LESS] + [SLASH] + r.url + ([GREATER] + Rest(r))
    ensures !Described(r) ==> w + Entry(r) == w + [LESS] + [SLASH] + r.url + [GREATER]
    ensures Described(r) ==> w + Entry(r) == w + [LESS] + [SLASH] + r.url + [GREATER] + [SEMICOLON] + r.attributes
  {
  }

  lemma NothingPassed(bytes: seq<byte>, offset: nat, size: nat)
    requires size < |bytes|
    ensures At(bytes, 0, [], offset, size)
  {
  }

  lemma PassedAll(bytes: seq<byte>, bufpos: nat, w: seq<byte>, offset: nat, size: nat)
    requires At(bytes, bufpos, w, offset, size) && size > 0
    ensures |bytes| > size && bufpos <= size && bytes[..bufpos] == Window(w, offset, size)
    ensures bufpos > 0 <==> offset < |w|
    ensures bufpos == size && size > 0 ==> |w| >= offset + size
  {
  }

  lemma {:induction false} ListingGrows(rs: seq<Resource>, k: nat)
    requires k <= |rs|
    ensures ListingTo(rs, k) <= Listing(rs)
    decreases |rs| - k
  {
    hide Entry;
    if k < |rs| {
      ListingGrows(rs, k + 1);
    }
  }

  lemma FullGrows(bytes: seq<byte>, w: seq<byte>, v: seq<byte>, offset: nat, size: nat)
    requires Full(bytes, w, offset, size) && |v| > 0
    ensures Full(bytes, w + v, offset, size) && |w + v| > offset + size
  {
    assert (w + v)[offset..offset + size] == w[offset..offset + size];
  }

  lemma FullPrefix(bytes: seq<byte>, w: seq<byte>, v: seq<byte>, offset: nat, size: nat)
    requires Full(bytes, w, offset, size) && w <= v && |w| > offset + size
    ensures |v| > offset + size && size < |bytes| && bytes[..size] == Window(v, offset, size)
  {
    assert v[offset..offset + size] == w[offset..offset + size];
  }

  lemma CutPayload(bytes: seq<byte>, bufpos: nat, size: nat)
    requires |bytes| == REST_MAX_CHUNK_SIZE + 1 && size <= REST_MAX_CHUNK_SIZE
    ensures bufpos >= size ==> AtMost(bytes[..Min(REST_MAX_CHUNK_SIZE, bufpos)], size) == bytes[..size]
    ensures bufpos <= size ==> AtMost(bytes[..Min(REST_MAX_CHUNK_SIZE, bufpos)], size) == bytes[..bufpos]
  {
  }

  lemma WindowUsed(bytes: seq<byte>, bufpos: nat, w: seq<byte>, s: seq<byte>, offset: nat, size: nat)
    requires At(bytes, bufpos, w, offset, size) && |w + s| > offset
    ensures bufpos <= size < |bytes| && (offset > |w| ==> offset - |w| <= |s|)
  {
  }

  lemma StringPassed(bytes: seq<byte>, bufpos: nat, w: seq<byte>, s: seq<byte>, offset: nat, size: nat)
    requires At(bytes, bufpos, w, offset, size) && |w + s| <= offset
    ensures At(bytes, bufpos, w + s, offset, size)
  {
    WindowNothing(w, s, offset, size);
  }

  /** A string has been printed behind the text `w`. */
  lemma StringWritten(before: seq<byte>, after: seq<byte>, used: nat, w: seq<byte>, s: seq<byte>, offset: nat,
                      size: nat)
    requires At(before, used, w, offset, size) && |w + s| > offset && |after| == |before|
    requires var skip := if offset > |w| then offset - |w| else 0;
             skip <= |s| && var n := Min(|s| - skip, size - used);
             used + n <= |after| && after[..used + n] == before[..used] + s[skip..][..n]
    ensures var skip := if offset > |w| then offset - |w| else 0;
            && (used + |s| - skip >= size <==> |w + s| >= offset + size)
            && (|s| > 0 ==> (used + |s| - skip > size <==> |w + s| > offset + size))
            && (used + |s| - skip <= size ==> At(after, used + |s| - skip, w + s, offset, size))
            && (|w + s| >= offset + size ==> Full(after, w + s, offset, size))
  {
    hide Window;
    WindowString(w, s, offset, size);
    WindowOf(w + s, offset, size);
    var skip := if offset > |w| then offset - |w| else 0;
    var n := Min(|s| - skip, size - used);
    assert s[skip..][..n] == s[skip..skip + n];
    assert after[..used + n] == Window(w + s, offset, size);
  }

  lemma WindowOf(w: seq<byte>, offset: nat, size: nat)
    ensures |w| >= offset + size ==> Window(w, offset, size) == w[offset..offset + size]
  {
  }

  // ----- reading a listing -------------------------------------------------------------------

  /** Where a reader of link format is: between parts, in a target, or in a quoted string. */
  datatype Place = Between | InTarget | InQuotes

  function Next(p: Place, c: byte): Place {
    match p
    case Between => if c == '<' as int then InTarget else if c == '"' as int then InQuotes else Between
    case InTarget => if c == '>' as int then Between else InTarget
    case InQuotes => if c == '"' as int then Between else InQuotes
  }

  function PlaceAfter(p: Place, s: seq<byte>): Place
    decreases s
  {
    if s == [] then p else PlaceAfter(Next(p, s[0]), s[1..])
  }

  /** Section 2 of RFC 6690: links are separated by commas outside of targets and quoted strings.
      `link` is the part of the current link that has been read. */
  function Links(s: seq<byte>, p: Place, link: seq<byte>): seq<seq<byte>>
    decreases s
  {
    if s == [] then [link]
    else if p == Between && s[0] == ',' as int then [link] + Links(s[1..], Between, [])
    else Links(s[1..], Next(p, s[0]), link + [s[0]])
  }

  /** No comma of the text separates links. */
  predicate Whole(s: seq<byte>, p: Place)
    decreases s
  {
    s == [] || (!(p == Between && s[0] == ',' as int) && Whole(s[1..], Next(p, s[0])))
  }

  /** Attributes whose quotes are closed and whose commas stand between quotes, and a url that does not
      close its brackets itself. */
  predicate LinkFormat(r: Resource) {
    '>' as int !in r.url && Whole(r.attributes, Between) && PlaceAfter(Between, r.attributes) == Between
  }

  /** A link of RFC 6690. */
  function Link(r: Resource): seq<byte> {
    ['<' as int, '/' as int] + r.url + ['>' as int]
    + if |r.attributes| > 0 && r.attributes[0] != ';' as int then [';' as int] + r.attributes else []
  }

  lemma {:induction false} PlaceConcat(p: Place, a: seq<byte>, b: seq<byte>)
    ensures PlaceAfter(p, a + b) == PlaceAfter(PlaceAfter(p, a), b)
    ensures Whole(a + b, p) <==> Whole(a, p) && Whole(b, PlaceAfter(p, a))
    decreases a
  {
    if a == [] {
      assert a + b == b;
    } else {
      assert (a + b)[1..] == a[1..] + b;
      PlaceConcat(Next(p, a[0]), a[1..], b);
    }
  }

  lemma {:induction false} TargetWhole(s: seq<byte>)
    requires '>' as int !in s
    ensures Whole(s, InTarget) && PlaceAfter(InTarget, s) == InTarget
    decreases s
  {
    if s != [] {
      assert s[0] in s;
      assert '>' as int !in s[1..];
      TargetWhole(s[1..]);
    }
  }

  lemma {:induction false} LinkWhole(r: Resource)
    requires LinkFormat(r)
    ensures Whole(Link(r), Between) && PlaceAfter(Between, Link(r)) == Between
  {
    var open, close: seq<byte> := ['<' as int, '/' as int], ['>' as int];
    var rest := Link(r)[3 + |r.url|..];
    TargetWhole(r.url);
    assert Whole(open, Between) && PlaceAfter(Between, open) == InTarget by {
      assert open[1..] == ['/' as int] && open[1..][1..] == [];
      assert PlaceAfter(InTarget, open[1..]) == InTarget && Whole(open[1..], InTarget);
    }
    assert Whole(close, InTarget) && PlaceAfter(InTarget, close) == Between by {
      assert close[1..] == [];
    }
    if rest != [] {
      assert rest[1..] == r.attributes;
    }
    PlaceConcat(Between, open, r.url);
    PlaceConcat(Between, open + r.url, close);
    PlaceConcat(Between, open + r.url + close, rest);
    assert Link(r) == open + r.url + close + rest;
  }

  lemma {:induction false} WholeLink(s: seq<byte>, p: Place, link: seq<byte>)
    requires Whole(s, p)
    ensures Links(s, p, link) == [link + s]
    decreases s
  {
    if s == [] {
      assert link + s == link;
    } else {
      WholeLink(s[1..], Next(p, s[0]), link + [s[0]]);
      assert link + [s[0]] + s[1..] == link + s;
    }
  }

  lemma {:induction false} LinksConcat(a: seq<byte>, b: seq<byte>, p: Place, link: seq<byte>)
    requires PlaceAfter(p, a) == Between
    ensures Links(a + [',' as int] + b, p, link) == Links(a, p, link) + Links(b, Between, [])
    decreases a
  {
    var s := a + [',' as int] + b;
    if a == [] {
      assert s[1..] == b;
    } else {
      assert s[1..] == a[1..] + [',' as int] + b;
      if p == Between && a[0] == ',' as int {
        LinksConcat(a[1..], b, Between, []);
      } else {
        LinksConcat(a[1..], b, Next(p, a[0]), link + [a[0]]);
      }
    }
  }

  /** The listing of resources in link format reads as exactly their links, in order. */
  lemma {:induction false} ListingReads(rs: seq<Resource>, k: nat)
    requires 0 < k <= |rs| && forall r <- rs :: LinkFormat(r)
    ensures Links(ListingTo(rs, k), Between, []) == seq(k, i requires 0 <= i < k => Link(rs[i]))
    ensures PlaceAfter(Between, ListingTo(rs, k)) == Between
    decreases k
  {
    hide LinkFormat, Link, Links, PlaceAfter, Whole, Entry;
    var r := rs[k - 1];
    LinkWhole(r);
    WholeLink(Link(r), Between, []);
    assert [] + Link(r) == Link(r);
    EntryIsLink(r);
    if k == 1 {
      assert ListingTo(rs, 1) == ListingTo(rs, 0) + [] + Entry(r) == Link(r);
    } else {
      var before := ListingTo(rs, k - 1);
      ListingReads(rs, k - 1);
      assert ListingTo(rs, k) == before + [',' as int] + Link(r);
      LinksConcat(before, Link(r), Between, []);
      PlaceConcat(Between, before, [',' as int] + Link(r));
      PlaceConcat(Between, [',' as int], Link(r));
      CommaBetween();
      assert before + [',' as int] + Link(r) == before + ([',' as int] + Link(r));
    }
  }

  lemma EntryIsLink(r: Resource)
    ensures Entry(r) == Link(r)
  {
  }

  lemma CommaBetween()
    ensures PlaceAfter(Between, [',' as int]) == Between
  {
    var s: seq<byte> := [',' as int];
    assert s[1..] == [];
  }
}
