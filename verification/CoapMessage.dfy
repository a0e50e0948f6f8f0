/**
  CoAP messages as values (apps/er-coap/er-coap.c, apps/er-coap/er-coap.h; sections 3 and
  3.1 of RFC 7252, section 2.2 of RFC 7959).

  `Wire` is the datagram of a message, `ParseMessage` what the parser makes of an arbitrary
  datagram, with the strings of repeated options joined as values.  `MessageArrives` and
  `MessageRoundTripIff` are the main results.  Module CoapCodec proves the in-place implementation against both.
 */
module CoapMessage {
  import opened Segments
  import opened CoapOptions

  const COAP_HEADER_LEN: nat := 4
  const COAP_TOKEN_LEN: nat := 8
  const COAP_ETAG_LEN: nat := 8
  const COAP_MAX_HEADER_SIZE: nat := 4 + COAP_TOKEN_LEN + 3 + 1 + COAP_ETAG_LEN + 4 + 4 + 30
  const REST_MAX_CHUNK_SIZE: nat := 64

  const IF_MATCH: nat := 1
  const URI_HOST: nat := 3
  const ETAG: nat := 4
  const IF_NONE_MATCH: nat := 5
  const OBSERVE: nat := 6
  const URI_PORT: nat := 7
  const LOCATION_PATH: nat := 8
  const URI_PATH: nat := 11
  const CONTENT_FORMAT: nat := 12
  const MAX_AGE: nat := 14
  const URI_QUERY: nat := 15
  const ACCEPT: nat := 17
  const LOCATION_QUERY: nat := 20
  const BLOCK2: nat := 23
  const BLOCK1: nat := 27
  const SIZE2: nat := 28
  const PROXY_URI: nat := 35
  const PROXY_SCHEME: nat := 39
  const SIZE1: nat := 60

  const SLASH: byte := 0x2F
  const AMPERSAND: byte := 0x26

  datatype Status = NO_ERROR | BAD_REQUEST_4_00 | BAD_OPTION_4_02 | PROXYING_NOT_SUPPORTED_5_05

  datatype Block = Block(num: uint32, more: byte, size: uint16, offset: uint32)

  /** coap_packet_t.  `options` are the bits of the option map, `observe` is kept as its 32 bits. */
  datatype Packet = Packet(
    version: byte, mtype: byte, code: byte, mid: uint16, token: seq<byte>, options: seq<bool>,
    ifMatch: seq<byte>, uriHost: seq<byte>, etag: seq<byte>, ifNoneMatch: bool, observe: uint32, uriPort: uint16,
    locationPath: seq<byte>, uriPath: seq<byte>, contentFormat: uint16, maxAge: uint32, uriQuery: seq<byte>,
    accept: uint16, locationQuery: seq<byte>, block2: Block, block1: Block, size2: uint32,
    proxyUri: seq<byte>, proxyScheme: seq<byte>, size1: uint32, payload: seq<byte>)

  const OPTION_BITS: nat := 64
  const NO_BLOCK: Block := Block(0, 0, 0, 0)

  function NoOptions(): (s: seq<bool>)
    ensures |s| == OPTION_BITS && forall i :: 0 <= i < |s| ==> !s[i]
  {
    seq(OPTION_BITS, _ => false)
  }

  /** memset, then the header fields and the token. */
  function Blank(version: byte, mtype: byte, code: byte, mid: uint16, token: seq<byte>): Packet {
    Packet(version, mtype, code, mid, token, NoOptions(),
           [], [], [], false, 0, 0, [], [], 0, 0, [], 0, [], NO_BLOCK, NO_BLOCK, 0, [], [], 0, [])
  }

  // ----- blocks ---------------------------------------------------------------------------

  /** coap_log_2. */
  function Log2(v: nat): (n: nat)
    ensures v < 0x1_0000 ==> n <= 15
  {
    if v < 2 then 0
    else if v < 4 then 1 else if v < 8 then 2 else if v < 16 then 3 else if v < 32 then 4
    else if v < 64 then 5 else if v < 128 then 6 else if v < 256 then 7 else if v < 512 then 8
    else if v < 1024 then 9 else if v < 2048 then 10 else if v < 4096 then 11 else if v < 8192 then 12
    else if v < 16384 then 13 else if v < 32768 then 14 else 15
  }

  function Pow2(n: nat): nat
    requires n <= 7
  {
    if n == 0 then 1 else if n == 1 then 2 else if n == 2 then 4 else if n == 3 then 8
    else if n == 4 then 16 else if n == 5 then 32 else if n == 6 then 64 else 128
  }

  /** The value of a block option: number, more bit, and the size exponent ORed into the low bits. */
  function BlockValue(b: Block): uint32 {
    var szx := Log2(b.size / 16) % 16;
    var low := if b.more != 0 && szx < 8 then szx + 8 else szx;
    ((b.num as int) * 16 + low) % U32
  }

  function ParseBlock(v: uint32): Block {
    var szx := v % 8;
    Block(v / 16, v % 16 / 8, 16 * Pow2(szx), (v / 16 * 16) * Pow2(szx) % U32)
  }

  predicate ValidBlock(b: Block) {
    && b.num < 0x1000_0000
    && (b.size == 16 || b.size == 32 || b.size == 64 || b.size == 128
        || b.size == 256 || b.size == 512 || b.size == 1024 || b.size == 2048)
  }

  /** A block as it arrives: `more` is one bit, and the offset follows from number and size. */
  function NormalBlock(b: Block): Block {
    Block(b.num, if b.more != 0 then 1 else 0, b.size, (b.num as int) * b.size % U32)
  }

  lemma Eighths(v: nat, q: nat, r: nat)
    requires v == 8 * q + r && r < 8
    ensures v / 8 == q && v % 8 == r
  {
  }

  lemma Sixteenths(v: nat, q: nat, r: nat)
    requires v == 16 * q + r && r < 16
    ensures v / 16 == q && v % 16 == r
  {
  }

  lemma LowestBit(v: nat, q: nat, r: nat)
    requires v == 2 * q + r && r < 2
    ensures v % 2 == r
  {
  }

  /** A number with four bits behind it: the highest of them, and the other three. */
  lemma LowBits(num: nat, low: nat)
    requires low < 16
    ensures var v := num * 16 + low; v / 16 == num && v % 16 == low && v % 8 == low % 8 && v / 8 % 2 == low / 8
  {
    var v, high, rest := num * 16 + low, low / 8, low % 8;
    Sixteenths(v, num, low);
    Eighths(v, 2 * num + high, rest);
    LowestBit(2 * num + high, num, high);
  }

  lemma BlockValueIs(b: Block, szx: nat)
    requires b.num < 0x1000_0000 && szx < 16 && Log2(b.size / 16) == szx
    ensures BlockValue(b) as int == b.num * 16 + if b.more != 0 && szx < 8 then szx + 8 else szx
  {
    hide Log2;
  }

  lemma SizeExponent(size: uint16)
    requires size == 16 || size == 32 || size == 64 || size == 128 || size == 256 || size == 512 || size == 1024
             || size == 2048
    ensures Log2(size / 16) <= 7 && 16 * Pow2(Log2(size / 16)) == size
  {
  }

  lemma Times(num: nat, p: nat, size: nat)
    requires 16 * p == size
    ensures num * 16 * p == num * size
  {
  }

  lemma BlockRoundTrip(b: Block)
    requires ValidBlock(b)
    ensures ParseBlock(BlockValue(b)) == NormalBlock(b)
  {
    hide Log2, Pow2, BlockValue;
    SizeExponent(b.size);
    var szx := Log2(b.size / 16);
    BlockValueIs(b, szx);
    LowBits(b.num, if b.more != 0 then szx + 8 else szx);
    Times(b.num, Pow2(szx), b.size);
  }

  // ----- serializing --------------------------------------------------------------------------

  /** One option on the wire. */
  datatype Opt = Opt(number: nat, value: seq<byte>)

  function Parts(number: nat, parts: seq<seq<byte>>): (r: seq<Opt>)
    ensures |r| == |parts| && forall i :: 0 <= i < |r| ==> r[i] == Opt(number, parts[i])
  {
    seq(|parts|, i requires 0 <= i < |parts| => Opt(number, parts[i]))
  }

  /** The options that a message has under a number. */
  function FieldOptions(m: Packet, n: nat): seq<Opt> {
    if n >= |m.options| || !m.options[n] then []
    else if n == IF_MATCH then [Opt(n, m.ifMatch)]
    else if n == URI_HOST then [Opt(n, m.uriHost)]
    else if n == ETAG then [Opt(n, m.etag)]
    else if n == IF_NONE_MATCH then [Opt(n, IntBytes(0))]
    else if n == OBSERVE then [Opt(n, IntBytes(m.observe))]
    else if n == URI_PORT then [Opt(n, IntBytes(m.uriPort))]
    else if n == LOCATION_PATH then Parts(n, Split(m.locationPath, SLASH))
    else if n == URI_PATH then Parts(n, Split(m.uriPath, SLASH))
    else if n == CONTENT_FORMAT then [Opt(n, IntBytes(m.contentFormat))]
    else if n == MAX_AGE then [Opt(n, IntBytes(m.maxAge))]
    else if n == URI_QUERY then Parts(n, Split(m.uriQuery, AMPERSAND))
    else if n == ACCEPT then [Opt(n, IntBytes(m.accept))]
    else if n == LOCATION_QUERY then Parts(n, Split(m.locationQuery, AMPERSAND))
    else if n == BLOCK2 then [Opt(n, IntBytes(BlockValue(m.block2)))]
    else if n == BLOCK1 then [Opt(n, IntBytes(BlockValue(m.block1)))]
    else if n == SIZE2 then [Opt(n, IntBytes(m.size2))]
    else if n == PROXY_URI then [Opt(n, m.proxyUri)]
    else if n == PROXY_SCHEME then [Opt(n, m.proxyScheme)]
    else if n == SIZE1 then [Opt(n, IntBytes(m.size1))]
    else []
  }

  /** All options with a number below `n`, in the order of their numbers. */
  function OptionsBelow(m: Packet, n: nat): seq<Opt> {
    if n == 0 then [] else OptionsBelow(m, n - 1) + FieldOptions(m, n - 1)
  }

  function Options(m: Packet): seq<Opt> { OptionsBelow(m, SIZE1 + 1) }

  predicate Ordered(prev: nat, opts: seq<Opt>)
    decreases opts
  {
    || opts == []
    || (prev <= opts[0].number <= SIZE1 && |opts[0].value| <= MAX_EXTENDED && Ordered(opts[0].number, opts[1..]))
  }

  function LastNumber(prev: nat, opts: seq<Opt>): nat {
    if opts == [] then prev else opts[|opts| - 1].number
  }

  function EncodeOne(prev: nat, o: Opt): (s: seq<byte>)
    requires prev <= o.number <= SIZE1 && |o.value| <= MAX_EXTENDED
    ensures |s| > |o.value|
  {
    Header(o.number - prev, |o.value|) + o.value
  }

  /** Option after option, each with the distance to the number before it. */
  function Encode(prev: nat, opts: seq<Opt>): seq<byte>
    requires Ordered(prev, opts)
    decreases opts
  {
    if opts == [] then []
    else EncodeOne(prev, opts[0]) + Encode(opts[0].number, opts[1..])
  }

  lemma LastConcat(prev: nat, a: seq<Opt>, b: seq<Opt>)
    ensures LastNumber(prev, a + b) == LastNumber(LastNumber(prev, a), b)
    ensures a != [] ==> LastNumber(prev, a) == LastNumber(a[0].number, a[1..])
  {
  }

  lemma {:induction false} OrderedConcat(prev: nat, a: seq<Opt>, b: seq<Opt>)
    requires Ordered(prev, a) && Ordered(LastNumber(prev, a), b)
    ensures Ordered(prev, a + b)
    decreases a
  {
    if a == [] {
      assert a + b == b;
    } else {
      assert (a + b)[1..] == a[1..] + b;
      LastConcat(prev, a, b);
      OrderedConcat(a[0].number, a[1..], b);
    }
  }

  lemma {:induction false} EncodeConcat(prev: nat, a: seq<Opt>, b: seq<Opt>)
    requires Ordered(prev, a) && Ordered(LastNumber(prev, a), b)
    ensures Ordered(prev, a + b) && Encode(prev, a + b) == Encode(prev, a) + Encode(LastNumber(prev, a), b)
    decreases a
  {
    hide EncodeOne, LastNumber;
    OrderedConcat(prev, a, b);
    LastConcat(prev, a, b);
    if a == [] {
      assert a + b == b;
      assert LastNumber(prev, a) == prev by { LastNone(prev); }
      assert [] + Encode(prev, b) == Encode(prev, b);
    } else {
      assert (a + b)[1..] == a[1..] + b;
      EncodeConcat(a[0].number, a[1..], b);
      var h := EncodeOne(prev, a[0]);
      assert h + (Encode(a[0].number, a[1..]) + Encode(LastNumber(prev, a), b))
          == h + Encode(a[0].number, a[1..]) + Encode(LastNumber(prev, a), b);
    }
  }

  lemma LastNone(prev: nat)
    ensures LastNumber(prev, []) == prev
  {
  }

  /** The lengths that the C types and the option format allow. */
  predicate WellFormed(m: Packet) {
    && m.mtype <= 3 && |m.token| <= COAP_TOKEN_LEN && |m.options| == OPTION_BITS
    && |m.ifMatch| <= COAP_ETAG_LEN && |m.etag| <= COAP_ETAG_LEN
    && |m.uriHost| <= MAX_EXTENDED && |m.locationPath| <= MAX_EXTENDED && |m.uriPath| <= MAX_EXTENDED
    && |m.uriQuery| <= MAX_EXTENDED && |m.locationQuery| <= MAX_EXTENDED
    && |m.proxyUri| <= MAX_EXTENDED && |m.proxyScheme| <= MAX_EXTENDED
  }

  lemma {:induction false} SameNumberOrdered(n: nat, opts: seq<Opt>)
    requires n <= SIZE1 && forall i :: 0 <= i < |opts| ==> opts[i].number == n && |opts[i].value| <= MAX_EXTENDED
    ensures Ordered(n, opts)
    decreases opts
  {
    if opts != [] {
      SameNumberOrdered(n, opts[1..]);
    }
  }

  lemma FieldOptionsShape(m: Packet, n: nat)
    requires WellFormed(m) && n <= SIZE1
    ensures forall i :: 0 <= i < |FieldOptions(m, n)| ==>
              FieldOptions(m, n)[i].number == n && |FieldOptions(m, n)[i].value| <= MAX_EXTENDED
  {
    hide Split, IntBytes, BlockValue;
    PartBound(m.locationPath, SLASH, 0, 0);
    PartBound(m.uriPath, SLASH, 0, 0);
    PartBound(m.uriQuery, AMPERSAND, 0, 0);
    PartBound(m.locationQuery, AMPERSAND, 0, 0);
    SplitParts(m.locationPath, SLASH);
    SplitParts(m.uriPath, SLASH);
    SplitParts(m.uriQuery, AMPERSAND);
    SplitParts(m.locationQuery, AMPERSAND);
  }

  lemma SplitParts(s: seq<byte>, sep: byte)
    ensures forall i :: 0 <= i < |Split(s, sep)| ==> |Split(s, sep)[i]| <= |s|
  {
    PartBound(s, sep, 0, 0);
    forall i | 0 <= i < |Split(s, sep)|
      ensures |Split(s, sep)[i]| <= |s|
    {
      assert Split(s, sep)[i] in SplitFrom(s, sep, 0, 0);
    }
  }

  lemma OrderedWeaken(a: nat, b: nat, opts: seq<Opt>)
    requires a <= b && Ordered(b, opts)
    ensures Ordered(a, opts)
  {
  }

  lemma {:induction false} OptionsOrdered(m: Packet, n: nat)
    requires WellFormed(m) && n <= SIZE1 + 1
    ensures Ordered(0, OptionsBelow(m, n))
    ensures LastNumber(0, OptionsBelow(m, n)) <= if n == 0 then 0 else n - 1
    decreases n
  {
    hide FieldOptions;
    if n > 0 {
      OptionsOrdered(m, n - 1);
      FieldOptionsShape(m, n - 1);
      SameNumberOrdered(n - 1, FieldOptions(m, n - 1));
      var last := LastNumber(0, OptionsBelow(m, n - 1));
      OrderedWeaken(last, n - 1, FieldOptions(m, n - 1));
      OrderedConcat(0, OptionsBelow(m, n - 1), FieldOptions(m, n - 1));
      LastConcat(0, OptionsBelow(m, n - 1), FieldOptions(m, n - 1));
    }
  }

  function FixedHeader(m: Packet): seq<byte>
    requires WellFormed(m)
  {
    [1 * 64 + m.mtype * 16 + |m.token|, m.code, m.mid / 256, m.mid % 256]
  }

  /** The message up to its payload. */
  function Head(m: Packet): seq<byte>
    requires WellFormed(m)
  {
    OptionsOrdered(m, SIZE1 + 1);
    FixedHeader(m) + m.token + Encode(0, Options(m))
  }

  /** The payload behind its marker. */
  function Tail(m: Packet): seq<byte> { if m.payload == [] then [] else [0xFF] + m.payload }

  /** coap_serialize_message: nothing when the head is too long; a message with code 0 is its
      fixed header alone. */
  function Wire(m: Packet): seq<byte>
    requires WellFormed(m)
  {
    if m.code == 0 then FixedHeader(m)
    else if |Head(m)| > COAP_MAX_HEADER_SIZE then []
    else Head(m) + Tail(m)
  }

  // ----- parsing ------------------------------------------------------------------------------

  function Truncate16(v: uint32): uint16 { v % 0x1_0000 }

  function AtMost(s: seq<byte>, n: nat): seq<byte> { if |s| <= n then s else s[..n] }

  /** The switch over the option number in coap_parse_message, on the value of the option. */
  function Apply(p: Packet, n: nat, v: seq<byte>): (Status, Packet) {
    if n == IF_MATCH then (NO_ERROR, p.(ifMatch := AtMost(v, COAP_ETAG_LEN)))
    else if n == URI_HOST then (NO_ERROR, p.(uriHost := v))
    else if n == ETAG then (NO_ERROR, p.(etag := AtMost(v, COAP_ETAG_LEN)))
    else if n == IF_NONE_MATCH then (NO_ERROR, p.(ifNoneMatch := true))
    else if n == OBSERVE then (NO_ERROR, p.(observe := ParseInt(v)))
    else if n == URI_PORT then (NO_ERROR, p.(uriPort := Truncate16(ParseInt(v))))
    else if n == LOCATION_PATH then (NO_ERROR, p.(locationPath := Merge(p.locationPath, v, SLASH)))
    else if n == URI_PATH then (NO_ERROR, p.(uriPath := Merge(p.uriPath, v, SLASH)))
    else if n == CONTENT_FORMAT then (NO_ERROR, p.(contentFormat := Truncate16(ParseInt(v))))
    else if n == MAX_AGE then (NO_ERROR, p.(maxAge := ParseInt(v)))
    else if n == URI_QUERY then (NO_ERROR, p.(uriQuery := Merge(p.uriQuery, v, AMPERSAND)))
    else if n == ACCEPT then (NO_ERROR, p.(accept := Truncate16(ParseInt(v))))
    else if n == LOCATION_QUERY then (NO_ERROR, p.(locationQuery := Merge(p.locationQuery, v, AMPERSAND)))
    else if n == BLOCK2 then (NO_ERROR, p.(block2 := ParseBlock(ParseInt(v))))
    else if n == BLOCK1 then (NO_ERROR, p.(block1 := ParseBlock(ParseInt(v))))
    else if n == SIZE2 then (NO_ERROR, p.(size2 := ParseInt(v)))
    else if n == PROXY_URI || n == PROXY_SCHEME then (PROXYING_NOT_SUPPORTED_5_05, p)
    else if n == SIZE1 then (NO_ERROR, p.(size1 := ParseInt(v)))
    else if n % 2 == 1 then (BAD_OPTION_4_02, p)
    else (NO_ERROR, p)
  }

  function SetOption(p: Packet, n: nat): Packet
    requires n < |p.options|
  {
    p.(options := p.options[n := true])
  }

  /** The parser reads up to this many bytes past the end of a datagram. */
  const SLACK: nat := 12

  /** The loop of coap_parse_message over a datagram of `n` bytes, from position `pos` on. */
  function ParseFrom(d: seq<byte>, n: nat, pos: nat, number: nat, p: Packet): (Status, Packet)
    requires |d| >= n + SLACK && |p.options| == OPTION_BITS
    decreases n - pos
  {
    if pos >= n then (NO_ERROR, p)
    else if d[pos] / 16 == 15 then (NO_ERROR, p.(payload := AtMost(d[pos + 1..n], REST_MAX_CHUNK_SIZE)))
    else
      var (delta, length, at) := ReadHeader(d, pos);
      if at + length > n then (BAD_REQUEST_4_00, p)
      else if number + delta > SIZE1 then (BAD_REQUEST_4_00, p)
      else
        var (status, q) := Apply(SetOption(p, number + delta), number + delta, d[at..at + length]);
        if status != NO_ERROR then (status, q) else ParseFrom(d, n, at + length, number + delta, q)
  }

  function ParseMessage(d: seq<byte>, n: nat): (Status, Packet)
    requires |d| >= n + SLACK
  {
    var tokenLength := d[0] % 16;
    var p := Blank(d[0] / 64, d[0] / 16 % 4, d[1], (d[2] as int) * 256 + d[3] as int, []);
    if p.version != 1 || tokenLength > COAP_TOKEN_LEN then (BAD_REQUEST_4_00, p)
    else
      var at := COAP_HEADER_LEN + tokenLength;
      ParseFrom(d, n, at, 0, p.(token := d[COAP_HEADER_LEN..at]))
  }

  // ----- the round trip ------------------------------------------------------------------------

  /** An option number that the parser does not refuse. */
  predicate Supported(n: nat) {
    && n <= SIZE1 && n != PROXY_URI && n != PROXY_SCHEME
    && (n % 2 == 1 ==> n == IF_MATCH || n == URI_HOST || n == IF_NONE_MATCH || n == URI_PORT || n == URI_PATH
                       || n == URI_QUERY || n == ACCEPT || n == BLOCK2 || n == BLOCK1)
  }

  predicate AllSupported(opts: seq<Opt>) {
    forall i :: 0 <= i < |opts| ==> Supported(opts[i].number)
  }

  function ApplyAll(p: Packet, opts: seq<Opt>): (r: Packet)
    requires |p.options| == OPTION_BITS && AllSupported(opts)
    ensures |r.options| == OPTION_BITS
    decreases opts
  {
    if opts == [] then p
    else ApplyAll(Apply(SetOption(p, opts[0].number), opts[0].number, opts[0].value).1, opts[1..])
  }

  /** The parser reads back a list of supported options and stops right behind it. */
  lemma {:induction false} ParseEncoded(d: seq<byte>, n: nat, pos: nat, prev: nat, opts: seq<Opt>, p: Packet)
    requires |d| >= n + SLACK && |p.options| == OPTION_BITS
    requires Ordered(prev, opts) && Has(d, pos, Encode(prev, opts)) && pos + |Encode(prev, opts)| <= n
    requires AllSupported(opts)
    ensures ParseFrom(d, n, pos, prev, p)
         == ParseFrom(d, n, pos + |Encode(prev, opts)|, LastNumber(prev, opts), ApplyAll(p, opts))
    decreases opts
  {
    hide Header, ReadHeader, Has, Supported, ParseFrom, Apply, EncodeOne, LastNumber;
    if opts == [] {
      LastNone(prev);
    } else {
      var o := opts[0];
      assert Supported(o.number);
      var rest := Encode(o.number, opts[1..]);
      HasSplit(d, pos, EncodeOne(prev, o), rest);
      LastConcat(prev, opts, []);
      ParseOne(d, n, pos, prev, o, p);
      ParseEncoded(d, n, pos + |EncodeOne(prev, o)|, o.number, opts[1..],
                   Apply(SetOption(p, o.number), o.number, o.value).1);
    }
  }

  /** The parser reads back one option. */
  lemma ParseOne(d: seq<byte>, n: nat, pos: nat, prev: nat, o: Opt, p: Packet)
    requires |d| >= n + SLACK && |p.options| == OPTION_BITS
    requires prev <= o.number <= SIZE1 && |o.value| <= MAX_EXTENDED && Supported(o.number)
    requires Has(d, pos, EncodeOne(prev, o)) && pos + |EncodeOne(prev, o)| <= n
    ensures var q := Apply(SetOption(p, o.number), o.number, o.value).1;
            && |q.options| == OPTION_BITS
            && ParseFrom(d, n, pos, prev, p) == ParseFrom(d, n, pos + |EncodeOne(prev, o)|, o.number, q)
  {
    hide Header, ReadHeader, Supported, ParseFrom, Apply;
    var h := Header(o.number - prev, |o.value|);
    HasSplit(d, pos, h, o.value);
    HeaderRoundTrip(d, pos, o.number - prev, |o.value|);
    SupportedApplies(SetOption(p, o.number), o.number, o.value);
    ParseStep(d, n, pos, prev, p, o.number, |h|, o.value);
  }

  /**
    The first option that the parser refuses ends it, with 5.05 for a Proxy option and 4.02 for
    an unknown critical one, whatever options came before it and whatever follows.
   */
  lemma FirstRefused(d: seq<byte>, n: nat, pos: nat, prev: nat, opts: seq<Opt>, o: Opt, p: Packet)
    requires |d| >= n + SLACK && |p.options| == OPTION_BITS
    requires Ordered(prev, opts + [o]) && Has(d, pos, Encode(prev, opts + [o])) && pos + |Encode(prev, opts + [o])| <= n
    requires AllSupported(opts) && !Supported(o.number)
    ensures ParseFrom(d, n, pos, prev, p).0
         == if o.number == PROXY_URI || o.number == PROXY_SCHEME then PROXYING_NOT_SUPPORTED_5_05 else BAD_OPTION_4_02
  {
    hide Header, ReadHeader, Supported, ParseFrom, Encode, LastNumber, EncodeOne;
    OrderedParts(prev, opts, o);
    EncodeConcat(prev, opts, [o]);
    HasSplit(d, pos, Encode(prev, opts), Encode(LastNumber(prev, opts), [o]));
    ParseEncoded(d, n, pos, prev, opts, p);
    RefusedOne(d, n, pos + |Encode(prev, opts)|, LastNumber(prev, opts), o, ApplyAll(p, opts));
  }

  lemma {:induction false} OrderedParts(prev: nat, opts: seq<Opt>, o: Opt)
    requires Ordered(prev, opts + [o])
    ensures Ordered(prev, opts) && LastNumber(prev, opts) <= o.number <= SIZE1 && Ordered(LastNumber(prev, opts), [o])
    decreases opts
  {
    if opts == [] {
      assert opts + [o] == [o];
    } else {
      assert (opts + [o])[1..] == opts[1..] + [o];
      OrderedParts(opts[0].number, opts[1..], o);
      LastConcat(prev, opts, []);
    }
  }

  lemma RefusedApplies(p: Packet, n: nat, v: seq<byte>)
    requires n <= SIZE1 && !Supported(n)
    ensures Apply(p, n, v).0
         == if n == PROXY_URI || n == PROXY_SCHEME then PROXYING_NOT_SUPPORTED_5_05 else BAD_OPTION_4_02
  {
  }

  /** The turn of the loop in which an option is refused. */
  lemma ParseStop(d: seq<byte>, n: nat, pos: nat, prev: nat, p: Packet, number: nat, at: nat, v: seq<byte>)
    requires |d| >= n + SLACK && |p.options| == OPTION_BITS
    requires pos < n && d[pos] / 16 < 15 && prev <= number <= SIZE1 && at + |v| <= n
    requires ReadHeader(d, pos) == (number - prev, |v|, at) && d[at..at + |v|] == v
    requires Apply(SetOption(p, number), number, v).0 != NO_ERROR
    ensures ParseFrom(d, n, pos, prev, p) == Apply(SetOption(p, number), number, v)
  {
    hide Apply, ReadHeader;
  }

  lemma RefusedOne(d: seq<byte>, n: nat, pos: nat, prev: nat, o: Opt, p: Packet)
    requires |d| >= n + SLACK && |p.options| == OPTION_BITS
    requires Ordered(prev, [o]) && Has(d, pos, Encode(prev, [o])) && pos + |Encode(prev, [o])| <= n
        && !Supported(o.number)
    ensures ParseFrom(d, n, pos, prev, p).0
         == if o.number == PROXY_URI || o.number == PROXY_SCHEME then PROXYING_NOT_SUPPORTED_5_05 else BAD_OPTION_4_02
  {
    hide Header, ReadHeader, ParseFrom, Apply, Supported, SetOption;
    var h := Header(o.number - prev, |o.value|);
    assert [o][1..] == [];
    assert Encode(prev, [o]) == h + o.value;
    HasSplit(d, pos, h, o.value);
    HeaderRoundTrip(d, pos, o.number - prev, |o.value|);
    RefusedApplies(SetOption(p, o.number), o.number, o.value);
    ParseStop(d, n, pos, prev, p, o.number, pos + |h|, o.value);
  }

  lemma SupportedApplies(p: Packet, n: nat, v: seq<byte>)
    requires Supported(n)
    ensures Apply(p, n, v).0 == NO_ERROR && Apply(p, n, v).1.options == p.options
  {
  }

  /** One turn of the loop of coap_parse_message. */
  lemma ParseStep(d: seq<byte>, n: nat, pos: nat, prev: nat, p: Packet, number: nat, h: nat, v: seq<byte>)
    requires |d| >= n + SLACK && |p.options| == OPTION_BITS
    requires pos < n && d[pos] / 16 < 15 && prev <= number <= SIZE1 && pos + h + |v| <= n
    requires ReadHeader(d, pos) == (number - prev, |v|, pos + h) && d[pos + h..pos + h + |v|] == v
    requires Apply(SetOption(p, number), number, v).0 == NO_ERROR
    ensures ParseFrom(d, n, pos, prev, p)
         == ParseFrom(d, n, pos + h + |v|, number, Apply(SetOption(p, number), number, v).1)
  {
    hide Apply, ReadHeader;
  }

  lemma {:induction false} ApplyAllConcat(p: Packet, a: seq<Opt>, b: seq<Opt>)
    requires |p.options| == OPTION_BITS && AllSupported(a) && AllSupported(b)
    ensures AllSupported(a + b) && ApplyAll(p, a + b) == ApplyAll(ApplyAll(p, a), b)
    decreases a
  {
    hide Apply;
    if a == [] {
      assert a + b == b;
    } else {
      assert (a + b)[1..] == a[1..] + b;
      assert Supported(a[0].number);
      SupportedApplies(SetOption(p, a[0].number), a[0].number, a[0].value);
      ApplyAllConcat(Apply(SetOption(p, a[0].number), a[0].number, a[0].value).1, a[1..], b);
    }
  }

  /** The options whose values are strings in parts. */
  predicate InParts(n: nat) { n == LOCATION_PATH || n == URI_PATH || n == URI_QUERY || n == LOCATION_QUERY }

  function Separator(n: nat): byte { if n == LOCATION_PATH || n == URI_PATH then SLASH else AMPERSAND }

  function StringOf(p: Packet, n: nat): seq<byte> {
    if n == LOCATION_PATH then p.locationPath else if n == URI_PATH then p.uriPath
    else if n == URI_QUERY then p.uriQuery else p.locationQuery
  }

  function WithString(p: Packet, n: nat, s: seq<byte>): Packet {
    if n == LOCATION_PATH then p.(locationPath := s) else if n == URI_PATH then p.(uriPath := s)
    else if n == URI_QUERY then p.(uriQuery := s) else p.(locationQuery := s)
  }

  lemma {:induction false} PartsApply(p: Packet, n: nat, parts: seq<seq<byte>>)
    requires |p.options| == OPTION_BITS && InParts(n)
    ensures AllSupported(Parts(n, parts))
    ensures ApplyAll(p, Parts(n, parts))
         == if parts == [] then p else WithString(SetOption(p, n), n, MergeAll(StringOf(p, n), parts, Separator(n)))
    decreases parts
  {
    hide Merge;
    if parts != [] {
      var v := parts[0];
      var q := Apply(SetOption(p, n), n, v).1;
      assert Parts(n, parts)[1..] == Parts(n, parts[1..]);
      assert q == WithString(SetOption(p, n), n, Merge(StringOf(p, n), v, Separator(n)));
      assert SetOption(q, n) == q by { assert q.options[n := true] == q.options; }
      PartsApply(q, n, parts[1..]);
      MergeAllStep(StringOf(p, n), parts, Separator(n));
    }
  }

  lemma MergeAllStep(dst: seq<byte>, parts: seq<seq<byte>>, sep: byte)
    requires parts != []
    ensures MergeAll(dst, parts, sep) == MergeAll(Merge(dst, parts[0], sep), parts[1..], sep)
    ensures MergeAll(dst, [], sep) == dst
  {
  }

  predicate Want(m: Packet, n: nat, limit: nat) {
    n < limit && n < |m.options| && m.options[n]
  }

  /** A string after being sent in parts. */
  function Rejoined(s: seq<byte>, sep: byte): seq<byte> { MergeAll([], Split(s, sep), sep) }

  /** The message as it arrives, as far as options below `limit` go: what was not sent is
      zero, the version is 1, blocks are normal, and strings have been split and joined. */
  function ArrivedBelow(m: Packet, limit: nat): Packet {
    Packet(1, m.mtype, m.code, m.mid, m.token,
           seq(OPTION_BITS, i requires 0 <= i => Want(m, i, limit)),
           if Want(m, IF_MATCH, limit) then m.ifMatch else [],
           if Want(m, URI_HOST, limit) then m.uriHost else [],
           if Want(m, ETAG, limit) then m.etag else [],
           Want(m, IF_NONE_MATCH, limit),
           if Want(m, OBSERVE, limit) then m.observe else 0,
           if Want(m, URI_PORT, limit) then m.uriPort else 0,
           if Want(m, LOCATION_PATH, limit) then Rejoined(m.locationPath, SLASH) else [],
           if Want(m, URI_PATH, limit) then Rejoined(m.uriPath, SLASH) else [],
           if Want(m, CONTENT_FORMAT, limit) then m.contentFormat else 0,
           if Want(m, MAX_AGE, limit) then m.maxAge else 0,
           if Want(m, URI_QUERY, limit) then Rejoined(m.uriQuery, AMPERSAND) else [],
           if Want(m, ACCEPT, limit) then m.accept else 0,
           if Want(m, LOCATION_QUERY, limit) then Rejoined(m.locationQuery, AMPERSAND) else [],
           if Want(m, BLOCK2, limit) then NormalBlock(m.block2) else NO_BLOCK,
           if Want(m, BLOCK1, limit) then NormalBlock(m.block1) else NO_BLOCK,
           if Want(m, SIZE2, limit) then m.size2 else 0,
           [], [],
           if Want(m, SIZE1, limit) then m.size1 else 0,
           [])
  }

  function Arrived(m: Packet): Packet { ArrivedBelow(m, OPTION_BITS).(payload := m.payload) }

  /** The message as it was sent, in the form in which messages arrive. */
  function Normal(m: Packet): Packet
    requires WellFormed(m)
  {
    Arrived(m).(locationPath := if m.options[LOCATION_PATH] then m.locationPath else [],
                uriPath := if m.options[URI_PATH] then m.uriPath else [],
                uriQuery := if m.options[URI_QUERY] then m.uriQuery else [],
                locationQuery := if m.options[LOCATION_QUERY] then m.locationQuery else [])
  }

  /** An option that the serializer writes and the parser accepts. */
  predicate Known(n: nat) {
    n == IF_MATCH || n == URI_HOST || n == ETAG || n == IF_NONE_MATCH || n == OBSERVE || n == URI_PORT
    || n == CONTENT_FORMAT || n == MAX_AGE || n == ACCEPT || n == BLOCK2 || n == BLOCK1 || n == SIZE2 || n == SIZE1
    || InParts(n)
  }

  predicate StringsSurvive(m: Packet)
    requires WellFormed(m)
  {
    && (m.options[LOCATION_PATH] ==> Survives(m.locationPath, SLASH))
    && (m.options[URI_PATH] ==> Survives(m.uriPath, SLASH))
    && (m.options[URI_QUERY] ==> Survives(m.uriQuery, AMPERSAND))
    && (m.options[LOCATION_QUERY] ==> Survives(m.locationQuery, AMPERSAND))
  }

  /** Messages within the limits of the serializer and without options that the parser refuses. */
  predicate Sendable(m: Packet) {
    && WellFormed(m) && m.code != 0
    && (forall n :: 0 <= n < OPTION_BITS && m.options[n] ==> Known(n))
    && (m.options[BLOCK2] ==> ValidBlock(m.block2)) && (m.options[BLOCK1] ==> ValidBlock(m.block1))
    && |Head(m)| <= COAP_MAX_HEADER_SIZE && |m.payload| <= REST_MAX_CHUNK_SIZE
  }

  lemma FlagStep(m: Packet, n: nat)
    requires |m.options| == OPTION_BITS && n < OPTION_BITS
    ensures ArrivedBelow(m, n + 1).options
         == if m.options[n] then ArrivedBelow(m, n).options[n := true] else ArrivedBelow(m, n).options
  {
  }

  lemma StringStep(m: Packet, n: nat)
    requires Sendable(m) && InParts(n) && m.options[n]
    ensures AllSupported(FieldOptions(m, n))
    ensures ApplyAll(ArrivedBelow(m, n), FieldOptions(m, n)) == ArrivedBelow(m, n + 1)
  {
    hide Split, MergeAll, Head, ApplyAll, Known, NormalBlock;
    var s, sep := StringOf(m, n), Separator(n);
    var parts := Split(s, sep);
    assert FieldOptions(m, n) == Parts(n, parts);
    SplitSome(s, sep);
    PartsApply(ArrivedBelow(m, n), n, parts);
    FlagStep(m, n);
  }

  lemma SplitSome(s: seq<byte>, sep: byte)
    ensures Split(s, sep) != []
  {
    SplitFromSome(s, sep, 0, 0);
  }

  lemma {:induction false} SplitFromSome(s: seq<byte>, sep: byte, start: nat, j: nat)
    requires start <= j <= |s|
    ensures SplitFrom(s, sep, start, j) != []
    decreases |s| - j
  {
    if j < |s| && s[j] != sep {
      SplitFromSome(s, sep, start, j + 1);
    }
  }

  /** An option with a single value, from the options before it to the options after it. */
  lemma OneApply(m: Packet, n: nat, v: seq<byte>)
    requires |m.options| == OPTION_BITS && n < OPTION_BITS && Supported(n)
    ensures |ArrivedBelow(m, n).options| == OPTION_BITS && AllSupported([Opt(n, v)])
    ensures ApplyAll(ArrivedBelow(m, n), [Opt(n, v)]) == Apply(SetOption(ArrivedBelow(m, n), n), n, v).1
  {
    FlagCount(m, n);
    SupportedApplies(SetOption(ArrivedBelow(m, n), n), n, v);
  }

  lemma BytesStep(m: Packet, n: nat)
    requires WellFormed(m) && n < OPTION_BITS && m.options[n]
    requires n == IF_MATCH || n == URI_HOST || n == ETAG || n == IF_NONE_MATCH
    ensures AllSupported(FieldOptions(m, n))
    ensures ApplyAll(ArrivedBelow(m, n), FieldOptions(m, n)) == ArrivedBelow(m, n + 1)
  {
    hide ApplyAll, NormalBlock, IntBytes, Split;
    OneApply(m, n, if n == IF_MATCH then m.ifMatch else if n == URI_HOST then m.uriHost
                   else if n == ETAG then m.etag else IntBytes(0));
    FlagStep(m, n);
  }

  /** The integer that a message has under a number, and a message with another one. */
  function IntOf(m: Packet, n: nat): uint32 {
    if n == OBSERVE then m.observe else if n == URI_PORT then m.uriPort
    else if n == CONTENT_FORMAT then m.contentFormat else if n == MAX_AGE then m.maxAge
    else if n == ACCEPT then m.accept else if n == SIZE2 then m.size2 else m.size1
  }

  predicate IsInt(n: nat) {
    n == OBSERVE || n == URI_PORT || n == CONTENT_FORMAT || n == MAX_AGE || n == ACCEPT || n == SIZE2 || n == SIZE1
  }

  lemma LowIntArrives(m: Packet, n: nat)
    requires n == OBSERVE || n == URI_PORT || n == CONTENT_FORMAT
    requires |m.options| == OPTION_BITS && m.options[n]
    ensures |ArrivedBelow(m, n).options| == OPTION_BITS
    ensures Apply(SetOption(ArrivedBelow(m, n), n), n, IntBytes(IntOf(m, n))).1 == ArrivedBelow(m, n + 1)
  {
    hide NormalBlock, IntBytes, ParseInt, Rejoined;
    IntRoundTrip(IntOf(m, n));
    FlagStep(m, n);
  }

  lemma MiddleIntArrives(m: Packet, n: nat)
    requires n == MAX_AGE || n == ACCEPT
    requires |m.options| == OPTION_BITS && m.options[n]
    ensures |ArrivedBelow(m, n).options| == OPTION_BITS
    ensures Apply(SetOption(ArrivedBelow(m, n), n), n, IntBytes(IntOf(m, n))).1 == ArrivedBelow(m, n + 1)
  {
    hide NormalBlock, IntBytes, ParseInt, Rejoined;
    IntRoundTrip(IntOf(m, n));
    FlagStep(m, n);
  }

  lemma HighIntArrives(m: Packet, n: nat)
    requires n == SIZE2 || n == SIZE1
    requires |m.options| == OPTION_BITS && m.options[n]
    ensures |ArrivedBelow(m, n).options| == OPTION_BITS
    ensures Apply(SetOption(ArrivedBelow(m, n), n), n, IntBytes(IntOf(m, n))).1 == ArrivedBelow(m, n + 1)
  {
    hide NormalBlock, IntBytes, ParseInt, Rejoined;
    IntRoundTrip(IntOf(m, n));
    FlagStep(m, n);
  }

  lemma IntArrives(m: Packet, n: nat)
    requires |m.options| == OPTION_BITS && IsInt(n) && m.options[n]
    ensures |ArrivedBelow(m, n).options| == OPTION_BITS
    ensures Apply(SetOption(ArrivedBelow(m, n), n), n, IntBytes(IntOf(m, n))).1 == ArrivedBelow(m, n + 1)
  {
    hide Apply, ArrivedBelow, IntBytes;
    if n <= CONTENT_FORMAT {
      LowIntArrives(m, n);
    } else if n <= ACCEPT {
      MiddleIntArrives(m, n);
    } else {
      HighIntArrives(m, n);
    }
  }

  lemma IntStep(m: Packet, n: nat)
    requires |m.options| == OPTION_BITS && IsInt(n) && m.options[n]
    ensures AllSupported(FieldOptions(m, n))
    ensures ApplyAll(ArrivedBelow(m, n), FieldOptions(m, n)) == ArrivedBelow(m, n + 1)
  {
    hide ApplyAll, Apply, ArrivedBelow, IntBytes, Split;
    OneApply(m, n, IntBytes(IntOf(m, n)));
    IntArrives(m, n);
  }

  lemma Block1Step(m: Packet)
    requires |m.options| == OPTION_BITS && m.options[BLOCK1] && ValidBlock(m.block1)
    ensures AllSupported(FieldOptions(m, BLOCK1))
    ensures ApplyAll(ArrivedBelow(m, BLOCK1), FieldOptions(m, BLOCK1)) == ArrivedBelow(m, BLOCK1 + 1)
  {
    hide ApplyAll, NormalBlock, BlockValue, ParseBlock, IntBytes, ParseInt, Split, ValidBlock;
    BlockRoundTrip(m.block1);
    IntRoundTrip(BlockValue(m.block1));
    OneApply(m, BLOCK1, IntBytes(BlockValue(m.block1)));
    FlagStep(m, BLOCK1);
  }

  lemma Block2Step(m: Packet)
    requires |m.options| == OPTION_BITS && m.options[BLOCK2] && ValidBlock(m.block2)
    ensures AllSupported(FieldOptions(m, BLOCK2))
    ensures ApplyAll(ArrivedBelow(m, BLOCK2), FieldOptions(m, BLOCK2)) == ArrivedBelow(m, BLOCK2 + 1)
  {
    hide ApplyAll, NormalBlock, BlockValue, ParseBlock, IntBytes, ParseInt, Split, ValidBlock;
    BlockRoundTrip(m.block2);
    IntRoundTrip(BlockValue(m.block2));
    OneApply(m, BLOCK2, IntBytes(BlockValue(m.block2)));
    FlagStep(m, BLOCK2);
  }

  lemma {:induction false} FieldsRoundTrip(m: Packet, n: nat)
    requires Sendable(m) && n <= SIZE1 + 1
    ensures AllSupported(OptionsBelow(m, n))
    ensures ApplyAll(ArrivedBelow(m, 0), OptionsBelow(m, n)) == ArrivedBelow(m, n)
    decreases n
  {
    hide Sendable, FieldOptions, ArrivedBelow, Apply, Known, InParts;
    if n > 0 {
      FieldsRoundTrip(m, n - 1);
      FieldStep(m, n - 1);
      assert |ArrivedBelow(m, 0).options| == OPTION_BITS by { FlagCount(m, 0); }
      ApplyAllConcat(ArrivedBelow(m, 0), OptionsBelow(m, n - 1), FieldOptions(m, n - 1));
    } else {
      assert |ArrivedBelow(m, 0).options| == OPTION_BITS by { FlagCount(m, 0); }
    }
  }

  lemma FlagCount(m: Packet, n: nat)
    ensures |ArrivedBelow(m, n).options| == OPTION_BITS && ArrivedBelow(m, n).payload == []
  {
  }

  lemma FieldStep(m: Packet, n: nat)
    requires Sendable(m) && n <= SIZE1
    ensures |ArrivedBelow(m, n).options| == OPTION_BITS && AllSupported(FieldOptions(m, n))
    ensures ApplyAll(ArrivedBelow(m, n), FieldOptions(m, n)) == ArrivedBelow(m, n + 1)
  {
    hide Head, ApplyAll, FieldOptions, ArrivedBelow, ValidBlock;
    FlagCount(m, n);
    if m.options[n] {
      if InParts(n) {
        StringStep(m, n);
      } else if n == BLOCK1 {
        Block1Step(m);
      } else if n == BLOCK2 {
        Block2Step(m);
      } else if n == IF_MATCH || n == URI_HOST || n == ETAG || n == IF_NONE_MATCH {
        BytesStep(m, n);
      } else {
        IntStep(m, n);
      }
    } else {
      UnsentStep(m, n);
      ApplyNone(ArrivedBelow(m, n));
    }
  }

  lemma UnsentStep(m: Packet, n: nat)
    requires |m.options| == OPTION_BITS && n < OPTION_BITS && !m.options[n]
    ensures FieldOptions(m, n) == [] && ArrivedBelow(m, n + 1) == ArrivedBelow(m, n)
  {
    FlagStep(m, n);
  }

  lemma ApplyNone(p: Packet)
    requires |p.options| == OPTION_BITS
    ensures ApplyAll(p, []) == p
  {
  }

  /**
    The round trip: parsing the datagram of a message gives no error and the message that
    was sent, unsent fields being zero, with its paths and queries as they survive splitting.
   */
  lemma MessageArrives(m: Packet, d: seq<byte>)
    requires Sendable(m)
    requires Has(d, 0, Wire(m)) && |d| >= |Wire(m)| + SLACK
    ensures ParseMessage(d, |Wire(m)|) == (NO_ERROR, Arrived(m))
  {
    hide ParseFrom, ParseMessage, ArrivedBelow, Arrived, Encode, Sendable, Options, Wire, Has, Tail, LastNumber, Blank,
      FixedHeader, WellFormed, AllSupported, ApplyAll, Ordered;
    SendableParts(m);
    WireParts(m, d);
    var n := |Wire(m)|;
    ParseHead(d, n, m);
    var at := COAP_HEADER_LEN + |m.token|;
    var code := Encode(0, Options(m));
    FieldsRoundTrip(m, SIZE1 + 1);
    AllOptions(m);
    NormalEnds(m);
    FlagCount(m, 0);
    FlagCount(m, SIZE1 + 1);
    ParseEncoded(d, n, at, 0, Options(m), ArrivedBelow(m, 0));
    ParseTail(d, n, at + |code|, LastNumber(0, Options(m)), ArrivedBelow(m, SIZE1 + 1), m.payload);
  }

  lemma SendableParts(m: Packet)
    requires Sendable(m)
    ensures WellFormed(m) && |m.payload| <= REST_MAX_CHUNK_SIZE
    ensures Tail(m) == if m.payload == [] then [] else [0xFF] + m.payload
  {
  }

  lemma AllOptions(m: Packet)
    ensures Options(m) == OptionsBelow(m, SIZE1 + 1)
  {
  }

  /** Header and token are read back. */
  lemma ParseHead(d: seq<byte>, n: nat, m: Packet)
    requires WellFormed(m) && |d| >= n + SLACK
    requires Has(d, 0, FixedHeader(m)) && Has(d, COAP_HEADER_LEN, m.token)
    ensures ParseMessage(d, n)
         == ParseFrom(d, n, COAP_HEADER_LEN + |m.token|, 0, Blank(1, m.mtype, m.code, m.mid, m.token))
  {
    hide ParseFrom, FixedHeader;
    HeaderFields(d, m);
  }

  lemma WireParts(m: Packet, d: seq<byte>)
    requires Sendable(m) && Has(d, 0, Wire(m))
    ensures Ordered(0, Options(m))
    ensures var code := Encode(0, Options(m));
            var at := COAP_HEADER_LEN + |m.token|;
            && Has(d, 0, FixedHeader(m)) && Has(d, COAP_HEADER_LEN, m.token)
            && Has(d, at, code) && Has(d, at + |code|, Tail(m)) && |Wire(m)| == at + |code| + |Tail(m)|
  {
    hide Encode, OptionsBelow, Known;
    OptionsOrdered(m, SIZE1 + 1);
    var code := Encode(0, Options(m));
    assert Wire(m) == FixedHeader(m) + m.token + code + Tail(m);
    HasSplit(d, 0, FixedHeader(m) + m.token + code, Tail(m));
    HasSplit(d, 0, FixedHeader(m) + m.token, code);
    HasSplit(d, 0, FixedHeader(m), m.token);
  }

  lemma HeaderFields(d: seq<byte>, m: Packet)
    requires WellFormed(m) && Has(d, 0, FixedHeader(m))
    ensures |d| >= 4 && d[0] / 64 == 1 && d[0] / 16 % 4 == m.mtype && d[0] % 16 == |m.token|
    ensures d[1] == m.code && (d[2] as int) * 256 + d[3] as int == m.mid
  {
    HasAt(d, 0, FixedHeader(m), 0);
    HasAt(d, 0, FixedHeader(m), 1);
    HasAt(d, 0, FixedHeader(m), 2);
    HasAt(d, 0, FixedHeader(m), 3);
  }

  lemma NormalEnds(m: Packet)
    requires Sendable(m)
    ensures ArrivedBelow(m, 0) == Blank(1, m.mtype, m.code, m.mid, m.token)
    ensures ArrivedBelow(m, SIZE1 + 1).(payload := m.payload) == Arrived(m)
  {
    hide Head;
    assert ArrivedBelow(m, 0).options == NoOptions();
    assert ArrivedBelow(m, SIZE1 + 1).options == ArrivedBelow(m, OPTION_BITS).options;
  }

  /** Behind the options: the end of the datagram, or the marker and the payload. */
  lemma ParseTail(d: seq<byte>, n: nat, pos: nat, number: nat, p: Packet, payload: seq<byte>)
    requires |d| >= n + SLACK && |p.options| == OPTION_BITS && p.payload == []
    requires |payload| <= REST_MAX_CHUNK_SIZE
    requires var tail := if payload == [] then [] else [0xFF] + payload;
             Has<byte>(d, pos, tail) && n == pos + |tail|
    ensures ParseFrom(d, n, pos, number, p) == (NO_ERROR, p.(payload := payload))
  {
    if payload != [] {
      HasAt(d, pos, [0xFF] + payload, 0);
      assert d[pos + 1..n] == d[pos..n][1..] == payload;
    }
  }

  /** A message arrives exactly as it was sent iff its paths and queries survive splitting. */
  lemma MessageRoundTripIff(m: Packet, d: seq<byte>)
    requires Sendable(m)
    requires Has(d, 0, Wire(m)) && |d| >= |Wire(m)| + SLACK
    ensures ParseMessage(d, |Wire(m)|) == (NO_ERROR, Normal(m)) <==> StringsSurvive(m)
  {
    hide Wire, ParseMessage, Has, Split, MergeAll, Survives, Head, Arrived, Normal;
    MessageArrives(m, d);
    SplitMergeIff(m.locationPath, SLASH);
    SplitMergeIff(m.uriPath, SLASH);
    SplitMergeIff(m.uriQuery, AMPERSAND);
    SplitMergeIff(m.locationQuery, AMPERSAND);
    ArrivedStrings(m);
  }

  lemma ArrivedStrings(m: Packet)
    requires WellFormed(m)
    ensures Arrived(m) == Normal(m) <==>
              && (m.options[LOCATION_PATH] ==> Rejoined(m.locationPath, SLASH) == m.locationPath)
              && (m.options[URI_PATH] ==> Rejoined(m.uriPath, SLASH) == m.uriPath)
              && (m.options[URI_QUERY] ==> Rejoined(m.uriQuery, AMPERSAND) == m.uriQuery)
              && (m.options[LOCATION_QUERY] ==> Rejoined(m.locationQuery, AMPERSAND) == m.locationQuery)
  {
    hide Rejoined, NormalBlock;
  }
}
