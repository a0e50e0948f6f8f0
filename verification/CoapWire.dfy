/**
  The datagram format itself, with the numbers of sections 3, 5.10 and 12.2 of RFC 7252 and of
  section 2.2 of RFC 7959 written out, as a yardstick for both directions of module CoapMessage.

  `Reading` is what the format says about the bytes of a datagram behind its token.
  `WireReads` shows that it finds in the datagram of a message the options of the message;
  `ParsedMessage` that the parser does with an arbitrary datagram what its reading asks for.
 */
module CoapWire {
  import opened Segments
  import opened CoapOptions
  import opened CoapMessage

  // ----- reading a datagram -----------------------------------------------------------------

  /** How many bytes extend a delta or a length. */
  function ExtraBytes(nibble: nat): nat { if nibble == 13 then 1 else if nibble == 14 then 2 else 0 }

  /** A delta or a length with its extension. */
  function Field(d: seq<byte>, nibble: nat, at: nat): nat
    requires at + 2 <= |d|
  {
    if nibble == 13 then d[at] as nat + 13
    else if nibble == 14 then (d[at] as nat) * 256 + d[at + 1] as nat + 269
    else nibble
  }

  /** How the options of a datagram end: with the datagram, before a payload, or with an option that is
      longer than the rest of the datagram or has a number above 60. */
  datatype Ending = AtEnd | Payload(at: nat) | Malformed

  datatype Reading = Reading(opts: seq<Opt>, ending: Ending)

  /** The options in the `n` bytes of a datagram from `pos` on, `number` being that of the option before. */
  function Read(d: seq<byte>, n: nat, pos: nat, number: nat): Reading
    requires |d| >= n + SLACK
    decreases n - pos
  {
    if pos >= n then Reading([], AtEnd)
    else if d[pos] >= 0xF0 then Reading([], Payload(pos + 1))
    else
      var extension := pos + 1 + ExtraBytes(d[pos] / 16);
      var value := extension + ExtraBytes(d[pos] % 16);
      var next := number + Field(d, d[pos] / 16, pos + 1);
      var length := Field(d, d[pos] % 16, extension);
      if value + length > n || next > 60 then Reading([], Malformed)
      else
        var rest := Read(d, n, value + length, next);
        Reading([Opt(next, d[value..value + length])] + rest.opts, rest.ending)
  }

  // ----- what is written is read -------------------------------------------------------------

  lemma FieldWritten(d: seq<byte>, value: nat, at: nat)
    requires value <= MAX_EXTENDED && at + 2 <= |d| && Has(d, at, Extension(value))
    ensures Field(d, Nibble(value), at) == value && ExtraBytes(Nibble(value)) == |Extension(value)|
    ensures Nibble(value) <= 14
  {
    var e := Extension(value);
    if |e| > 0 {
      HasAt(d, at, e, 0);
    }
    if |e| > 1 {
      HasAt(d, at, e, 1);
    }
  }

  /** The header that coap_set_option_header writes says delta and length, as the format has it. */
  lemma HeaderWritten(d: seq<byte>, pos: nat, delta: nat, length: nat)
    requires delta <= MAX_EXTENDED && length <= MAX_EXTENDED
    requires pos + 5 <= |d| && Has(d, pos, Header(delta, length))
    ensures d[pos] < 0xF0
    ensures var extension := pos + 1 + ExtraBytes(d[pos] / 16);
            && Field(d, d[pos] / 16, pos + 1) == delta && Field(d, d[pos] % 16, extension) == length
            && extension + ExtraBytes(d[pos] % 16) == pos + |Header(delta, length)|
  {
    hide Extension, Field, Nibble, ExtraBytes;
    var first: seq<byte> := [Nibble(delta) * 16 + Nibble(length)];
    HasSplit(d, pos, first + Extension(delta), Extension(length));
    HasSplit(d, pos, first, Extension(delta));
    HasAt(d, pos, first, 0);
    FieldWritten(d, delta, pos + 1);
    FieldWritten(d, length, pos + 1 + |Extension(delta)|);
    assert d[pos] / 16 == Nibble(delta) && d[pos] % 16 == Nibble(length);
  }

  lemma ReadStep(d: seq<byte>, n: nat, pos: nat, number: nat, o: Opt, value: nat)
    requires |d| >= n + SLACK && pos < n && d[pos] < 0xF0 && value + |o.value| <= n && o.number <= 60
    requires value == pos + 1 + ExtraBytes(d[pos] / 16) + ExtraBytes(d[pos] % 16)
    requires number + Field(d, d[pos] / 16, pos + 1) == o.number
    requires Field(d, d[pos] % 16, pos + 1 + ExtraBytes(d[pos] / 16)) == |o.value|
    requires d[value..value + |o.value|] == o.value
    ensures var rest := Read(d, n, value + |o.value|, o.number);
            Read(d, n, pos, number) == Reading([o] + rest.opts, rest.ending)
  {
    hide Field, ExtraBytes;
  }

  /** Any ordered list of options is found again, and the reading goes on right behind it. */
  lemma {:induction false} OptionsRead(d: seq<byte>, n: nat, pos: nat, prev: nat, opts: seq<Opt>)
    requires |d| >= n + SLACK && Ordered(prev, opts)
    requires Has(d, pos, Encode(prev, opts)) && pos + |Encode(prev, opts)| <= n
    ensures var rest := Read(d, n, pos + |Encode(prev, opts)|, LastNumber(prev, opts));
            Read(d, n, pos, prev) == Reading(opts + rest.opts, rest.ending)
    decreases opts
  {
    hide Header, Read, LastNumber, Has;
    if opts == [] {
      LastNone(prev);
      assert opts + Read(d, n, pos, prev).opts == Read(d, n, pos, prev).opts;
    } else {
      var o := opts[0];
      var h := Header(o.number - prev, |o.value|);
      var rest := Encode(o.number, opts[1..]);
      HasSplit(d, pos, h + o.value, rest);
      HasSplit(d, pos, h, o.value);
      HeaderWritten(d, pos, o.number - prev, |o.value|);
      Slice(d, pos + |h|, o.value);
      ReadStep(d, n, pos, prev, o, pos + |h|);
      LastConcat(prev, opts, []);
      var tail := pos + |h + o.value|;
      OptionsRead(d, n, tail, o.number, opts[1..]);
      assert tail + |rest| == pos + |Encode(prev, opts)|;
      assert opts == [o] + opts[1..];
      var last := Read(d, n, tail + |rest|, LastNumber(o.number, opts[1..])).opts;
      assert [o] + (opts[1..] + last) == opts + last;
    }
  }

  lemma Slice(d: seq<byte>, at: nat, w: seq<byte>)
    requires Has(d, at, w)
    ensures at + |w| <= |d| && d[at..at + |w|] == w
  {
  }

  /**
    The datagram of a message: version 1, type, token length, code and message id in the first four
    bytes, the token, the options of the message in ascending order, and the payload behind its
    marker.  A message with code 0 is the four bytes alone; one whose head is longer than 62 bytes
    is not written at all.
   */
  lemma WireReads(m: Packet, d: seq<byte>)
    requires WellFormed(m) && Has(d, 0, Wire(m)) && |d| >= |Wire(m)| + SLACK
    ensures Wire(m) != [] ==>
              && d[0] == 64 + m.mtype * 16 + |m.token| && d[1] == m.code && d[2] == m.mid / 256 && d[3] == m.mid % 256
    ensures m.code == 0 ==> |Wire(m)| == 4
    ensures m.code != 0 ==> (Wire(m) == [] <==> 4 + |m.token| + Written(m) > 62)
    ensures m.code != 0 && Wire(m) != [] ==>
              var n, end := |Wire(m)|, 4 + |m.token| + Written(m);
              && d[4..4 + |m.token|] == m.token
              && n == (if m.payload == [] then end else end + 1 + |m.payload|)
              && Read(d, n, 4 + |m.token|, 0)
                 == Reading(Options(m), if m.payload == [] then AtEnd else Payload(end + 1))
              && (m.payload != [] ==> d[end + 1..n] == m.payload)
  {
    hide Wire, Encode, Options, Read, LastNumber, Written, FixedHeader, Has, WellFormed;
    WireShape(m);
    if Wire(m) != [] {
      HeaderStarts(m, d);
      HeaderFields(d, m);
      if m.code != 0 {
        BodyReads(m, d);
      }
    }
  }

  lemma WireShape(m: Packet)
    requires WellFormed(m)
    ensures m.code == 0 ==> |Wire(m)| == 4
    ensures m.code != 0 ==> (Wire(m) == [] <==> 4 + |m.token| + Written(m) > 62)
  {
    hide Encode, Options;
  }

  lemma BodyReads(m: Packet, d: seq<byte>)
    requires WellFormed(m) && m.code != 0 && Wire(m) != []
    requires Has(d, 0, Wire(m)) && |d| >= |Wire(m)| + SLACK
    ensures var n, end := |Wire(m)|, 4 + |m.token| + Written(m);
            && d[4..4 + |m.token|] == m.token
            && n == (if m.payload == [] then end else end + 1 + |m.payload|)
            && Read(d, n, 4 + |m.token|, 0)
               == Reading(Options(m), if m.payload == [] then AtEnd else Payload(end + 1))
            && (m.payload != [] ==> d[end + 1..n] == m.payload)
  {
    hide Wire, Encode, Options, Read, LastNumber, Has, WellFormed;
    WireHas(m, d);
    var n, code := |Wire(m)|, Encode(0, Options(m));
    var end := 4 + |m.token| + |code|;
    Slice(d, 4, m.token);
    OptionsRead(d, n, 4 + |m.token|, 0, Options(m));
    EndReads(d, n, end, LastNumber(0, Options(m)), m.payload);
    assert Options(m) + [] == Options(m);
  }

  /** How many bytes the options of a message take. */
  function Written(m: Packet): nat
    requires WellFormed(m)
  {
    OptionsOrdered(m, SIZE1 + 1);
    |Encode(0, Options(m))|
  }

  lemma HeaderStarts(m: Packet, d: seq<byte>)
    requires WellFormed(m) && Has(d, 0, Wire(m)) && Wire(m) != []
    ensures Has(d, 0, FixedHeader(m))
  {
    hide Encode, Options, FixedHeader, Has, Tail, WellFormed, Ordered;
    if m.code != 0 {
      WireHas(m, d);
    }
  }

  lemma WireHas(m: Packet, d: seq<byte>)
    requires WellFormed(m) && Has(d, 0, Wire(m)) && Wire(m) != [] && m.code != 0
    ensures Ordered(0, Options(m)) && Has(d, 0, FixedHeader(m))
    ensures var code := Encode(0, Options(m));
            var at := 4 + |m.token|;
            && Has(d, 4, m.token) && Has(d, at, code) && Has(d, at + |code|, Tail(m))
            && |Wire(m)| == at + |code| + |Tail(m)|
  {
    hide Encode, OptionsBelow;
    OptionsOrdered(m, SIZE1 + 1);
    var code := Encode(0, Options(m));
    assert Wire(m) == FixedHeader(m) + m.token + code + Tail(m);
    HasSplit(d, 0, FixedHeader(m) + m.token + code, Tail(m));
    HasSplit(d, 0, FixedHeader(m) + m.token, code);
    HasSplit(d, 0, FixedHeader(m), m.token);
  }

  lemma EndReads(d: seq<byte>, n: nat, pos: nat, number: nat, payload: seq<byte>)
    requires |d| >= n + SLACK
    requires var tail := if payload == [] then [] else [0xFF] + payload; Has<byte>(d, pos, tail) && n == pos + |tail|
    ensures Read(d, n, pos, number) == Reading([], if payload == [] then AtEnd else Payload(pos + 1))
    ensures payload != [] ==> d[pos + 1..n] == payload
  {
    if payload != [] {
      HasAt(d, pos, [0xFF] + payload, 0);
      assert d[pos + 1..n] == d[pos..n][1..] == payload;
    }
  }

  // ----- what the parser makes of a reading --------------------------------------------------

  /** 5.05 for Proxy-Uri (35) and Proxy-Scheme (39), 4.02 for a critical option, that is one with an
      odd number, which is not If-Match (1), Uri-Host (3), If-None-Match (5), Uri-Port (7), Uri-Path (11),
      Uri-Query (15), Accept (17), Block2 (23) or Block1 (27). */
  function Refusal(number: nat): Status {
    if number == 35 || number == 39 then PROXYING_NOT_SUPPORTED_5_05
    else if number % 2 == 1 && number !in [1, 3, 5, 7, 11, 15, 17, 23, 27] then BAD_OPTION_4_02
    else NO_ERROR
  }

  /** The options in front of the first one that is refused. */
  function Accepted(opts: seq<Opt>): (a: seq<Opt>)
    ensures a <= opts && (forall o <- a :: Refusal(o.number) == NO_ERROR)
    ensures |a| < |opts| ==> Refusal(opts[|a|].number) != NO_ERROR
    decreases opts
  {
    if opts == [] || Refusal(opts[0].number) != NO_ERROR then [] else [opts[0]] + Accepted(opts[1..])
  }

  /** The first refused option decides; without one, the end of the options does. */
  function StatusOf(r: Reading): Status {
    var a := Accepted(r.opts);
    if |a| < |r.opts| then Refusal(r.opts[|a|].number) else if r.ending.Malformed? then BAD_REQUEST_4_00 else NO_ERROR
  }

  /** The payload, of which the parser takes no more than 64 bytes. */
  function PayloadOf(d: seq<byte>, n: nat, r: Reading): seq<byte>
    requires n <= |d|
  {
    if !r.ending.Payload? || r.ending.at > n then []
    else if n - r.ending.at > 64 then d[r.ending.at..r.ending.at + 64] else d[r.ending.at..n]
  }

  lemma RefusalApplies(p: Packet, o: Opt)
    requires |p.options| == OPTION_BITS && o.number <= 60
    ensures var r := Apply(SetOption(p, o.number), o.number, o.value);
            && r.0 == Refusal(o.number) && |r.1.options| == OPTION_BITS
            && (r.0 == NO_ERROR <==> Supported(o.number)) && (r.0 != NO_ERROR ==> r.1 == SetOption(p, o.number))
  {
  }

  /** What the parser reads in the header of an option is what the format says. */
  lemma HeaderAgrees(d: seq<byte>, pos: nat)
    requires pos + 5 <= |d|
    ensures var extension := pos + 1 + ExtraBytes(d[pos] / 16);
            ReadHeader(d, pos)
            == (Field(d, d[pos] / 16, pos + 1), Field(d, d[pos] % 16, extension), extension + ExtraBytes(d[pos] % 16))
  {
  }

  /** The packet behind the options `opts`, of which `a` were accepted. */
  function After(p: Packet, opts: seq<Opt>): (q: Packet)
    requires |p.options| == OPTION_BITS && forall o <- opts :: o.number <= 60
    ensures |q.options| == OPTION_BITS
  {
    var a := Accepted(opts);
    AcceptedSupported(opts);
    var q := ApplyAll(p, a);
    if |a| < |opts| then SetOption(q, opts[|a|].number) else q
  }

  lemma AcceptedSupported(opts: seq<Opt>)
    requires forall o <- opts :: o.number <= 60
    ensures AllSupported(Accepted(opts))
  {
    forall i | 0 <= i < |Accepted(opts)|
      ensures Supported(Accepted(opts)[i].number)
    {
      assert Accepted(opts)[i] == opts[i] && opts[i] in opts;
    }
  }

  lemma AcceptedFirst(p: Packet, o: Opt, opts: seq<Opt>)
    requires |p.options| == OPTION_BITS && o.number <= 60 && forall x <- opts :: x.number <= 60
    ensures var step := Apply(SetOption(p, o.number), o.number, o.value);
            && |step.1.options| == OPTION_BITS && step.0 == Refusal(o.number)
            && (forall x <- [o] + opts :: x.number <= 60)
            && After(p, [o] + opts) == (if step.0 == NO_ERROR then After(step.1, opts) else step.1)
  {
    hide Apply, SetOption, Refusal, Supported;
    RefusalApplies(p, o);
    var all := [o] + opts;
    assert all[0] == o && all[1..] == opts;
    AcceptedSupported(opts);
    AcceptedSupported(all);
    var a := Accepted(opts);
    if Refusal(o.number) == NO_ERROR {
      assert Accepted(all) == [o] + a && ([o] + a)[1..] == a;
      assert |a| < |opts| ==> all[|a| + 1] == opts[|a|];
    } else {
      assert Accepted(all) == [];
      ApplyNone(p);
    }
  }

  /** The outcome of the parser, when `p` is the packet so far and `r` the reading of the rest. */
  function Outcome(d: seq<byte>, n: nat, p: Packet, r: Reading): (Status, Packet)
    requires n <= |d| && |p.options| == OPTION_BITS && forall o <- r.opts :: o.number <= 60
  {
    var q := After(p, r.opts);
    (StatusOf(r), if StatusOf(r) == NO_ERROR && r.ending.Payload? then q.(payload := PayloadOf(d, n, r)) else q)
  }

  lemma OutcomeFirst(d: seq<byte>, n: nat, p: Packet, o: Opt, r: Reading)
    requires n <= |d| && |p.options| == OPTION_BITS && o.number <= 60 && forall x <- r.opts :: x.number <= 60
    ensures forall x <- [o] + r.opts :: x.number <= 60
    ensures var step := Apply(SetOption(p, o.number), o.number, o.value);
            && |step.1.options| == OPTION_BITS
            && Outcome(d, n, p, Reading([o] + r.opts, r.ending))
               == (if step.0 == NO_ERROR then Outcome(d, n, step.1, r) else step)
  {
    hide Apply, SetOption, Refusal, After, StatusOf;
    AcceptedFirst(p, o, r.opts);
    StatusFirst(o, r);
    var step := Apply(SetOption(p, o.number), o.number, o.value);
    assert step == (step.0, step.1);
  }

  lemma StatusFirst(o: Opt, r: Reading)
    ensures StatusOf(Reading([o] + r.opts, r.ending))
         == if Refusal(o.number) == NO_ERROR then StatusOf(r) else Refusal(o.number)
  {
    hide Refusal;
    var all := [o] + r.opts;
    var a := Accepted(r.opts);
    assert all[0] == o && all[1..] == r.opts;
    if Refusal(o.number) == NO_ERROR {
      assert Accepted(all) == [o] + a;
      assert |a| < |r.opts| ==> all[|a| + 1] == r.opts[|a|];
    } else {
      assert Accepted(all) == [];
    }
  }

  lemma OutcomeLast(d: seq<byte>, n: nat, p: Packet, ending: Ending)
    requires n <= |d| && |p.options| == OPTION_BITS
    ensures var r := Reading([], ending);
            Outcome(d, n, p, r)
            == if ending.Malformed? then (BAD_REQUEST_4_00, p)
               else (NO_ERROR, if ending.Payload? then p.(payload := PayloadOf(d, n, r)) else p)
  {
    ApplyNone(p);
    assert Accepted([]) == [];
  }

  /** Where no option is read, the parser stops. */
  lemma StopParsed(d: seq<byte>, n: nat, pos: nat, number: nat, p: Packet)
    requires |d| >= n + SLACK && |p.options| == OPTION_BITS && Read(d, n, pos, number).opts == []
    ensures ParseFrom(d, n, pos, number, p) == Outcome(d, n, p, Read(d, n, pos, number))
  {
    hide Outcome, Apply, SetOption, PayloadOf, ReadHeader, Field, ExtraBytes;
    var r := Read(d, n, pos, number);
    OutcomeLast(d, n, p, r.ending);
    if pos < n {
      HeaderAgrees(d, pos);
      PayloadTaken(d, n, r);
    }
  }

  /** Where one is read, the parser goes on with it. */
  lemma OptionParsed(d: seq<byte>, n: nat, pos: nat, number: nat, p: Packet, o: Opt, value: nat)
    requires |d| >= n + SLACK && |p.options| == OPTION_BITS && pos < n && d[pos] < 0xF0 && o.number <= 60
    requires value == pos + 1 + ExtraBytes(d[pos] / 16) + ExtraBytes(d[pos] % 16) && value + |o.value| <= n
    requires number + Field(d, d[pos] / 16, pos + 1) == o.number && d[value..value + |o.value|] == o.value
    requires Field(d, d[pos] % 16, pos + 1 + ExtraBytes(d[pos] / 16)) == |o.value|
    ensures var step := Apply(SetOption(p, o.number), o.number, o.value);
            && |step.1.options| == OPTION_BITS
            && ParseFrom(d, n, pos, number, p)
               == if step.0 != NO_ERROR then step else ParseFrom(d, n, value + |o.value|, o.number, step.1)
  {
    hide ParseFrom, Apply, SetOption, ReadHeader, Field, ExtraBytes, Refusal, Supported;
    HeaderAgrees(d, pos);
    RefusalApplies(p, o);
    if Apply(SetOption(p, o.number), o.number, o.value).0 == NO_ERROR {
      ParseStep(d, n, pos, number, p, o.number, value - pos, o.value);
    } else {
      ParseStop(d, n, pos, number, p, o.number, value, o.value);
    }
  }

  /** The option that is read first, and where its value begins. */
  lemma ReadMore(d: seq<byte>, n: nat, pos: nat, number: nat) returns (o: Opt, value: nat)
    requires |d| >= n + SLACK && Read(d, n, pos, number).opts != []
    ensures pos < n && d[pos] < 0xF0 && o.number <= 60
    ensures value == pos + 1 + ExtraBytes(d[pos] / 16) + ExtraBytes(d[pos] % 16) && value + |o.value| <= n
    ensures number + Field(d, d[pos] / 16, pos + 1) == o.number && d[value..value + |o.value|] == o.value
    ensures Field(d, d[pos] % 16, pos + 1 + ExtraBytes(d[pos] / 16)) == |o.value|
    ensures var rest := Read(d, n, value + |o.value|, o.number);
            Read(d, n, pos, number) == Reading([o] + rest.opts, rest.ending)
  {
    hide Field, ExtraBytes;
    var extension := pos + 1 + ExtraBytes(d[pos] / 16);
    value := extension + ExtraBytes(d[pos] % 16);
    var length := Field(d, d[pos] % 16, extension);
    o := Opt(number + Field(d, d[pos] / 16, pos + 1), d[value..value + length]);
  }

  /** From any point of any datagram on, the parser does what the reading asks for. */
  lemma {:induction false} ParsedFrom(d: seq<byte>, n: nat, pos: nat, number: nat, p: Packet)
    requires |d| >= n + SLACK && |p.options| == OPTION_BITS
    ensures forall o <- Read(d, n, pos, number).opts :: o.number <= 60
    ensures ParseFrom(d, n, pos, number, p) == Outcome(d, n, p, Read(d, n, pos, number))
    decreases n - pos
  {
    hide Outcome, Apply, SetOption, ParseFrom, Field, ExtraBytes, Read;
    if Read(d, n, pos, number).opts == [] {
      StopParsed(d, n, pos, number, p);
    } else {
      var o, value := ReadMore(d, n, pos, number);
      OptionParsed(d, n, pos, number, p, o, value);
      var step := Apply(SetOption(p, o.number), o.number, o.value);
      ParsedFrom(d, n, value + |o.value|, o.number, step.1);
      OutcomeFirst(d, n, p, o, Read(d, n, value + |o.value|, o.number));
    }
  }

  lemma PayloadTaken(d: seq<byte>, n: nat, r: Reading)
    requires n <= |d|
    ensures r.ending.Payload? && r.ending.at <= n ==>
              PayloadOf(d, n, r) == AtMost(d[r.ending.at..n], REST_MAX_CHUNK_SIZE)
  {
  }

  // ----- what becomes of the options ---------------------------------------------------------

  /** The value of the last option with a number; nothing if there is none. */
  function LastOf(opts: seq<Opt>, number: nat): seq<byte> {
    if opts == [] then []
    else
      var o := opts[|opts| - 1];
      if o.number == number then o.value else LastOf(opts[..|opts| - 1], number)
  }

  /** The values of all options with a number, joined by the separator; empty ones in front are lost. */
  function TextOf(opts: seq<Opt>, number: nat, separator: byte): seq<byte> {
    if opts == [] then []
    else
      var o := opts[|opts| - 1];
      var text := TextOf(opts[..|opts| - 1], number, separator);
      if o.number != number then text else if text == [] then o.value else text + [separator] + o.value
  }

  predicate Occurs(opts: seq<Opt>, number: nat) { exists o <- opts :: o.number == number }

  function BigEndian(s: seq<byte>): nat {
    if s == [] then 0 else BigEndian(s[..|s| - 1]) * 256 + s[|s| - 1] as nat
  }

  /** Number, more bit, size and offset of a block option. */
  function BlockOf(v: uint32): Block {
    var size := if v % 8 == 0 then 16 else if v % 8 == 1 then 32 else if v % 8 == 2 then 64
                else if v % 8 == 3 then 128 else if v % 8 == 4 then 256 else if v % 8 == 5 then 512
                else if v % 8 == 6 then 1024 else 2048;
    Block(v / 16, v / 8 % 2, size, v / 16 * size % 0x1_0000_0000)
  }

  function First8(s: seq<byte>): seq<byte> { if |s| > 8 then s[..8] else s }

  predicate BytesGiven(q: Packet, opts: seq<Opt>) {
    && q.ifMatch == First8(LastOf(opts, 1)) && q.uriHost == LastOf(opts, 3) && q.etag == First8(LastOf(opts, 4))
    && q.ifNoneMatch == Occurs(opts, 5)
  }

  predicate IntsGiven(q: Packet, opts: seq<Opt>) {
    && q.observe == BigEndian(LastOf(opts, 6)) % 0x1_0000_0000
    && q.uriPort == BigEndian(LastOf(opts, 7)) % 0x1_0000
    && q.contentFormat == BigEndian(LastOf(opts, 12)) % 0x1_0000
    && q.maxAge == BigEndian(LastOf(opts, 14)) % 0x1_0000_0000
    && q.accept == BigEndian(LastOf(opts, 17)) % 0x1_0000
    && q.size2 == BigEndian(LastOf(opts, 28)) % 0x1_0000_0000
    && q.size1 == BigEndian(LastOf(opts, 60)) % 0x1_0000_0000
  }

  predicate TextsGiven(q: Packet, opts: seq<Opt>) {
    && q.locationPath == TextOf(opts, 8, '/' as int) && q.uriPath == TextOf(opts, 11, '/' as int)
    && q.uriQuery == TextOf(opts, 15, '&' as int) && q.locationQuery == TextOf(opts, 20, '&' as int)
  }

  function BlockGiven(opts: seq<Opt>, number: nat): Block {
    if Occurs(opts, number) then BlockOf(BigEndian(LastOf(opts, number)) % 0x1_0000_0000) else Block(0, 0, 0, 0)
  }

  predicate BlocksGiven(q: Packet, opts: seq<Opt>) {
    && q.block2 == BlockGiven(opts, 23) && q.block1 == BlockGiven(opts, 27)
  }

  /** Header, token and payload are not touched, and the map has a bit for every number that occurs. */
  predicate RestGiven(p: Packet, q: Packet, opts: seq<Opt>)
    requires |q.options| == OPTION_BITS
  {
    && q.version == p.version && q.mtype == p.mtype && q.code == p.code && q.mid == p.mid && q.token == p.token
    && q.proxyUri == [] && q.proxyScheme == [] && q.payload == []
    && forall i :: 0 <= i < OPTION_BITS ==> (q.options[i] <==> Occurs(opts, i))
  }

  lemma LastStep(opts: seq<Opt>, o: Opt, number: nat)
    ensures LastOf(opts + [o], number) == if o.number == number then o.value else LastOf(opts, number)
  {
    assert (opts + [o])[..|opts|] == opts;
  }

  lemma TextStep(opts: seq<Opt>, o: Opt, number: nat, separator: byte)
    ensures TextOf(opts + [o], number, separator)
         == if o.number == number then Merge(TextOf(opts, number, separator), o.value, separator)
            else TextOf(opts, number, separator)
  {
    assert (opts + [o])[..|opts|] == opts;
  }

  lemma OccursStep(opts: seq<Opt>, o: Opt, number: nat)
    ensures Occurs(opts + [o], number) <==> Occurs(opts, number) || o.number == number
  {
    assert o in opts + [o];
  }

  /** Shifting in byte after byte gives the big-endian number of the bytes, as far as 32 bits go. */
  lemma {:induction false} IntRead(s: seq<byte>)
    ensures ParseInt(s) as int == BigEndian(s) % 0x1_0000_0000
    decreases s
  {
    if s != [] {
      IntRead(s[..|s| - 1]);
      Shifted(BigEndian(s[..|s| - 1]), s[|s| - 1]);
    }
  }

  lemma Shifted(v: nat, b: byte)
    ensures (v % 0x1_0000_0000 * 256 + b as int) % 0x1_0000_0000 == (v * 256 + b as int) % 0x1_0000_0000
  {
    var q := v / 0x1_0000_0000;
    assert v * 256 + b as int == v % 0x1_0000_0000 * 256 + b as int + (q * 256) * 0x1_0000_0000;
  }

  lemma Low16(v: nat)
    ensures v % 0x1_0000_0000 % 0x1_0000 == v % 0x1_0000
  {
  }

  lemma BlockRead(v: uint32)
    ensures ParseBlock(v) == BlockOf(v)
  {
    assert v % 16 / 8 == v / 8 % 2;
    var szx := v % 8;
    var size := 16 * Pow2(szx);
    assert size == BlockOf(v).size;
    assert (v / 16 * 16) * Pow2(szx) == v / 16 * size;
  }

  lemma BytesStepGiven(q: Packet, opts: seq<Opt>, o: Opt)
    requires |q.options| == OPTION_BITS && o.number <= 60 && Supported(o.number) && BytesGiven(q, opts)
    ensures BytesGiven(Apply(SetOption(q, o.number), o.number, o.value).1, opts + [o])
  {
    hide LastOf, Occurs, ParseInt, ParseBlock, Merge;
    LastStep(opts, o, 1);
    LastStep(opts, o, 3);
    LastStep(opts, o, 4);
    OccursStep(opts, o, 5);
  }

  lemma IntsStepGiven(q: Packet, opts: seq<Opt>, o: Opt)
    requires |q.options| == OPTION_BITS && o.number <= 60 && Supported(o.number) && IntsGiven(q, opts)
    ensures IntsGiven(Apply(SetOption(q, o.number), o.number, o.value).1, opts + [o])
  {
    hide LastOf, ParseInt, ParseBlock, Merge, BigEndian;
    LastStep(opts, o, 6);
    LastStep(opts, o, 7);
    LastStep(opts, o, 12);
    LastStep(opts, o, 14);
    LastStep(opts, o, 17);
    LastStep(opts, o, 28);
    LastStep(opts, o, 60);
    IntRead(o.value);
    Low16(BigEndian(o.value));
  }

  lemma TextsStepGiven(q: Packet, opts: seq<Opt>, o: Opt)
    requires |q.options| == OPTION_BITS && o.number <= 60 && Supported(o.number) && TextsGiven(q, opts)
    ensures TextsGiven(Apply(SetOption(q, o.number), o.number, o.value).1, opts + [o])
  {
    hide TextOf, ParseInt, ParseBlock, Merge;
    TextStep(opts, o, 8, '/' as int);
    TextStep(opts, o, 11, '/' as int);
    TextStep(opts, o, 15, '&' as int);
    TextStep(opts, o, 20, '&' as int);
  }

  lemma BlocksStepGiven(q: Packet, opts: seq<Opt>, o: Opt)
    requires |q.options| == OPTION_BITS && o.number <= 60 && Supported(o.number) && BlocksGiven(q, opts)
    ensures BlocksGiven(Apply(SetOption(q, o.number), o.number, o.value).1, opts + [o])
  {
    hide LastOf, Occurs, ParseInt, ParseBlock, BlockOf, Merge, BigEndian;
    LastStep(opts, o, 23);
    LastStep(opts, o, 27);
    OccursStep(opts, o, 23);
    OccursStep(opts, o, 27);
    IntRead(o.value);
    BlockRead(BigEndian(o.value) % 0x1_0000_0000);
  }

  lemma RestStepGiven(p: Packet, q: Packet, opts: seq<Opt>, o: Opt)
    requires |q.options| == OPTION_BITS && o.number <= 60 && Supported(o.number) && RestGiven(p, q, opts)
    ensures var r := Apply(SetOption(q, o.number), o.number, o.value).1;
            |r.options| == OPTION_BITS && RestGiven(p, r, opts + [o])
  {
    hide Occurs, ParseInt, ParseBlock, Merge;
    forall i | 0 <= i < OPTION_BITS
      ensures Occurs(opts + [o], i) <==> Occurs(opts, i) || o.number == i
    {
      OccursStep(opts, o, i);
    }
  }

  /** What the fields of a packet are that was blank before the options `opts`. */
  predicate Given(p: Packet, q: Packet, opts: seq<Opt>)
    requires |q.options| == OPTION_BITS
  {
    BytesGiven(q, opts) && IntsGiven(q, opts) && TextsGiven(q, opts) && BlocksGiven(q, opts) && RestGiven(p, q, opts)
  }

  lemma {:induction false} FieldsGiven(version: byte, mtype: byte, code: byte, mid: uint16, token: seq<byte>,
                                       opts: seq<Opt>)
    requires AllSupported(opts)
    ensures var p := Blank(version, mtype, code, mid, token); Given(p, ApplyAll(p, opts), opts)
    decreases opts
  {
    hide Apply, SetOption, BytesGiven, IntsGiven, TextsGiven, BlocksGiven, RestGiven, Supported;
    var p := Blank(version, mtype, code, mid, token);
    if opts == [] {
      ApplyNone(p);
      NothingGiven(version, mtype, code, mid, token);
    } else {
      var init, o := opts[..|opts| - 1], opts[|opts| - 1];
      assert opts == init + [o];
      FieldsGiven(version, mtype, code, mid, token, init);
      assert Supported(o.number);
      assert AllSupported([o]);
      ApplyAllConcat(p, init, [o]);
      var q := ApplyAll(p, init);
      OneMore(q, o);
      BytesStepGiven(q, init, o);
      IntsStepGiven(q, init, o);
      TextsStepGiven(q, init, o);
      BlocksStepGiven(q, init, o);
      RestStepGiven(p, q, init, o);
    }
  }

  lemma OneMore(q: Packet, o: Opt)
    requires |q.options| == OPTION_BITS && Supported(o.number)
    ensures o.number <= 60 && AllSupported([o])
    ensures ApplyAll(q, [o]) == Apply(SetOption(q, o.number), o.number, o.value).1
  {
    hide Apply;
    SupportedApplies(SetOption(q, o.number), o.number, o.value);
    ApplyNone(Apply(SetOption(q, o.number), o.number, o.value).1);
    assert [o][1..] == [];
  }

  lemma NothingGiven(version: byte, mtype: byte, code: byte, mid: uint16, token: seq<byte>)
    ensures var p := Blank(version, mtype, code, mid, token); Given(p, p, [])
  {
  }

  /**
    The parser on an arbitrary datagram.  One with another version than 1 or a token longer than 8 bytes
    is a bad request.  In any other one the options are read as the format says, the first refused option
    decides the status, and the fields of the packet are what the accepted options give: the last
    value of an option that occurs once in a message, cut to 8 bytes, 16 bits or 32 bits where the field is
    no wider, and the values of a repeated option joined by its separator.  Header and token are
    kept in every case, for the reply.
   */
  lemma ParsedMessage(d: seq<byte>, n: nat)
    requires |d| >= n + SLACK
    ensures var (status, p) := ParseMessage(d, n);
            && p.version == d[0] / 64 && p.mtype == d[0] / 16 % 4 && p.code == d[1]
            && p.mid as int == d[2] as int * 256 + d[3] as int
            && (if d[0] / 64 != 1 || d[0] % 16 > 8 then status == BAD_REQUEST_4_00 && p.token == []
                else
                  var end := 4 + d[0] % 16;
                  var r := Read(d, n, end, 0);
                  && status == StatusOf(r) && p.token == d[4..end]
                  && (status == NO_ERROR ==>
                        && p.payload == PayloadOf(d, n, r)
                        && |p.options| == OPTION_BITS
                        && (var q := p.(payload := []); Given(q, q, r.opts))))
  {
    hide Read, StatusOf, PayloadOf, ParseFrom, Given, Outcome;
    if d[0] / 64 == 1 && d[0] % 16 <= 8 {
      var end: nat := 4 + d[0] % 16;
      var r := Read(d, n, end, 0);
      var b := Blank(d[0] / 64, d[0] / 16 % 4, d[1], (d[2] as int) * 256 + d[3] as int, d[4..end]);
      ParsedFrom(d, n, end, 0, b);
      OutcomeGiven(d, n, d[0] / 64, d[0] / 16 % 4, d[1], (d[2] as int) * 256 + d[3] as int, d[4..end], r);
    }
  }

  lemma OutcomeGiven(d: seq<byte>, n: nat, version: byte, mtype: byte, code: byte, mid: uint16, token: seq<byte>,
                     r: Reading)
    requires n <= |d| && forall o <- r.opts :: o.number <= 60
    ensures var b := Blank(version, mtype, code, mid, token);
            var (status, p) := Outcome(d, n, b, r);
            && status == StatusOf(r) && |p.options| == OPTION_BITS
            && p.version == version && p.mtype == mtype && p.code == code && p.mid == mid && p.token == token
            && (status == NO_ERROR ==>
                  p.payload == PayloadOf(d, n, r) && (var q := p.(payload := []); Given(q, q, r.opts)))
  {
    hide BytesGiven, IntsGiven, TextsGiven, BlocksGiven, RestGiven, Supported;
    var b := Blank(version, mtype, code, mid, token);
    var a := Accepted(r.opts);
    AcceptedSupported(r.opts);
    FieldsGiven(version, mtype, code, mid, token, a);
    var q := ApplyAll(b, a);
    SelfGiven(b, q, a);
    var (status, p) := Outcome(d, n, b, r);
    if status == NO_ERROR {
      assert a == r.opts;
      assert p.(payload := []) == q;
    }
  }

  lemma SelfGiven(p: Packet, q: Packet, opts: seq<Opt>)
    requires |q.options| == OPTION_BITS && Given(p, q, opts)
    ensures Given(q, q, opts) && q.payload == []
    ensures q.version == p.version && q.mtype == p.mtype && q.code == p.code && q.mid == p.mid && q.token == p.token
  {
    hide Occurs;
  }

  /**
    Section 3.1 of RFC 7252 makes a length nibble of 15 a format error.  The parser takes it for the
    length 15: here it finds 15 bytes of Content-Format and no error.
   */
  lemma ReservedLengthAccepted(d: seq<byte>)
    requires |d| >= 20 + SLACK && d[0] == 0x40 && d[4] == 0xCF
    ensures ParseMessage(d, 20).0 == NO_ERROR
    ensures Read(d, 20, 4, 0) == Reading([Opt(12, d[5..20])], AtEnd)
  {
    hide Read, ParseMessage, Given;
    ReservedLengthRead(d);
    ParsedMessage(d, 20);
    OneAccepted(Opt(12, d[5..20]));
  }

  lemma ReservedLengthRead(d: seq<byte>)
    requires |d| >= 20 + SLACK && d[0] == 0x40 && d[4] == 0xCF
    ensures Read(d, 20, 4, 0) == Reading([Opt(12, d[5..20])], AtEnd)
  {
    assert Read(d, 20, 20, 12) == Reading([], AtEnd);
    assert [Opt(12, d[5..20])] + [] == [Opt(12, d[5..20])];
  }

  lemma OneAccepted(o: Opt)
    requires Refusal(o.number) == NO_ERROR
    ensures Accepted([o]) == [o]
  {
    assert Accepted([]) == [];
    assert [o][1..] == [];
  }

  // ----- block options of any size -----------------------------------------------------------

  function Power(n: nat): nat { if n == 0 then 1 else 2 * Power(n - 1) }

  lemma Powers()
    ensures Power(0) == 1 && Power(1) == 2 && Power(2) == 4 && Power(3) == 8 && Power(4) == 16 && Power(5) == 32
    ensures Power(6) == 64 && Power(7) == 128 && Power(8) == 256 && Power(9) == 512 && Power(10) == 1024
    ensures Power(11) == 2048 && Power(12) == 4096
  {
    assert Power(4) == 16;
    assert Power(8) == 256;
  }

  lemma LogOf(v: nat, n: nat)
    requires n <= 11 && (Power(n) <= v < Power(n + 1) || (n == 0 && v == 0))
    ensures Log2(v) == n
  {
    Powers();
  }

  lemma SixteenthOf(size: nat, p: nat, q: nat)
    requires 16 * p <= size < 16 * q
    ensures p <= size / 16 < q
  {
  }

  /**
    A block option whose size is no power of two is rounded down to one; below 16 it is written as 16.
    The exponent of a size of 4096 bytes or more does not fit its three bits and sets the more bit.
   */
  lemma BlockWritten(b: Block, szx: nat)
    requires b.num < 0x1000_0000 && szx <= 11
    requires 16 * Power(szx) <= b.size < 16 * Power(szx + 1) || (szx == 0 && b.size < 16)
    ensures BlockValue(b) / 16 == b.num && BlockValue(b) % 8 == szx % 8
    ensures BlockValue(b) / 8 % 2 == 1 <==> b.more != 0 || szx >= 8
  {
    hide Power, Log2, BlockValue;
    if b.size >= 16 {
      SixteenthOf(b.size, Power(szx), Power(szx + 1));
    }
    LogOf(b.size / 16, szx);
    var low: nat := if b.more != 0 && szx < 8 then szx + 8 else szx;
    BlockValueIs(b, szx);
    LowBits(b.num, low);
  }

  // ----- the options that only clients of a proxy use ----------------------------------------

  lemma {:induction false} LastConcatOf(a: seq<Opt>, b: seq<Opt>, number: nat)
    ensures LastOf(a + b, number) == if Occurs(b, number) then LastOf(b, number) else LastOf(a, number)
    decreases b
  {
    if b == [] {
      assert a + b == a;
    } else {
      var init, o := b[..|b| - 1], b[|b| - 1];
      assert b == init + [o] && a + b == (a + init) + [o];
      LastConcatOf(a, init, number);
      LastStep(a + init, o, number);
      LastStep(init, o, number);
      OccursStep(init, o, number);
    }
  }

  lemma {:induction false} LastWritten(m: Packet, limit: nat, number: nat)
    requires WellFormed(m) && number < limit <= 61
    ensures LastOf(OptionsBelow(m, limit), number) == LastOf(FieldOptions(m, number), number)
    decreases limit
  {
    hide FieldOptions, LastOf;
    var last := FieldOptions(m, limit - 1);
    FieldOptionsShape(m, limit - 1);
    LastConcatOf(OptionsBelow(m, limit - 1), last, number);
    if number < limit - 1 {
      LastWritten(m, limit - 1, number);
    } else if !Occurs(last, number) {
      AllOccur(last, number);
      NotBelow(m, limit - 1, number);
      NoLast(OptionsBelow(m, limit - 1), number);
      NoLast([], number);
    }
  }

  lemma AllOccur(opts: seq<Opt>, number: nat)
    requires forall i :: 0 <= i < |opts| ==> opts[i].number == number
    ensures opts == [] || Occurs(opts, number)
  {
    if opts != [] {
      assert opts[0] in opts;
    }
  }

  lemma {:induction false} NotBelow(m: Packet, limit: nat, number: nat)
    requires WellFormed(m) && limit <= number <= 60
    ensures !Occurs(OptionsBelow(m, limit), number)
    decreases limit
  {
    hide FieldOptions;
    if limit > 0 {
      NotBelow(m, limit - 1, number);
      FieldOptionsShape(m, limit - 1);
    }
  }

  lemma {:induction false} NoLast(opts: seq<Opt>, number: nat)
    requires !Occurs(opts, number)
    ensures LastOf(opts, number) == []
    decreases opts
  {
    if opts != [] {
      assert opts[|opts| - 1] in opts;
      NoLast(opts[..|opts| - 1], number);
    }
  }

  /** Proxy-Uri and Proxy-Scheme, which this parser refuses, are written under their numbers all the same. */
  lemma ProxyWritten(m: Packet)
    requires WellFormed(m)
    ensures m.options[35] ==> LastOf(Options(m), 35) == m.proxyUri
    ensures m.options[39] ==> LastOf(Options(m), 39) == m.proxyScheme
  {
    hide OptionsBelow;
    LastWritten(m, 61, 35);
    LastWritten(m, 61, 39);
  }
}
