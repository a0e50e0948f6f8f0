/**
  The CoAP codec on buffers (apps/er-coap/er-coap.c, apps/er-coap/er-coap.h; sections 3 and
  3.1 of RFC 7252).

  `Serializer` writes options at a moving position, `Parser` reads a datagram and joins
  repeated options inside the datagram itself.  Both are proved equal to the values of
  module CoapMessage, on every message and on every datagram.
 */
module CoapCodec {
  import opened Segments
  import opened CoapOptions
  import opened CoapMessage

  // ----- writing ------------------------------------------------------------------------

  /** An append: what was there stays, `w` is written at `at`. */
  predicate Appends(before: seq<byte>, after: seq<byte>, at: nat, w: seq<byte>) {
    && |after| == |before| && at + |w| <= |after|
    && after[..at] == before[..at] && after[at..at + |w|] == w
  }

  lemma AppendsTwice(s0: seq<byte>, s1: seq<byte>, s2: seq<byte>, at: nat, v: seq<byte>, w: seq<byte>)
    requires Appends(s0, s1, at, v) && Appends(s1, s2, at + |v|, w)
    ensures Appends(s0, s2, at, v + w)
  {
    assert s2[..at] == s2[..at + |v|][..at] == s1[..at];
    assert s2[at..at + |v|] == s2[..at + |v|][at..] == s1[..at + |v|][at..] == v;
    assert s2[at..at + |v + w|] == s2[at..at + |v|] + s2[at + |v|..at + |v| + |w|];
  }

  lemma AppendsNothing(s: seq<byte>, at: nat)
    requires at <= |s|
    ensures Appends(s, s, at, [])
  {
  }

  lemma PartsFirst(prev: nat, number: nat, part: seq<byte>, rest: seq<seq<byte>>)
    requires prev <= number <= SIZE1 && |part| <= MAX_EXTENDED && Ordered(number, Parts(number, rest))
    ensures Ordered(prev, Parts(number, [part] + rest))
    ensures Encode(prev, Parts(number, [part] + rest))
         == Header(number - prev, |part|) + part + Encode(number, Parts(number, rest))
  {
    hide Header;
    assert Parts(number, [part] + rest)[1..] == Parts(number, rest);
  }

  lemma PartsOrdered(number: nat, s: seq<byte>, sep: byte, start: nat, j: nat)
    requires number <= SIZE1 && |s| <= MAX_EXTENDED && start <= j
    ensures Ordered(number, Parts(number, SplitFrom(s, sep, start, j)))
  {
    PartBound(s, sep, start, j);
    var parts := SplitFrom(s, sep, start, j);
    forall i | 0 <= i < |parts|
      ensures Parts(number, parts)[i].number == number && |Parts(number, parts)[i].value| <= MAX_EXTENDED
    {
      assert parts[i] in SplitFrom(s, sep, start, j);
    }
    SameNumberOrdered(number, Parts(number, parts));
  }

  /** The options that are written below `n`. */
  function Coded(m: Packet, n: nat): seq<byte>
    requires WellFormed(m) && n <= SIZE1 + 1
  {
    OptionsOrdered(m, n);
    Encode(0, OptionsBelow(m, n))
  }

  /** Everything that is written before the options of number `n`. */
  function HeadBelow(m: Packet, n: nat): seq<byte>
    requires WellFormed(m) && n <= SIZE1 + 1
  {
    FixedHeader(m) + m.token + Coded(m, n)
  }

  lemma CodedStep(m: Packet, n: nat)
    requires WellFormed(m) && n <= SIZE1
    ensures var last := LastNumber(0, OptionsBelow(m, n));
            && last <= n && Ordered(last, FieldOptions(m, n))
            && Coded(m, n + 1) == Coded(m, n) + Encode(last, FieldOptions(m, n))
            && LastNumber(0, OptionsBelow(m, n + 1)) == LastNumber(last, FieldOptions(m, n))
  {
    hide FieldOptions, Encode;
    OptionsOrdered(m, n);
    FieldOptionsShape(m, n);
    SameNumberOrdered(n, FieldOptions(m, n));
    var last := LastNumber(0, OptionsBelow(m, n));
    OrderedWeaken(last, n, FieldOptions(m, n));
    EncodeConcat(0, OptionsBelow(m, n), FieldOptions(m, n));
    LastConcat(0, OptionsBelow(m, n), FieldOptions(m, n));
  }

  /** No options between two numbers that the serializer knows. */
  predicate Gap(m: Packet, a: nat, b: nat) {
    a <= b && forall k :: a <= k < b ==> FieldOptions(m, k) == []
  }

  lemma {:induction false} GapSkips(m: Packet, a: nat, b: nat)
    requires WellFormed(m) && b <= SIZE1 + 1 && Gap(m, a, b)
    ensures OptionsBelow(m, b) == OptionsBelow(m, a)
    decreases b
  {
    hide FieldOptions;
    if a < b {
      GapSkips(m, a, b - 1);
      assert FieldOptions(m, b - 1) == [];
    }
  }

  lemma {:induction false} CodedGrows(m: Packet, a: nat, b: nat)
    requires WellFormed(m) && a <= b <= SIZE1 + 1
    ensures |Coded(m, a)| <= |Coded(m, b)|
    decreases b
  {
    hide FieldOptions, Encode, Coded;
    if a < b {
      CodedGrows(m, a, b - 1);
      CodedStep(m, b - 1);
    }
  }

  class Serializer {
    const buffer: array<byte>
    var option: nat
    var currentNumber: nat

    constructor (buffer: array<byte>)
      ensures this.buffer == buffer && option == 0 && currentNumber == 0
    {
      this.buffer := buffer;
      option, currentNumber := 0, 0;
    }

    /** The extension bytes of a delta or a length, as coap_set_option_header writes both. */
    method PutExtension(value: nat, at: nat) returns (written: nat)
      requires value <= MAX_EXTENDED && at + |Extension(value)| <= buffer.Length
      modifies buffer
      ensures written == |Extension(value)|
      ensures Appends(old(buffer[..]), buffer[..], at, Extension(value))
    {
      written := 0;
      if value > 268 {
        buffer[at] := (value - 269) / 256;
        written := written + 1;
        buffer[at + 1] := (value - 269) % 256;
        written := written + 1;
      } else if value > 12 {
        buffer[at] := value - 13;
        written := written + 1;
      }
    }

    /** coap_set_option_header. */
    method SetOptionHeader(delta: nat, length: nat, at: nat) returns (written: nat)
      requires delta <= MAX_EXTENDED && length <= MAX_EXTENDED
      requires at + |Header(delta, length)| <= buffer.Length
      modifies buffer
      ensures written == |Header(delta, length)|
      ensures Appends(old(buffer[..]), buffer[..], at, Header(delta, length))
    {
      hide Extension, Nibble;
      ghost var s0 := buffer[..];
      var first: byte := Nibble(delta) * 16 + Nibble(length);
      buffer[at] := first;
      ghost var s1 := buffer[..];
      var n := PutExtension(delta, at + 1);
      ghost var s2 := buffer[..];
      AppendsTwice(s0, s1, s2, at, [first], Extension(delta));
      written := PutExtension(length, at + 1 + n);
      AppendsTwice(s0, s2, buffer[..], at, [first] + Extension(delta), Extension(length));
      written := 1 + n + written;
    }

    /** The bytes of an integer from the first non-zero one on. */
    method PutDigits(value: uint32, at: nat) returns (i: nat)
      requires at + |IntBytes(value)| <= buffer.Length
      modifies buffer
      ensures i == |IntBytes(value)| && Appends(old(buffer[..]), buffer[..], at, IntBytes(value))
    {
      i := 0;
      if value / 0x100_0000 != 0 {
        buffer[at + i] := value / 0x100_0000;
        i := i + 1;
      }
      if value / 0x1_0000 != 0 {
        buffer[at + i] := value / 0x1_0000 % 256;
        i := i + 1;
      }
      if value / 0x100 != 0 {
        buffer[at + i] := value / 0x100 % 256;
        i := i + 1;
      }
      if value != 0 {
        buffer[at + i] := value % 256;
        i := i + 1;
      }
    }

    /** coap_serialize_int_option: counts the bytes from the first non-zero one, then writes them. */
    method IntOption(number: nat, current: nat, at: nat, value: uint32) returns (i: nat)
      requires current <= number <= SIZE1
      requires at + |EncodeOne(current, Opt(number, IntBytes(value)))| <= buffer.Length
      modifies buffer
      ensures i == |EncodeOne(current, Opt(number, IntBytes(value)))|
      ensures Appends(old(buffer[..]), buffer[..], at, EncodeOne(current, Opt(number, IntBytes(value))))
    {
      hide Header;
      i := 0;
      if value / 0x100_0000 != 0 {
        i := i + 1;
      }
      if value / 0x1_0000 != 0 {
        i := i + 1;
      }
      if value / 0x100 != 0 {
        i := i + 1;
      }
      if value != 0 {
        i := i + 1;
      }
      assert i == |IntBytes(value)|;
      hide IntBytes;
      ghost var s0 := buffer[..];
      i := SetOptionHeader(number - current, i, at);
      ghost var s1 := buffer[..];
      var n := PutDigits(value, at + i);
      AppendsTwice(s0, s1, buffer[..], at, Header(number - current, |IntBytes(value)|), IntBytes(value));
      i := i + n;
    }

    /** coap_serialize_array_option without a splitter. */
    method ArrayOption(number: nat, current: nat, at: nat, s: seq<byte>) returns (i: nat)
      requires current <= number <= SIZE1 && |s| <= MAX_EXTENDED
      requires at + |EncodeOne(current, Opt(number, s))| <= buffer.Length
      modifies buffer
      ensures i == |EncodeOne(current, Opt(number, s))|
      ensures Appends(old(buffer[..]), buffer[..], at, EncodeOne(current, Opt(number, s)))
    {
      hide Header;
      ghost var s0 := buffer[..];
      i := SetOptionHeader(number - current, |s|, at);
      ghost var s1 := buffer[..];
      forall k | 0 <= k < |s| {
        buffer[at + i + k] := s[k];
      }
      assert Appends(s1, buffer[..], at + i, s);
      AppendsTwice(s0, s1, buffer[..], at, Header(number - current, |s|), s);
      i := i + |s|;
    }

    /** coap_serialize_array_option with a splitter: one option for every part, all but the
        first with a delta of zero. */
    method SplitOption(number: nat, currentNumber: nat, at: nat, s: seq<byte>, sep: byte) returns (i: nat)
      requires currentNumber <= number <= SIZE1 && |s| <= MAX_EXTENDED
      requires Ordered(currentNumber, Parts(number, Split(s, sep)))
      requires at + |Encode(currentNumber, Parts(number, Split(s, sep)))| <= buffer.Length
      modifies buffer
      ensures i == |Encode(currentNumber, Parts(number, Split(s, sep)))|
      ensures Appends(old(buffer[..]), buffer[..], at, Encode(currentNumber, Parts(number, Split(s, sep))))
    {
      hide Encode, EncodeOne, Ordered, SplitFrom, Parts, Appends;
      i := 0;
      var j: nat, start: nat, current: nat := 0, 0, currentNumber;
      ghost var s0, written := buffer[..], [];
      ghost var all := Encode(currentNumber, Parts(number, Split(s, sep)));
      assert all == [] + all;
      AppendsNothing(s0, at);
      while j <= |s| + 1
        invariant start <= j && (start > |s| ==> j > |s|) && current <= number
        invariant Ordered(current, Parts(number, SplitFrom(s, sep, start, j)))
        invariant all == written + Encode(current, Parts(number, SplitFrom(s, sep, start, j)))
        invariant i == |written| && Appends(s0, buffer[..], at, written)
        decreases |s| + 2 - j
      {
        if j == |s| || (j < |s| && s[j] == sep) {
          var part := s[start..j];
          ghost var one := EncodeOne(current, Opt(number, part));
          SplitStep(s, sep, number, current, start, j, written, all);
          assert at + |written + one| <= |s0| by { PrefixFits(written + one, all); }
          ghost var s1 := buffer[..];
          var n := ArrayOption(number, current, at + i, part);
          AppendsTwice(s0, s1, buffer[..], at, written, one);
          written := written + one;
          i := i + n;
          j := j + 1;
          current := number;
          start := j;
        } else {
          SplitGoesOn(s, sep, start, j);
        }
        j := j + 1;
      }
      SplitEnds(s, sep, start, j);
      EncodeNothing(current, number);
      assert all == written;
    }

    /** What the macros of er-coap.h keep: everything below `n` is written. */
    ghost predicate Written(m: Packet, n: nat)
      reads this, buffer
    {
      WrittenAs(m, n, option, currentNumber, buffer[..])
    }

    /** COAP_SERIALIZE_INT_OPTION, and COAP_SERIALIZE_BLOCK_OPTION on the packed block. */
    method PutInt(m: Packet, ghost from: nat, number: nat, value: uint32)
      requires Written(m, from) && number <= SIZE1 && Gap(m, from, number)
      requires FieldOptions(m, number) == if m.options[number] then [Opt(number, IntBytes(value))] else []
      modifies this, buffer
      ensures Written(m, number + 1)
    {
      hide Encode, FieldOptions, WrittenAs, Gap, LastNumber, IntBytes, EncodeOne, Appends, Ordered;
      Reach(m, from, number, option, currentNumber, buffer[..]);
      ghost var s0, at, current := buffer[..], option, currentNumber;
      if m.options[number] {
        EncodeSingle(currentNumber, Opt(number, IntBytes(value)));
        var n := IntOption(number, currentNumber, option, value);
        option, currentNumber := option + n, number;
      } else {
        EncodeNone(currentNumber, s0, at);
      }
      Extend(m, number, at, current, s0, buffer[..]);
    }

    /** COAP_SERIALIZE_BYTE_OPTION, and COAP_SERIALIZE_STRING_OPTION without a splitter. */
    method PutBytes(m: Packet, ghost from: nat, number: nat, value: seq<byte>)
      requires Written(m, from) && number <= SIZE1 && Gap(m, from, number) && |value| <= MAX_EXTENDED
      requires FieldOptions(m, number) == if m.options[number] then [Opt(number, value)] else []
      modifies this, buffer
      ensures Written(m, number + 1)
    {
      hide Encode, FieldOptions, WrittenAs, Gap, LastNumber, EncodeOne, Appends, Ordered;
      Reach(m, from, number, option, currentNumber, buffer[..]);
      ghost var s0, at, current := buffer[..], option, currentNumber;
      if m.options[number] {
        EncodeSingle(currentNumber, Opt(number, value));
        var n := ArrayOption(number, currentNumber, option, value);
        option, currentNumber := option + n, number;
      } else {
        EncodeNone(currentNumber, s0, at);
      }
      Extend(m, number, at, current, s0, buffer[..]);
    }

    /** COAP_SERIALIZE_STRING_OPTION with a splitter. */
    method PutString(m: Packet, ghost from: nat, number: nat, value: seq<byte>, sep: byte)
      requires Written(m, from) && number <= SIZE1 && Gap(m, from, number) && |value| <= MAX_EXTENDED
      requires FieldOptions(m, number) == if m.options[number] then Parts(number, Split(value, sep)) else []
      modifies this, buffer
      ensures Written(m, number + 1)
    {
      hide Encode, FieldOptions, WrittenAs, Gap, LastNumber, Split, Appends, Ordered, Parts;
      Reach(m, from, number, option, currentNumber, buffer[..]);
      ghost var s0, at, current := buffer[..], option, currentNumber;
      if m.options[number] {
        SplitSome(value, sep);
        LastOfParts(currentNumber, number, Split(value, sep));
        var n := SplitOption(number, currentNumber, option, value, sep);
        option, currentNumber := option + n, number;
      } else {
        EncodeNone(currentNumber, s0, at);
      }
      Extend(m, number, at, current, s0, buffer[..]);
    }

    /** The fixed header, with the bits of its first byte put together. */
    method PutHeader(m: Packet)
      requires WellFormed(m) && buffer.Length >= 4
      modifies buffer
      ensures Appends(old(buffer[..]), buffer[..], 0, FixedHeader(m))
    {
      buffer[0] := 1 % 4 * 64 + m.mtype % 4 * 16 + |m.token| % 16;
      buffer[1] := m.code;
      buffer[2] := m.mid / 256;
      buffer[3] := m.mid % 256;
      assert buffer[0..4] == FixedHeader(m);
    }

    /** The token, byte by byte; the counter is the variable that later holds the option number. */
    method PutToken(m: Packet)
      requires WellFormed(m) && COAP_HEADER_LEN + |m.token| <= buffer.Length
      modifies this, buffer
      ensures option == COAP_HEADER_LEN + |m.token| && currentNumber == 0
      ensures Appends(old(buffer[..]), buffer[..], COAP_HEADER_LEN, m.token)
    {
      option := COAP_HEADER_LEN;
      currentNumber := 0;
      while currentNumber < |m.token|
        invariant currentNumber <= |m.token| && option == COAP_HEADER_LEN + currentNumber
        invariant buffer[..COAP_HEADER_LEN] == old(buffer[..COAP_HEADER_LEN])
        invariant forall k :: 0 <= k < currentNumber ==> buffer[COAP_HEADER_LEN + k] == m.token[k]
      {
        buffer[option] := m.token[currentNumber];
        option := option + 1;
        currentNumber := currentNumber + 1;
      }
      currentNumber := 0;
    }

    /** The options from If-Match to Uri-Path, in the order of their numbers. */
    method PutLowOptions(m: Packet)
      requires Written(m, 0)
      modifies this, buffer
      ensures Written(m, URI_PATH + 1)
    {
      hide FieldOptions, WrittenAs, Split, IntBytes, Gap;
      KnowWritten(m, 0, option, currentNumber, buffer[..]);
      LowFields(m);
      PutBytes(m, 0, IF_MATCH, m.ifMatch);
      PutBytes(m, IF_MATCH + 1, URI_HOST, m.uriHost);
      PutBytes(m, URI_HOST + 1, ETAG, m.etag);
      PutInt(m, ETAG + 1, IF_NONE_MATCH, m.contentFormat - m.contentFormat);
      PutInt(m, IF_NONE_MATCH + 1, OBSERVE, m.observe);
      PutInt(m, OBSERVE + 1, URI_PORT, m.uriPort);
      PutString(m, URI_PORT + 1, LOCATION_PATH, m.locationPath, SLASH);
      PutString(m, LOCATION_PATH + 1, URI_PATH, m.uriPath, SLASH);
    }

    /** The options from Content-Format to Size1. */
    method PutHighOptions(m: Packet)
      requires Written(m, URI_PATH + 1)
      modifies this, buffer
      ensures Written(m, SIZE1 + 1)
    {
      hide FieldOptions, WrittenAs, Split, IntBytes, Gap, BlockValue;
      KnowWritten(m, URI_PATH + 1, option, currentNumber, buffer[..]);
      HighFields(m);
      PutInt(m, URI_PATH + 1, CONTENT_FORMAT, m.contentFormat);
      PutInt(m, CONTENT_FORMAT + 1, MAX_AGE, m.maxAge);
      PutString(m, MAX_AGE + 1, URI_QUERY, m.uriQuery, AMPERSAND);
      PutInt(m, URI_QUERY + 1, ACCEPT, m.accept);
      PutString(m, ACCEPT + 1, LOCATION_QUERY, m.locationQuery, AMPERSAND);
      PutInt(m, LOCATION_QUERY + 1, BLOCK2, BlockValue(m.block2));
      PutInt(m, BLOCK2 + 1, BLOCK1, BlockValue(m.block1));
      PutInt(m, BLOCK1 + 1, SIZE2, m.size2);
      PutBytes(m, SIZE2 + 1, PROXY_URI, m.proxyUri);
      PutBytes(m, PROXY_URI + 1, PROXY_SCHEME, m.proxyScheme);
      PutInt(m, PROXY_SCHEME + 1, SIZE1, m.size1);
    }

    /** The payload behind its marker. */
    method PutPayload(payload: seq<byte>)
      requires option + (if payload == [] then 0 else 1 + |payload|) <= buffer.Length
      modifies this`option, buffer
      ensures option == old(option) + if payload == [] then 0 else 1
      ensures Appends(old(buffer[..]), buffer[..], old(option), if payload == [] then [] else [0xFF] + payload)
    {
      if |payload| > 0 {
        buffer[option] := 0xFF;
        option := option + 1;
      }
      forall k | 0 <= k < |payload| {
        buffer[option + k] := payload[k];
      }
    }

    /** coap_serialize_message.  The caller provides the room that the head and the payload
        need; nothing is returned when the head turns out too long. */
    method SerializeMessage(m: Packet) returns (length: nat)
      requires WellFormed(m) && buffer.Length >= 4
      requires m.code != 0 ==> buffer.Length >= |Head(m)| + |Tail(m)|
      modifies this, buffer
      ensures length == |Wire(m)| && buffer[..length] == Wire(m)
    {
      hide FieldOptions, WrittenAs, Encode, FixedHeader, WellFormed, OptionsBelow;
      ghost var s0 := buffer[..];
      PutHeader(m);
      HeadFits(m);
      if m.code == 0 {
        return 4;
      }
      ghost var s1 := buffer[..];
      PutToken(m);
      AppendsTwice(s0, s1, buffer[..], 0, FixedHeader(m), m.token);
      Begin(m, buffer[..]);
      PutLowOptions(m);
      PutHighOptions(m);
      AllWritten(m, option, currentNumber, buffer[..]);
      if option <= COAP_MAX_HEADER_SIZE {
        PutPayload(m.payload);
        assert buffer[..|Head(m)| + |Tail(m)|] == Head(m) + Tail(m);
        length := option + |m.payload|;
      } else {
        length := 0;
      }
    }
  }

  lemma KnowWritten(m: Packet, n: nat, option: nat, current: nat, bytes: seq<byte>)
    requires WrittenAs(m, n, option, current, bytes)
    ensures WellFormed(m)
  {
  }

  lemma LowFields(m: Packet)
    requires |m.options| == OPTION_BITS
    ensures Gap(m, 0, IF_MATCH) && Gap(m, IF_MATCH + 1, URI_HOST) && Gap(m, URI_HOST + 1, ETAG)
    ensures Gap(m, ETAG + 1, IF_NONE_MATCH) && Gap(m, IF_NONE_MATCH + 1, OBSERVE) && Gap(m, OBSERVE + 1, URI_PORT)
    ensures Gap(m, URI_PORT + 1, LOCATION_PATH) && Gap(m, LOCATION_PATH + 1, URI_PATH)
    ensures FieldOptions(m, IF_MATCH) == if m.options[IF_MATCH] then [Opt(IF_MATCH, m.ifMatch)] else []
    ensures FieldOptions(m, URI_HOST) == if m.options[URI_HOST] then [Opt(URI_HOST, m.uriHost)] else []
    ensures FieldOptions(m, ETAG) == if m.options[ETAG] then [Opt(ETAG, m.etag)] else []
    ensures FieldOptions(m, IF_NONE_MATCH) == if m.options[IF_NONE_MATCH] then [Opt(IF_NONE_MATCH, IntBytes(0))] else []
    ensures FieldOptions(m, OBSERVE) == if m.options[OBSERVE] then [Opt(OBSERVE, IntBytes(m.observe))] else []
    ensures FieldOptions(m, URI_PORT) == if m.options[URI_PORT] then [Opt(URI_PORT, IntBytes(m.uriPort))] else []
    ensures FieldOptions(m, LOCATION_PATH)
         == if m.options[LOCATION_PATH] then Parts(LOCATION_PATH, Split(m.locationPath, SLASH)) else []
    ensures FieldOptions(m, URI_PATH) == if m.options[URI_PATH] then Parts(URI_PATH, Split(m.uriPath, SLASH)) else []
  {
    hide Split, IntBytes;
  }

  lemma HighFields(m: Packet)
    requires |m.options| == OPTION_BITS
    ensures Gap(m, URI_PATH + 1, CONTENT_FORMAT) && Gap(m, CONTENT_FORMAT + 1, MAX_AGE)
        && Gap(m, MAX_AGE + 1, URI_QUERY)
    ensures Gap(m, URI_QUERY + 1, ACCEPT) && Gap(m, ACCEPT + 1, LOCATION_QUERY) && Gap(m, LOCATION_QUERY + 1, BLOCK2)
    ensures Gap(m, BLOCK2 + 1, BLOCK1) && Gap(m, BLOCK1 + 1, SIZE2) && Gap(m, SIZE2 + 1, PROXY_URI)
    ensures Gap(m, PROXY_URI + 1, PROXY_SCHEME) && Gap(m, PROXY_SCHEME + 1, SIZE1)
    ensures FieldOptions(m, CONTENT_FORMAT)
         == if m.options[CONTENT_FORMAT] then [Opt(CONTENT_FORMAT, IntBytes(m.contentFormat))] else []
    ensures FieldOptions(m, MAX_AGE) == if m.options[MAX_AGE] then [Opt(MAX_AGE, IntBytes(m.maxAge))] else []
    ensures FieldOptions(m, URI_QUERY)
         == if m.options[URI_QUERY] then Parts(URI_QUERY, Split(m.uriQuery, AMPERSAND)) else []
    ensures FieldOptions(m, ACCEPT) == if m.options[ACCEPT] then [Opt(ACCEPT, IntBytes(m.accept))] else []
    ensures FieldOptions(m, LOCATION_QUERY)
         == if m.options[LOCATION_QUERY] then Parts(LOCATION_QUERY, Split(m.locationQuery, AMPERSAND)) else []
    ensures FieldOptions(m, BLOCK2) == if m.options[BLOCK2] then [Opt(BLOCK2, IntBytes(BlockValue(m.block2)))] else []
    ensures FieldOptions(m, BLOCK1) == if m.options[BLOCK1] then [Opt(BLOCK1, IntBytes(BlockValue(m.block1)))] else []
    ensures FieldOptions(m, SIZE2) == if m.options[SIZE2] then [Opt(SIZE2, IntBytes(m.size2))] else []
    ensures FieldOptions(m, PROXY_URI) == if m.options[PROXY_URI] then [Opt(PROXY_URI, m.proxyUri)] else []
    ensures FieldOptions(m, PROXY_SCHEME) == if m.options[PROXY_SCHEME] then [Opt(PROXY_SCHEME, m.proxyScheme)] else []
    ensures FieldOptions(m, SIZE1) == if m.options[SIZE1] then [Opt(SIZE1, IntBytes(m.size1))] else []
  {
    hide Split, IntBytes, BlockValue;
  }

  lemma HeadFits(m: Packet)
    requires WellFormed(m)
    ensures |m.options| == OPTION_BITS && |FixedHeader(m)| == COAP_HEADER_LEN
    ensures COAP_HEADER_LEN + |m.token| <= |Head(m)|
  {
    hide Encode, OptionsBelow;
  }

  lemma Begin(m: Packet, bytes: seq<byte>)
    requires WellFormed(m) && |bytes| >= |Head(m)|
    requires Has(bytes, 0, FixedHeader(m) + m.token)
    ensures WrittenAs(m, 0, COAP_HEADER_LEN + |m.token|, 0, bytes)
  {
    assert Coded(m, 0) == [];
    assert HeadBelow(m, 0) == FixedHeader(m) + m.token;
    assert HeadBelow(m, SIZE1 + 1) == Head(m);
  }

  lemma AllWritten(m: Packet, option: nat, current: nat, bytes: seq<byte>)
    requires WrittenAs(m, SIZE1 + 1, option, current, bytes)
    ensures WellFormed(m) && option == |Head(m)| <= |bytes| && bytes[..option] == Head(m)
  {
    hide Encode, OptionsBelow;
    assert HeadBelow(m, SIZE1 + 1) == Head(m);
  }

  /** A serializer at position `option`, with everything below `n` written. */
  predicate WrittenAs(m: Packet, n: nat, option: nat, current: nat, bytes: seq<byte>) {
    && WellFormed(m) && n <= SIZE1 + 1
    && Has(bytes, 0, HeadBelow(m, n)) && option == |HeadBelow(m, n)|
    && current == LastNumber(0, OptionsBelow(m, n))
    && |HeadBelow(m, SIZE1 + 1)| <= |bytes|
  }

  lemma Reach(m: Packet, from: nat, number: nat, option: nat, current: nat, bytes: seq<byte>)
    requires WrittenAs(m, from, option, current, bytes) && number <= SIZE1 && Gap(m, from, number)
    ensures WrittenAs(m, number, option, current, bytes) && current <= number
    ensures |m.options| == OPTION_BITS && Ordered(current, FieldOptions(m, number))
    ensures option + |Encode(current, FieldOptions(m, number))| <= |bytes|
  {
    hide FieldOptions, Encode, OptionsBelow, Gap, LastNumber;
    GapSkips(m, from, number);
    CodedStep(m, number);
    CodedGrows(m, number + 1, SIZE1 + 1);
  }

  lemma Extend(m: Packet, number: nat, option: nat, current: nat, s0: seq<byte>, s1: seq<byte>)
    requires WrittenAs(m, number, option, current, s0) && number <= SIZE1
    requires Ordered(current, FieldOptions(m, number))
    requires Appends(s0, s1, option, Encode(current, FieldOptions(m, number)))
    ensures WrittenAs(m, number + 1, option + |Encode(current, FieldOptions(m, number))|,
                      LastNumber(current, FieldOptions(m, number)), s1)
  {
    hide FieldOptions, Encode, OptionsBelow, LastNumber, Coded;
    CodedStep(m, number);
    var w := Encode(current, FieldOptions(m, number));
    var head := FixedHeader(m) + m.token;
    assert HeadBelow(m, number + 1) == HeadBelow(m, number) + w
      by { assert head + (Coded(m, number) + w) == head + Coded(m, number) + w; }
    assert s1[..option] == s0[..option] == HeadBelow(m, number);
    HasSplit(s1, 0, HeadBelow(m, number), w);
  }

  lemma OneIsHeader(prev: nat, number: nat, v: seq<byte>)
    requires prev <= number <= SIZE1 && |v| <= MAX_EXTENDED
    ensures EncodeOne(prev, Opt(number, v)) == Header(number - prev, |v|) + v
  {
  }

  lemma EncodeSingle(prev: nat, o: Opt)
    requires prev <= o.number <= SIZE1 && |o.value| <= MAX_EXTENDED
    ensures Ordered(prev, [o]) && Encode(prev, [o]) == EncodeOne(prev, o) && LastNumber(prev, [o]) == o.number
  {
    hide EncodeOne;
    assert [o][1..] == [];
    assert EncodeOne(prev, o) + [] == EncodeOne(prev, o);
  }

  lemma EncodeNone(prev: nat, bytes: seq<byte>, at: nat)
    requires at <= |bytes|
    ensures Ordered(prev, []) && Encode(prev, []) == [] && LastNumber(prev, []) == prev
    ensures Appends(bytes, bytes, at, [])
  {
  }

  lemma EncodeNothing(prev: nat, number: nat)
    ensures Ordered(prev, Parts(number, [])) && Encode(prev, Parts(number, [])) == []
  {
  }

  lemma LastOfParts(prev: nat, number: nat, parts: seq<seq<byte>>)
    requires parts != []
    ensures LastNumber(prev, Parts(number, parts)) == number
  {
  }

  lemma SplitCuts(s: seq<byte>, sep: byte, start: nat, j: nat)
    requires start <= j <= |s| && (j == |s| || s[j] == sep)
    ensures SplitFrom(s, sep, start, j) == [s[start..j]] + SplitFrom(s, sep, j + 1, j + 2)
  {
  }

  lemma PrefixFits(a: seq<byte>, b: seq<byte>)
    requires a <= b
    ensures |a| <= |b|
  {
  }

  /** The scan meets the end of a part: its option comes first, the parts behind it follow. */
  lemma SplitStep(s: seq<byte>, sep: byte, number: nat, current: nat, start: nat, j: nat, written: seq<byte>,
                  all: seq<byte>)
    requires current <= number <= SIZE1 && |s| <= MAX_EXTENDED && start <= j <= |s| && (j == |s| || s[j] == sep)
    requires Ordered(current, Parts(number, SplitFrom(s, sep, start, j)))
    requires all == written + Encode(current, Parts(number, SplitFrom(s, sep, start, j)))
    ensures var w := written + EncodeOne(current, Opt(number, s[start..j]));
            && Ordered(number, Parts(number, SplitFrom(s, sep, j + 1, j + 2)))
            && all == w + Encode(number, Parts(number, SplitFrom(s, sep, j + 1, j + 2))) && w <= all
  {
    hide Encode, EncodeOne, Ordered, SplitFrom, Parts;
    SplitCuts(s, sep, start, j);
    var rest := SplitFrom(s, sep, j + 1, j + 2);
    PartsOrdered(number, s, sep, j + 1, j + 2);
    PartsFirst(current, number, s[start..j], rest);
    OneIsHeader(current, number, s[start..j]);
    var one := EncodeOne(current, Opt(number, s[start..j]));
    assert written + (one + Encode(number, Parts(number, rest))) == written + one + Encode(number, Parts(number, rest));
  }

  lemma SplitGoesOn(s: seq<byte>, sep: byte, start: nat, j: nat)
    requires start <= j <= |s| + 1 && j != |s| && (j < |s| ==> s[j] != sep)
    ensures SplitFrom(s, sep, start, j) == SplitFrom(s, sep, start, j + 1)
  {
  }

  lemma SplitEnds(s: seq<byte>, sep: byte, start: nat, j: nat)
    requires start <= j && j > |s|
    ensures SplitFrom(s, sep, start, j) == []
  {
  }

  // ----- reading ------------------------------------------------------------------------

  /** A pointer into the datagram with a length. */
  datatype Span = Span(at: nat, len: nat)

  datatype Spans = Spans(uriHost: Span, locationPath: Span, uriPath: Span, uriQuery: Span, locationQuery: Span,
                         payload: Span)

  const NOTHING: Span := Span(0, 0)

  function Text(d: seq<byte>, s: Span): seq<byte>
    requires s.at + s.len <= |d|
  {
    d[s.at..s.at + s.len]
  }

  function SpanOf(s: Spans, n: nat): Span {
    if n == URI_HOST then s.uriHost
    else if n == LOCATION_PATH then s.locationPath else if n == URI_PATH then s.uriPath
    else if n == URI_QUERY then s.uriQuery else s.locationQuery
  }

  function WithSpan(s: Spans, n: nat, x: Span): Spans {
    if n == LOCATION_PATH then s.(locationPath := x) else if n == URI_PATH then s.(uriPath := x)
    else if n == URI_QUERY then s.(uriQuery := x) else s.(locationQuery := x)
  }

  predicate HasSpan(n: nat) { n == URI_HOST || InParts(n) }

  /**
    Where the strings are once the options before `pos` have been read, the last of number
    `number`, whose first value begins at or behind `lo`: strings of smaller numbers end
    before `lo`, strings of larger ones are still empty.
   */
  ghost predicate Separate(s: Spans, number: nat, lo: nat, pos: nat) {
    && lo <= pos && s.payload == NOTHING
    && forall k :: HasSpan(k) ==> Placed(SpanOf(s, k), k, number, lo, pos)
  }

  predicate Placed(x: Span, k: nat, number: nat, lo: nat, pos: nat) {
    && x.at + x.len <= pos
    && (k < number ==> x.at + x.len <= lo)
    && (k == number && x.len > 0 ==> x.at >= lo)
    && (k > number ==> x == NOTHING)
  }

  ghost predicate Within(s: Spans, n: nat) {
    && (forall k :: HasSpan(k) ==> SpanOf(s, k).at + SpanOf(s, k).len <= n)
    && s.payload.at + s.payload.len <= n
  }

  /** The packet with the text of its strings. */
  ghost function View(d: seq<byte>, p: Packet, s: Spans): Packet
    requires Within(s, |d|)
  {
    assert HasSpan(URI_HOST) && HasSpan(LOCATION_PATH) && HasSpan(URI_PATH) && HasSpan(URI_QUERY)
        && HasSpan(LOCATION_QUERY);
    p.(uriHost := Text(d, SpanOf(s, URI_HOST)), locationPath := Text(d, SpanOf(s, LOCATION_PATH)),
       uriPath := Text(d, SpanOf(s, URI_PATH)), uriQuery := Text(d, SpanOf(s, URI_QUERY)),
       locationQuery := Text(d, SpanOf(s, LOCATION_QUERY)), payload := Text(d, s.payload))
  }

  /** What in-place merging into `dst` leaves alone: everything but the bytes between the
      end of `dst` and the end of the option. */
  predicate MergesInto(before: seq<byte>, after: seq<byte>, dst: Span, end: nat) {
    && |after| == |before| && end <= |before|
    && after[end..] == before[end..]
    && (if dst.len == 0 then after == before
        else dst.at + dst.len <= |before| && after[..dst.at + dst.len] == before[..dst.at + dst.len])
  }

  /** The next option: the number grows or stays, and the space behind `lo` with it. */
  function NextLo(number: nat, next: nat, lo: nat, pos: nat): nat { if next == number then lo else pos }

  lemma SeparateNext(s: Spans, number: nat, next: nat, lo: nat, pos: nat, at: nat)
    requires Separate(s, number, lo, pos) && number <= next && pos <= at
    ensures Separate(s, next, NextLo(number, next, lo, pos), at)
  {
    forall k | HasSpan(k)
      ensures Placed(SpanOf(s, k), k, next, NextLo(number, next, lo, pos), at)
    {
      assert Placed(SpanOf(s, k), k, number, lo, pos);
    }
  }

  /** Merging keeps every string but the one that it extends. */
  lemma MergeKeepsOthers(before: seq<byte>, after: seq<byte>, s: Spans, n: nat, k: nat, lo: nat, pos: nat, end: nat)
    requires Separate(s, n, lo, pos) && pos <= end <= |before| && InParts(n) && HasSpan(k) && k != n
    requires MergesInto(before, after, SpanOf(s, n), end)
    ensures SpanOf(s, k).at + SpanOf(s, k).len <= |before|
    ensures Text(after, SpanOf(s, k)) == Text(before, SpanOf(s, k))
  {
    var x, dst := SpanOf(s, k), SpanOf(s, n);
    assert Placed(x, k, n, lo, pos) && Placed(dst, n, n, lo, pos);
    if dst.len > 0 && x.len > 0 {
      SamePart(before, after, dst.at + dst.len, x.at, x.at + x.len);
    }
  }

  lemma SamePart(a: seq<byte>, b: seq<byte>, end: nat, lo: nat, hi: nat)
    requires lo <= hi <= end <= |a| && end <= |b| && a[..end] == b[..end]
    ensures a[lo..hi] == b[lo..hi]
  {
    forall k | lo <= k < hi
      ensures a[k] == b[k]
    {
      assert a[k] == a[..end][k] && b[k] == b[..end][k];
    }
  }

  /** A merged string in the view of the packet. */
  lemma MergedView(before: seq<byte>, after: seq<byte>, p: Packet, s: Spans, n: nat, x: Span,
                   lo: nat, pos: nat, at: nat, length: nat)
    requires Separate(s, n, lo, pos) && pos <= at && at + length <= |before| && InParts(n)
    requires MergesInto(before, after, SpanOf(s, n), at + length)
    requires x.at + x.len <= at + length && (x.len > 0 ==> x.at >= lo)
    requires Within(s, |before|)
    requires Text(after, x) == Merge(Text(before, SpanOf(s, n)), before[at..at + length], Separator(n))
    ensures Separate(WithSpan(s, n, x), n, lo, at + length) && Within(WithSpan(s, n, x), |after|)
    ensures (NO_ERROR, View(after, p, WithSpan(s, n, x))) == Apply(View(before, p, s), n, before[at..at + length])
  {
    hide Merge, Text, MergesInto;
    var t := WithSpan(s, n, x);
    forall k | HasSpan(k)
      ensures Placed(SpanOf(t, k), k, n, lo, at + length)
    {
      assert Placed(SpanOf(s, k), k, n, lo, pos);
    }
    forall k | HasSpan(k) && k != n
      ensures SpanOf(s, k).at + SpanOf(s, k).len <= |before| == |after|
      ensures Text(after, SpanOf(s, k)) == Text(before, SpanOf(s, k)) && SpanOf(t, k) == SpanOf(s, k)
    {
      SameLength(before, after, SpanOf(s, n), at + length);
      MergeKeepsOthers(before, after, s, n, k, lo, pos, at + length);
    }
    SameLength(before, after, SpanOf(s, n), at + length);
    TextNothing(before, after);
    assert HasSpan(URI_HOST) && HasSpan(LOCATION_PATH) && HasSpan(URI_PATH) && HasSpan(URI_QUERY)
        && HasSpan(LOCATION_QUERY);
  }

  lemma SameLength(before: seq<byte>, after: seq<byte>, dst: Span, end: nat)
    requires MergesInto(before, after, dst, end)
    ensures |before| == |after|
  {
  }

  lemma TextNothing(before: seq<byte>, after: seq<byte>)
    ensures Text(before, NOTHING) == Text(after, NOTHING) == []
  {
  }

  /** The separator and the option behind the destination. */
  lemma MovedBehind(before: seq<byte>, after: seq<byte>, dst: Span, at: nat, length: nat, sep: byte)
    requires |after| == |before| && dst.at + dst.len < at && at + length <= |before| && dst.len > 0
    requires var e := dst.at + dst.len;
             && (forall k :: 0 <= k < e || e + 1 + length <= k < |before| ==> after[k] == before[k])
             && after[e] == sep && (forall k :: e + 1 <= k < e + 1 + length ==> after[k] == before[at + k - e - 1])
    ensures MergesInto(before, after, dst, at + length)
    ensures Text(after, Span(dst.at, dst.len + 1 + length)) == Text(before, dst) + [sep] + before[at..at + length]
  {
    var e := dst.at + dst.len;
    SameItems(before, after, 0, e);
    SameItems(before, after, at + length, |before|);
    SameItems(before, after, dst.at, e);
    var moved := after[e + 1..e + 1 + length];
    assert moved == before[at..at + length] by {
      forall k | 0 <= k < length
        ensures moved[k] == before[at..at + length][k]
      {
        assert moved[k] == after[e + 1 + k];
      }
    }
    assert after[dst.at..e + 1 + length] == after[dst.at..e] + [after[e]] + moved;
  }

  lemma SameItems(a: seq<byte>, b: seq<byte>, lo: nat, hi: nat)
    requires lo <= hi <= |a| && hi <= |b| && forall k :: lo <= k < hi ==> b[k] == a[k]
    ensures a[lo..hi] == b[lo..hi]
  {
  }

  lemma TextSplit(d: seq<byte>, dst: Span, at: nat, length: nat)
    requires at + length <= |d| && dst.at + dst.len <= |d|
    ensures |Text(d, dst)| == dst.len && Text(d, Span(at, length)) == d[at..at + length]
    ensures dst.len == 0 ==> MergesInto(d, d, dst, at + length)
  {
  }

  lemma ParseIntGrows(d: seq<byte>, at: nat, i: nat)
    requires at + i < |d|
    ensures ParseInt(d[at..at + i + 1]) as int == ((ParseInt(d[at..at + i]) as int) * 256 + d[at + i] as int) % U32
  {
    assert d[at..at + i + 1][..i] == d[at..at + i];
  }

  lemma AtMostSlice(d: seq<byte>, at: nat, length: nat, n: nat, most: nat)
    requires at + length <= |d| && n == if most < length then most else length
    ensures d[at..at + n] == AtMost(d[at..at + length], most)
  {
  }

  class Parser {
    const data: array<byte>
    var packet: Packet
    var spans: Spans

    constructor (data: array<byte>)
      ensures this.data == data
    {
      this.data := data;
      packet := Blank(0, 0, 0, 0, []);
      spans := Spans(NOTHING, NOTHING, NOTHING, NOTHING, NOTHING, NOTHING);
    }

    /** coap_parse_int_option. */
    method ParseIntOption(at: nat, length: nat) returns (v: uint32)
      requires at + length <= data.Length
      ensures v == ParseInt(data[..][at..at + length])
    {
      hide ParseInt;
      v := 0;
      var i := 0;
      ParseIntEmpty();
      assert data[..][at..at] == [];
      while i < length
        invariant 0 <= i <= length && v == ParseInt(data[..][at..at + i])
      {
        ParseIntGrows(data[..], at, i);
        v := (v * 256) % U32 + data[at + i];
        i := i + 1;
      }
    }

    /** coap_merge_multi_option: moves the option behind the destination, over its header. */
    method MergeMultiOption(dst: Span, at: nat, length: nat, separator: byte) returns (r: Span)
      requires at + length <= data.Length && (if dst.len > 0 then dst.at + dst.len < at else dst.at <= at)
      modifies data
      ensures MergesInto(old(data[..]), data[..], dst, at + length)
      ensures r.at + r.len <= at + length && r.at == if dst.len > 0 then dst.at else at
      ensures Text(data[..], r) == Merge(old(Text(data[..], dst)), old(data[at..at + length]), separator)
    {
      hide MergesInto, Text;
      TextSplit(data[..], dst, at, length);
      if dst.len > 0 {
        data[dst.at + dst.len] := separator;
        var len := dst.len + 1;
        forall k | 0 <= k < length {
          data[dst.at + len + k] := data[at + k];
        }
        r := Span(dst.at, len + length);
        MovedBehind(old(data[..]), data[..], dst, at, length, separator);
        assert old(data[..])[at..at + length] == old(data[at..at + length]);
      } else {
        r := Span(at, length);
      }
    }

    /** A nibble of an option header with its extension bytes. */
    method ReadExtended(nibble: nat, at: nat) returns (value: nat, pos: nat)
      requires at + 2 <= data.Length
      ensures (value, pos - at) == Extended(data[..], nibble, at) && at <= pos <= at + 2
    {
      value, pos := nibble, at;
      if value == 13 {
        value := value + data[pos];
        pos := pos + 1;
      } else if value == 14 {
        value := value + 255;
        value := value + (data[pos] as int) * 256;
        pos := pos + 1;
        value := value + data[pos];
        pos := pos + 1;
      }
    }

    /** The packet as it stands. */
    ghost function Contents(): (p: Packet)
      requires Within(spans, data.Length)
      reads this, data
      ensures |p.options| == |packet.options|
    {
      ViewOptions(data[..], packet, spans);
      View(data[..], packet, spans)
    }

    /** One of the four options whose repetitions are joined in place. */
    method StringOption(number: nat, at: nat, length: nat, ghost lo: nat, ghost pos: nat)
      requires InParts(number) && Separate(spans, number, lo, pos) && pos < at && at + length <= data.Length
      requires Within(spans, data.Length)
      modifies this`spans, data
      ensures Separate(spans, number, lo, at + length) && Within(spans, data.Length)
      ensures (NO_ERROR, Contents()) == Apply(old(Contents()), number, old(data[at..at + length]))
      ensures data[at + length..] == old(data[at + length..])
    {
      hide Apply, Separate, Within, View, Merge;
      DstBefore(spans, number, lo, pos);
      ghost var s0, t0 := data[..], spans;
      var x;
      if number == URI_PATH {
        x := MergeMultiOption(spans.uriPath, at, length, SLASH);
        spans := spans.(uriPath := x);
      } else if number == URI_QUERY {
        x := MergeMultiOption(spans.uriQuery, at, length, AMPERSAND);
        spans := spans.(uriQuery := x);
      } else if number == LOCATION_PATH {
        x := MergeMultiOption(spans.locationPath, at, length, SLASH);
        spans := spans.(locationPath := x);
      } else {
        x := MergeMultiOption(spans.locationQuery, at, length, AMPERSAND);
        spans := spans.(locationQuery := x);
      }
      assert spans == WithSpan(t0, number, x);
      assert s0[at..at + length] == old(data[at..at + length]);
      MergedView(s0, data[..], packet, t0, number, x, lo, pos, at, length);
    }

    /** The switch over the option number, on the value in the datagram. */
    method Option(number: nat, at: nat, length: nat, ghost lo: nat, ghost pos: nat) returns (status: Status)
      requires Separate(spans, number, lo, pos) && pos < at && at + length <= data.Length
      requires Within(spans, data.Length)
      modifies this, data
      ensures Separate(spans, number, lo, at + length) && Within(spans, data.Length)
      ensures (status, Contents()) == Apply(old(Contents()), number, old(data[at..at + length]))
      ensures data[at + length..] == old(data[at + length..])
      ensures packet.options == old(packet.options)
    {
      hide Separate, Within, ParseInt, View;
      ghost var p0, value := packet, data[..][at..at + length];
      assert value == data[at..at + length];
      status := NO_ERROR;
      SeparateGrows(spans, number, lo, pos, at + length);
      if number == CONTENT_FORMAT {
        var v := ParseIntOption(at, length);
        packet := packet.(contentFormat := Truncate16(v));
      } else if number == MAX_AGE {
        var v := ParseIntOption(at, length);
        packet := packet.(maxAge := v);
      } else if number == ETAG {
        var n := if COAP_ETAG_LEN < length then COAP_ETAG_LEN else length;
        AtMostSlice(data[..], at, length, n, COAP_ETAG_LEN);
        packet := packet.(etag := data[at..at + n]);
      } else if number == ACCEPT {
        var v := ParseIntOption(at, length);
        packet := packet.(accept := Truncate16(v));
      } else if number == IF_MATCH {
        var n := if COAP_ETAG_LEN < length then COAP_ETAG_LEN else length;
        AtMostSlice(data[..], at, length, n, COAP_ETAG_LEN);
        packet := packet.(ifMatch := data[at..at + n]);
      } else if number == IF_NONE_MATCH {
        packet := packet.(ifNoneMatch := true);
      } else if number == PROXY_URI || number == PROXY_SCHEME {
        status := PROXYING_NOT_SUPPORTED_5_05;
      } else if number == URI_HOST {
        HostView(data[..], packet, spans, lo, pos, at, length);
        spans := spans.(uriHost := Span(at, length));
      } else if number == URI_PORT {
        var v := ParseIntOption(at, length);
        packet := packet.(uriPort := Truncate16(v));
      } else if number == URI_PATH || number == URI_QUERY || number == LOCATION_PATH || number == LOCATION_QUERY {
        StringOption(number, at, length, lo, pos);
      } else if number == OBSERVE {
        var v := ParseIntOption(at, length);
        packet := packet.(observe := v);
      } else if number == BLOCK2 {
        var v := ParseIntOption(at, length);
        packet := packet.(block2 := ParseBlock(v));
      } else if number == BLOCK1 {
        var v := ParseIntOption(at, length);
        packet := packet.(block1 := ParseBlock(v));
      } else if number == SIZE2 {
        var v := ParseIntOption(at, length);
        packet := packet.(size2 := v);
      } else if number == SIZE1 {
        var v := ParseIntOption(at, length);
        packet := packet.(size1 := v);
      } else if number % 2 == 1 {
        status := BAD_OPTION_4_02;
      }
      if !HasSpan(number) {
        assert (status, packet) == Apply(p0, number, value);
        ScalarView(data[..], p0, spans, number, value);
      }
    }

    /** The payload behind its marker, cut at the chunk size and terminated in the buffer. */
    method Payload(pos: nat, n: nat, ghost number: nat, ghost lo: nat)
      requires pos < n < data.Length && Separate(spans, number, lo, pos) && Within(spans, data.Length)
      modifies this`spans, data
      ensures Within(spans, data.Length)
      ensures Contents() == old(Contents()).(payload := AtMost(old(data[pos + 1..n]), REST_MAX_CHUNK_SIZE))
      ensures data[n + 1..] == old(data[n + 1..])
    {
      hide Separate, Within;
      ghost var s0, t0 := data[..], spans;
      var length := n - (pos + 1);
      if length > REST_MAX_CHUNK_SIZE {
        length := REST_MAX_CHUNK_SIZE;
      }
      spans := spans.(payload := Span(pos + 1, length));
      data[pos + 1 + length] := 0;
      PayloadView(s0, data[..], packet, t0, number, lo, pos, length);
      assert AtMost(s0[pos + 1..n], REST_MAX_CHUNK_SIZE) == s0[pos + 1..pos + 1 + length];
      assert s0[pos + 1..n] == old(data[pos + 1..n]);
    }

    /** The option at `pos` of the datagram that came as `d`. */
    method NextOption(n: nat, pos: nat, number: nat, ghost lo: nat, ghost d: seq<byte>)
      returns (status: Status, end: nat, next: nat, ghost space: nat)
      requires data.Length == |d| >= n + SLACK && pos < n && d[pos] / 16 != 15 && data[pos..] == d[pos..]
      requires Separate(spans, number, lo, pos) && Within(spans, data.Length) && |packet.options| == OPTION_BITS
      modifies this, data
      ensures Within(spans, data.Length) && |packet.options| == OPTION_BITS && data[n + 1..] == d[n + 1..]
      ensures status != NO_ERROR ==> (status, Contents()) == ParseFrom(d, n, pos, number, old(Contents()))
      ensures status == NO_ERROR ==>
                && pos < end <= n && next <= SIZE1 && Separate(spans, next, space, end) && data[end..] == d[end..]
                && ParseFrom(d, n, end, next, Contents()) == ParseFrom(d, n, pos, number, old(Contents()))
    {
      hide Separate, Within, View, Apply, ParseFrom, ReadHeader, NextLo, SetOption;
      ParseTurn(d, n, pos, number, Contents());
      SameHeader(data[..], d, pos);
      SameTail(data[..], d, pos, n + 1);
      var delta, length, at := Header(pos);
      end, next, space := at + length, number + delta, NextLo(number, number + delta, lo, pos);
      if end > n {
        status := BAD_REQUEST_4_00;
        return;
      }
      if next > SIZE1 {
        status := BAD_REQUEST_4_00;
        return;
      }
      SeparateNext(spans, number, next, lo, pos, pos);
      OptionView(data[..], packet, spans, next);
      packet := SetOption(packet, next);
      SameSlice(data[..], d, pos, at, end);
      SameTail(data[..], d, pos, end);
      status := Option(next, at, length, space, pos);
      SameTail(data[..], d, end, n + 1);
    }

    /**
      coap_parse_message, on any datagram of `n` bytes: status and packet are those of
      ParseMessage on the datagram as it came, although paths and queries are joined inside
      it while it is read.  Behind the datagram at most one byte changes.
     */
    method ParseMessage(n: nat) returns (status: Status)
      requires data.Length >= n + SLACK
      modifies this, data
      ensures Within(spans, data.Length)
      ensures (status, Contents()) == CoapMessage.ParseMessage(old(data[..]), n)
      ensures data[n + 1..] == old(data[n + 1..])
    {
      hide Separate, Within, View, Apply, ParseFrom, ReadHeader;
      ghost var d := data[..];
      spans := Spans(NOTHING, NOTHING, NOTHING, NOTHING, NOTHING, NOTHING);
      packet := Blank(data[0] / 64, data[0] / 16 % 4, data[1], (data[2] as int) * 256 + data[3] as int, []);
      var tokenLength := data[0] % 16;
      BlankView(d, packet, spans, COAP_HEADER_LEN);
      if packet.version != 1 {
        return BAD_REQUEST_4_00;
      }
      if tokenLength > COAP_TOKEN_LEN {
        return BAD_REQUEST_4_00;
      }
      packet := packet.(token := data[COAP_HEADER_LEN..COAP_HEADER_LEN + tokenLength]);
      var pos: nat, number: nat := COAP_HEADER_LEN + tokenLength, 0;
      BlankView(d, packet, spans, pos);
      ghost var lo: nat, result := pos, ParseFrom(d, n, pos, 0, packet);
      assert d == data[..] && result == CoapMessage.ParseMessage(d, n);
      while pos < n
        invariant Separate(spans, number, lo, pos) && Within(spans, data.Length) && pos <= data.Length
        invariant |packet.options| == OPTION_BITS && number <= SIZE1
        invariant data[pos..] == d[pos..] && (pos > n ==> data[..] == d)
        invariant ParseFrom(d, n, pos, number, Contents()) == result
        decreases n - pos
      {
        assert data[pos] == data[pos..][0] == d[pos];
        ParseTurn(d, n, pos, number, Contents());
        if data[pos] / 16 == 15 {
          SameSlice(data[..], d, pos, pos + 1, n);
          SameTail(data[..], d, pos, n + 1);
          Payload(pos, n, number, lo);
          return NO_ERROR;
        }
        status, pos, number, lo := NextOption(n, pos, number, lo, d);
        if status != NO_ERROR {
          return;
        }
      }
      if pos <= n {
        SameTail(data[..], d, pos, n + 1);
      }
      ParseEnds(d, n, pos, number, Contents());
      status := NO_ERROR;
    }

    /** An option header: delta, length and the position of the value. */
    method Header(pos: nat) returns (delta: nat, length: nat, at: nat)
      requires pos + 5 <= data.Length
      ensures (delta, length, at) == ReadHeader(data[..], pos)
    {
      hide Extended;
      delta, at := ReadExtended(data[pos] / 16, pos + 1);
      length, at := ReadExtended(data[pos] % 16, at);
    }
  }

  /** What the loop does with the option at `pos`. */
  lemma ParseTurn(d: seq<byte>, n: nat, pos: nat, number: nat, p: Packet)
    requires |d| >= n + SLACK && |p.options| == OPTION_BITS && pos < n
    ensures d[pos] / 16 == 15 ==>
              ParseFrom(d, n, pos, number, p) == (NO_ERROR, p.(payload := AtMost(d[pos + 1..n], REST_MAX_CHUNK_SIZE)))
    ensures d[pos] / 16 != 15 ==>
              var (delta, length, at) := ReadHeader(d, pos);
              && (at + length > n || number + delta > SIZE1 ==>
                    ParseFrom(d, n, pos, number, p) == (BAD_REQUEST_4_00, p))
              && (at + length <= n && number + delta <= SIZE1 ==>
                    var (status, q) := Apply(SetOption(p, number + delta), number + delta, d[at..at + length]);
                    && (status != NO_ERROR ==> ParseFrom(d, n, pos, number, p) == (status, q))
                    && |q.options| == OPTION_BITS
                    && (status == NO_ERROR ==>
                          ParseFrom(d, n, pos, number, p) == ParseFrom(d, n, at + length, number + delta, q)))
  {
    hide ReadHeader;
  }

  lemma ParseEnds(d: seq<byte>, n: nat, pos: nat, number: nat, p: Packet)
    requires |d| >= n + SLACK && |p.options| == OPTION_BITS && pos >= n
    ensures ParseFrom(d, n, pos, number, p) == (NO_ERROR, p)
  {
  }

  lemma SameTail(a: seq<byte>, b: seq<byte>, pos: nat, later: nat)
    requires pos <= later <= |a| == |b| && a[pos..] == b[pos..]
    ensures a[later..] == b[later..]
  {
    assert a[later..] == a[pos..][later - pos..];
  }

  lemma SameSlice(a: seq<byte>, b: seq<byte>, pos: nat, lo: nat, hi: nat)
    requires pos <= lo <= hi <= |a| == |b| && a[pos..] == b[pos..]
    ensures a[lo..hi] == b[lo..hi]
  {
    forall k | lo <= k < hi
      ensures a[k] == b[k]
    {
      assert a[k] == a[pos..][k - pos] && b[k] == b[pos..][k - pos];
    }
  }

  lemma SameHeader(a: seq<byte>, b: seq<byte>, pos: nat)
    requires pos + 5 <= |a| == |b| && a[pos..] == b[pos..]
    ensures ReadHeader(a, pos) == ReadHeader(b, pos)
  {
    assert forall k :: pos <= k < |a| ==> a[k] == a[pos..][k - pos] == b[k];
  }

  lemma ViewOptions(d: seq<byte>, p: Packet, s: Spans)
    requires Within(s, |d|)
    ensures View(d, p, s).options == p.options
  {
  }

  lemma OptionView(d: seq<byte>, p: Packet, s: Spans, n: nat)
    requires Within(s, |d|) && n < |p.options|
    ensures |View(d, p, s).options| == |p.options| == |SetOption(p, n).options|
    ensures View(d, SetOption(p, n), s) == SetOption(View(d, p, s), n)
  {
  }

  /** An option that is no string changes the packet alike with and without the strings. */
  lemma ScalarView(d: seq<byte>, p: Packet, s: Spans, n: nat, v: seq<byte>)
    requires Within(s, |d|) && !HasSpan(n)
    ensures var (status, q) := Apply(p, n, v);
            Apply(View(d, p, s), n, v) == (status, View(d, q, s)) && q.options == p.options
  {
    hide Within, ParseInt, ParseBlock, Text, AtMost;
  }

  lemma BlankView(d: seq<byte>, p: Packet, s: Spans, pos: nat)
    requires s == Spans(NOTHING, NOTHING, NOTHING, NOTHING, NOTHING, NOTHING)
    requires p == Blank(p.version, p.mtype, p.code, p.mid, p.token)
    ensures Separate(s, 0, pos, pos) && Within(s, |d|) && View(d, p, s) == p
  {
  }

  lemma DstBefore(s: Spans, n: nat, lo: nat, pos: nat)
    requires Separate(s, n, lo, pos) && HasSpan(n)
    ensures SpanOf(s, n).at + SpanOf(s, n).len <= pos && (SpanOf(s, n).len > 0 ==> SpanOf(s, n).at >= lo) && lo <= pos
  {
    assert Placed(SpanOf(s, n), n, n, lo, pos);
  }

  lemma SeparateGrows(s: Spans, n: nat, lo: nat, pos: nat, end: nat)
    requires Separate(s, n, lo, pos) && pos <= end
    ensures Separate(s, n, lo, end)
  {
    SeparateNext(s, n, n, lo, pos, end);
  }

  lemma HostView(d: seq<byte>, p: Packet, s: Spans, lo: nat, pos: nat, at: nat, length: nat)
    requires Separate(s, URI_HOST, lo, pos) && pos <= at && at + length <= |d| && Within(s, |d|)
    ensures var t := s.(uriHost := Span(at, length));
            && Separate(t, URI_HOST, lo, at + length) && Within(t, |d|)
            && (NO_ERROR, View(d, p, t)) == Apply(View(d, p, s), URI_HOST, d[at..at + length])
  {
    var t := s.(uriHost := Span(at, length));
    forall k | HasSpan(k)
      ensures Placed(SpanOf(t, k), k, URI_HOST, lo, at + length)
    {
      assert Placed(SpanOf(s, k), k, URI_HOST, lo, pos);
    }
  }

  lemma PayloadView(before: seq<byte>, after: seq<byte>, p: Packet, s: Spans, number: nat, lo: nat, pos: nat,
                    length: nat)
    requires Separate(s, number, lo, pos) && Within(s, |before|)
    requires pos + 1 + length < |before| && after == before[pos + 1 + length := 0]
    ensures var t := s.(payload := Span(pos + 1, length));
            && Within(t, |after|)
            && View(after, p, t) == View(before, p, s).(payload := before[pos + 1..pos + 1 + length])
  {
    hide Placed;
    var t := s.(payload := Span(pos + 1, length));
    forall k | HasSpan(k)
      ensures SpanOf(t, k) == SpanOf(s, k) && SpanOf(s, k).at + SpanOf(s, k).len <= pos
      ensures Text(after, SpanOf(s, k)) == Text(before, SpanOf(s, k))
    {
      PlacedText(before, after, SpanOf(s, k), k, number, lo, pos);
    }
    assert HasSpan(URI_HOST) && HasSpan(LOCATION_PATH) && HasSpan(URI_PATH) && HasSpan(URI_QUERY)
        && HasSpan(LOCATION_QUERY);
    assert Text(after, t.payload) == before[pos + 1..pos + 1 + length];
    hide Text;
  }

  lemma PlacedText(before: seq<byte>, after: seq<byte>, x: Span, k: nat, number: nat, lo: nat, pos: nat)
    requires Placed(x, k, number, lo, pos) && pos <= |before| == |after|
    requires forall i :: 0 <= i < pos ==> after[i] == before[i]
    ensures x.at + x.len <= pos && Text(after, x) == Text(before, x)
  {
  }
}
