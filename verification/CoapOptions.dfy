/**
  The encoding of a single CoAP option (apps/er-coap/er-coap.c; section 3.1 of RFC 7252):
  the header with its extended delta and length, integer values, and the splitting of a
  path or query into repeated options that the receiver joins again.
 */
module CoapOptions {
  import opened Segments

  const U32: int := 0x1_0000_0000
  type uint32 = x: int | 0 <= x < 0x1_0000_0000
  type uint16 = x: int | 0 <= x < 0x1_0000

  // ----- option headers ------------------------------------------------------------------

  const MAX_EXTENDED: nat := 0xFFFF + 269

  /** coap_option_nibble. */
  function Nibble(value: nat): (n: nat)
    ensures n <= 14
  {
    if value < 13 then value else if value <= 0xFF + 13 then 13 else 14
  }

  /** The extension bytes of a delta or a length. */
  function Extension(value: nat): (s: seq<byte>)
    requires value <= MAX_EXTENDED
    ensures |s| <= 2
  {
    if value > 268 then [(value - 269) / 256, (value - 269) % 256]
    else if value > 12 then [value - 13]
    else []
  }

  /** coap_set_option_header. */
  function Header(delta: nat, length: nat): (h: seq<byte>)
    requires delta <= MAX_EXTENDED && length <= MAX_EXTENDED
    ensures 1 <= |h| <= 5 && h[0] / 16 <= 14
  {
    [Nibble(delta) * 16 + Nibble(length)] + Extension(delta) + Extension(length)
  }

  /** What the parser makes of a nibble: the value and how many bytes it has read after it. */
  function Extended(d: seq<byte>, nibble: nat, pos: nat): (nat, nat)
    requires pos + 2 <= |d|
  {
    if nibble == 13 then (13 + d[pos] as int, 1)
    else if nibble == 14 then (14 + 255 + (d[pos] as int) * 256 + d[pos + 1] as int, 2)
    else (nibble, 0)
  }

  /** The option header at `pos`: delta, length and the position of the value. */
  function ReadHeader(d: seq<byte>, pos: nat): (r: (nat, nat, nat))
    requires pos + 5 <= |d|
    ensures pos < r.2 <= pos + 5
  {
    var (delta, n) := Extended(d, d[pos] / 16, pos + 1);
    var (length, m) := Extended(d, d[pos] % 16, pos + 1 + n);
    (delta, length, pos + 1 + n + m)
  }

  lemma ExtendedExtension(d: seq<byte>, value: nat, pos: nat)
    requires value <= MAX_EXTENDED && pos + 2 <= |d| && Has(d, pos, Extension(value))
    ensures Extended(d, Nibble(value), pos) == (value, |Extension(value)|)
  {
    var e := Extension(value);
    if |e| > 0 {
      HasAt(d, pos, e, 0);
    }
    if |e| > 1 {
      HasAt(d, pos, e, 1);
    }
  }

  /** A written header is read back, whatever follows it. */
  lemma HeaderRoundTrip(d: seq<byte>, pos: nat, delta: nat, length: nat)
    requires delta <= MAX_EXTENDED && length <= MAX_EXTENDED
    requires pos + 5 <= |d| && Has(d, pos, Header(delta, length))
    ensures ReadHeader(d, pos) == (delta, length, pos + |Header(delta, length)|)
    ensures d[pos] / 16 < 15
  {
    hide Extension, Extended, Nibble;
    var first: seq<byte> := [Nibble(delta) * 16 + Nibble(length)];
    HasSplit(d, pos, first + Extension(delta), Extension(length));
    HasSplit(d, pos, first, Extension(delta));
    HasAt(d, pos, first, 0);
    assert d[pos] / 16 == Nibble(delta) && d[pos] % 16 == Nibble(length);
    ExtendedExtension(d, delta, pos + 1);
    ExtendedExtension(d, length, pos + 1 + |Extension(delta)|);
  }

  // ----- integer values ---------------------------------------------------------------------

  /** coap_serialize_int_option writes the bytes from the first non-zero one on. */
  function IntBytes(v: uint32): (s: seq<byte>)
    ensures |s| <= 4
  {
    if v >= 0x100_0000 then [v / 0x100_0000, v / 0x1_0000 % 256, v / 0x100 % 256, v % 256]
    else if v >= 0x1_0000 then [v / 0x1_0000, v / 0x100 % 256, v % 256]
    else if v >= 0x100 then [v / 0x100, v % 256]
    else if v >= 1 then [v]
    else []
  }

  /** coap_parse_int_option: shifts in byte after byte, in 32 bits. */
  function ParseInt(s: seq<byte>): uint32 {
    if s == [] then 0 else ((ParseInt(s[..|s| - 1]) as int) * 256 + s[|s| - 1] as int) % U32
  }

  lemma ParseIntAppend(s: seq<byte>, b: byte)
    requires (ParseInt(s) as int) * 256 + 255 < U32
    ensures ParseInt(s + [b]) as int == (ParseInt(s) as int) * 256 + b as int
  {
    assert (s + [b])[..|s|] == s;
  }

  /** The bytes are the base 256 digits of the value without leading zeroes. */
  lemma IntBytesDigits(v: uint32)
    ensures IntBytes(v) == if v == 0 then [] else IntBytes(v / 256) + [v % 256]
  {
    assert v / 256 / 256 == v / 0x1_0000;
    assert v / 256 / 0x1_0000 == v / 0x100_0000;
  }

  /** An integer value is read back, and no zero byte is sent in front of it. */
  lemma {:induction false} IntRoundTrip(v: uint32)
    ensures ParseInt(IntBytes(v)) == v
    ensures v > 0 ==> IntBytes(v)[0] != 0
    decreases v
  {
    hide ParseInt, IntBytes;
    IntBytesDigits(v);
    ParseIntEmpty();
    if v > 0 {
      IntRoundTrip(v / 256);
      IntBytesDigits(0);
      ParseIntAppend(IntBytes(v / 256), v % 256);
    }
  }

  lemma ParseIntEmpty()
    ensures ParseInt([]) == 0
  {
  }

  // ----- splitting and joining -----------------------------------------------------------------

  /** The parts that coap_serialize_array_option makes of a string, from index `j` on, the
      current part having begun at `start`.  After a separator it goes on two characters
      later, so that the character in between is never taken for a separator. */
  function SplitFrom(s: seq<byte>, sep: byte, start: nat, j: nat): seq<seq<byte>>
    requires start <= j
    decreases |s| + 2 - j
  {
    if j > |s| then []
    else if j == |s| || s[j] == sep then [s[start..j]] + SplitFrom(s, sep, j + 1, j + 2)
    else SplitFrom(s, sep, start, j + 1)
  }

  function Split(s: seq<byte>, sep: byte): seq<seq<byte>> {
    SplitFrom(s, sep, 0, 0)
  }

  /** coap_merge_multi_option on values: an empty destination is replaced. */
  function Merge(dst: seq<byte>, option: seq<byte>, sep: byte): seq<byte> {
    if |dst| > 0 then dst + [sep] + option else option
  }

  function MergeAll(dst: seq<byte>, parts: seq<seq<byte>>, sep: byte): seq<byte>
    decreases parts
  {
    if parts == [] then dst else MergeAll(Merge(dst, parts[0], sep), parts[1..], sep)
  }

  /** Parts of which the first is not empty are joined by the separator. */
  function Joined(parts: seq<seq<byte>>, sep: byte): seq<byte>
    requires parts != []
  {
    if |parts| == 1 then parts[0] else parts[0] + [sep] + Joined(parts[1..], sep)
  }

  lemma {:induction false} MergeJoins(parts: seq<seq<byte>>, sep: byte)
    requires parts != [] && |parts[0]| > 0
    ensures MergeAll([], parts, sep) == Joined(parts, sep)
  {
    assert Merge([], parts[0], sep) == parts[0];
    MergeAppends(parts[0], parts[1..], sep);
  }

  lemma {:induction false} MergeAppends(dst: seq<byte>, parts: seq<seq<byte>>, sep: byte)
    requires |dst| > 0
    ensures MergeAll(dst, parts, sep) == if parts == [] then dst else dst + [sep] + Joined(parts, sep)
    decreases parts
  {
    if parts != [] {
      var next := Merge(dst, parts[0], sep);
      MergeAppends(next, parts[1..], sep);
      if |parts| > 1 {
        assert dst + [sep] + parts[0] + [sep] + Joined(parts[1..], sep)
            == dst + [sep] + (parts[0] + [sep] + Joined(parts[1..], sep));
      }
    }
  }

  /** The scan from `j` meets the end of the string and not a separator just before it. */
  predicate Complete(s: seq<byte>, sep: byte, j: nat)
    decreases |s| + 2 - j
  {
    if j > |s| then false else if j == |s| then true
    else if s[j] == sep then Complete(s, sep, j + 2) else Complete(s, sep, j + 1)
  }

  lemma {:induction false} SplitMerge(s: seq<byte>, sep: byte, start: nat, j: nat)
    requires 2 <= start <= |s| && start <= j <= |s| + 1 && s[start - 1] == sep
    requires j <= |s| || start == |s|
    ensures MergeAll(s[..start - 1], SplitFrom(s, sep, start, j), sep)
         == if Complete(s, sep, j) then s else s[..|s| - 1]
    decreases |s| + 2 - j
  {
    if j == |s| {
      assert SplitFrom(s, sep, |s| + 1, |s| + 2) == [];
      assert s[..start - 1] + [sep] + s[start..] == s;
      var part := s[start..j];
      assert SplitFrom(s, sep, start, j) == [part];
      assert MergeAll(Merge(s[..start - 1], part, sep), [], sep) == s;
    } else if j < |s| && s[j] == sep {
      var part := s[start..j];
      assert s[..start - 1] + [sep] + part == s[..j];
      var rest := SplitFrom(s, sep, j + 1, j + 2);
      assert SplitFrom(s, sep, start, j) == [part] + rest;
      assert ([part] + rest)[1..] == rest;
      SplitMerge(s, sep, j + 1, j + 2);
    } else if j < |s| {
      SplitMerge(s, sep, start, j + 1);
    }
  }

  /** The first part of a string that does not begin with a separator. */
  lemma {:induction false} SplitMergeFirst(s: seq<byte>, sep: byte, j: nat)
    requires 0 < j <= |s|
    ensures MergeAll([], SplitFrom(s, sep, 0, j), sep) == if Complete(s, sep, j) then s else s[..|s| - 1]
    decreases |s| - j
  {
    if j == |s| {
      assert SplitFrom(s, sep, |s| + 1, |s| + 2) == [];
      assert s[0..j] == s;
      assert SplitFrom(s, sep, 0, j) == [s];
      assert MergeAll(Merge([], s, sep), [], sep) == s;
    } else if s[j] == sep {
      var part := s[0..j];
      var rest := SplitFrom(s, sep, j + 1, j + 2);
      assert SplitFrom(s, sep, 0, j) == [part] + rest;
      assert ([part] + rest)[1..] == rest;
      assert Merge([], part, sep) == s[..j];
      SplitMerge(s, sep, j + 1, j + 2);
    } else {
      SplitMergeFirst(s, sep, j + 1);
    }
  }

  lemma {:induction false} MergedLength(s: seq<byte>, sep: byte, start: nat, j: nat, dst: seq<byte>)
    requires start <= j && start <= |s| + 1
    ensures || SplitFrom(s, sep, start, j) == []
            || |MergeAll(dst, SplitFrom(s, sep, start, j), sep)| <=
                 (if |dst| > 0 then |dst| + 1 else 0) + (if start <= |s| then |s| - start else -1)
    decreases |s| + 2 - j
  {
    if j <= |s| && (j == |s| || s[j] == sep) {
      var part := s[start..j];
      var rest := SplitFrom(s, sep, j + 1, j + 2);
      assert SplitFrom(s, sep, start, j) == [part] + rest;
      assert ([part] + rest)[1..] == rest;
      MergedLength(s, sep, j + 1, j + 2, Merge(dst, part, sep));
    } else if j < |s| {
      MergedLength(s, sep, start, j + 1, dst);
    }
  }

  lemma MergeNothing(dst: seq<byte>, sep: byte)
    ensures MergeAll(dst, [], sep) == dst
  {
  }

  /** A leading separator is lost: its empty part is replaced by the next one. */
  lemma LeadingSeparatorLost(s: seq<byte>, sep: byte)
    requires |s| > 0 && s[0] == sep
    ensures |MergeAll([], Split(s, sep), sep)| < |s|
  {
    var rest := SplitFrom(s, sep, 1, 2);
    assert Split(s, sep) == [s[0..0]] + rest;
    assert ([s[0..0]] + rest)[1..] == rest;
    assert Merge([], s[0..0], sep) == [];
    MergedLength(s, sep, 1, 2, []);
    MergeNothing([], sep);
  }

  /** How many separators the string ends with. */
  function TailRun(s: seq<byte>, sep: byte): (n: nat)
    ensures n <= |s| && (forall i :: |s| - n <= i < |s| ==> s[i] == sep)
    ensures n < |s| ==> s[|s| - n - 1] != sep
  {
    if s == [] || s[|s| - 1] != sep then 0 else 1 + TailRun(s[..|s| - 1], sep)
  }

  lemma {:induction false} CompleteIffEven(s: seq<byte>, sep: byte, j: nat)
    requires j <= |s|
    ensures j <= |s| - TailRun(s, sep) ==> (Complete(s, sep, j) <==> TailRun(s, sep) % 2 == 0)
    ensures j > |s| - TailRun(s, sep) ==> (Complete(s, sep, j) <==> (|s| - j) % 2 == 0)
    decreases |s| - j
  {
    if j < |s| && s[j] == sep && j + 2 <= |s| {
      CompleteIffEven(s, sep, j + 2);
    } else if j < |s| && s[j] != sep {
      CompleteIffEven(s, sep, j + 1);
    }
  }

  /** A string survives being sent as repeated options iff it does not begin with the
      separator and does not end with an odd number of them. */
  predicate Survives(s: seq<byte>, sep: byte) {
    s == [] || (s[0] != sep && TailRun(s, sep) % 2 == 0)
  }

  lemma SplitMergeIff(s: seq<byte>, sep: byte)
    ensures MergeAll([], Split(s, sep), sep) == s <==> Survives(s, sep)
  {
    if s == [] {
      assert SplitFrom(s, sep, 1, 2) == [];
      assert Split(s, sep) == [s[0..0]];
      MergeNothing([], sep);
    } else if s[0] == sep {
      LeadingSeparatorLost(s, sep);
    } else {
      assert Split(s, sep) == SplitFrom(s, sep, 0, 1);
      SplitMergeFirst(s, sep, 1);
      CompleteIffEven(s, sep, 1);
      assert TailRun(s, sep) < |s|;
    }
  }

  /** No part is longer than the string. */
  lemma {:induction false} PartBound(s: seq<byte>, sep: byte, start: nat, j: nat)
    requires start <= j
    ensures forall p <- SplitFrom(s, sep, start, j) :: |p| <= |s|
    decreases |s| + 2 - j
  {
    if j <= |s| && (j == |s| || s[j] == sep) {
      PartBound(s, sep, j + 1, j + 2);
    } else if j < |s| {
      PartBound(s, sep, start, j + 1);
    }
  }
}
