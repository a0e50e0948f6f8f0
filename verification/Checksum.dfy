/**
  Internet checksums in the IPv4 tunnel (tools/tunslip.c; RFC 1071, RFC 1624).

  A 16-bit sum with end-around carry counts modulo 65535, in either byte order.  On this
  rest `PatchKeepsIff`, that a packet given an identification stays valid, and
  `RelayAccepted`, that the packets of the DHCP relay pass the tunnel's own check.
 */
module Checksum {
  import opened Segments
  import Slip

  const M: nat := 0xFFFF
  type uint16 = x: int | 0 <= x <= 0xFFFF

  // ----- one's-complement sums ---------------------------------------------------------------

  /** Addition with end-around carry: "sum += t; if(sum < t) sum++". */
  function Add(a: uint16, b: uint16): uint16 {
    var s := ((a as int) + b) % 0x1_0000;
    if s < b then s + 1 else s
  }

  function Word(hi: byte, lo: byte): uint16 { (hi as int) * 256 + lo }

  /** ip4sum: an odd byte at the end is the high byte of a word. */
  function Sum(s: uint16, p: seq<byte>): uint16
    decreases p
  {
    if |p| == 0 then s
    else if |p| == 1 then Add(s, Word(p[0], 0))
    else Sum(Add(s, Word(p[0], p[1])), p[2..])
  }

  /** The plain sum of the big-endian words. */
  function Words(p: seq<byte>): nat {
    if |p| == 0 then 0
    else if |p| == 1 then Word(p[0], 0)
    else (Word(p[0], p[1]) as int) + Words(p[2..])
  }

  lemma AddMod(a: uint16, b: uint16)
    ensures (Add(a, b) as int) % M == ((a as int) + b) % M
    ensures Add(a, b) == 0 <==> a == 0 && b == 0
  {
  }

  lemma ModStep(a: nat, b: nat, c: nat)
    requires a % M == b % M
    ensures (a + c) % M == (b + c) % M
  {
  }

  /** The sum is congruent to the words modulo 65535, and 0 only when all of them are. */
  lemma {:induction false} SumWords(s: uint16, p: seq<byte>)
    ensures (Sum(s, p) as int) % M == ((s as int) + Words(p)) % M
    ensures Sum(s, p) == 0 <==> s == 0 && Words(p) == 0
    decreases p
  {
    hide Add, Word;
    if |p| == 1 {
      AddMod(s, Word(p[0], 0));
    } else if |p| > 1 {
      var w := Word(p[0], p[1]);
      AddMod(s, w);
      SumWords(Add(s, w), p[2..]);
      ModStep(Add(s, w), (s as int) + w, Words(p[2..]));
    }
  }

  /** Sums compose over a split at an even position. */
  lemma {:induction false} SumSplit(s: uint16, a: seq<byte>, b: seq<byte>)
    requires |a| % 2 == 0
    ensures Sum(s, a + b) == Sum(Sum(s, a), b)
    ensures Words(a + b) == Words(a) + Words(b)
    decreases a
  {
    hide Add, Word;
    if a == [] {
      assert a + b == b;
    } else {
      assert (a + b)[2..] == a[2..] + b;
      SumSplit(Add(s, Word(a[0], a[1])), a[2..], b);
    }
  }

  /** What the checks accept: 0xffff or 0. */
  predicate Clear(s: uint16) { s == 0xFFFF || s == 0 }

  lemma ClearIff(s: uint16, p: seq<byte>)
    ensures Clear(Sum(s, p)) <==> ((s as int) + Words(p)) % M == 0
  {
    hide Sum, Words;
    SumWords(s, p);
  }

  // ----- words in a packet -------------------------------------------------------------------------

  /** The big-endian word at `i`. */
  function At(mem: seq<byte>, i: nat): uint16
    requires i + 2 <= |mem|
  {
    Word(mem[i], mem[i + 1])
  }

  lemma {:induction false} WordsAt(mem: seq<byte>, lo: nat, hi: nat, i: nat)
    requires lo <= i && i + 2 <= hi <= |mem| && (i - lo) % 2 == 0
    ensures Words(mem[lo..hi]) == Words(mem[lo..i]) + At(mem, i) as int + Words(mem[i + 2..hi])
  {
    var w := mem[i..i + 2];
    assert mem[lo..hi] == mem[lo..i] + (w + mem[i + 2..hi]);
    SumSplit(0, mem[lo..i], w + mem[i + 2..hi]);
    SumSplit(0, w, mem[i + 2..hi]);
    assert w[2..] == [];
    assert Words(w) == At(mem, i) as int;
  }

  /** The same bytes outside the words at `i` and `j`. */
  predicate SameBut(a: seq<byte>, b: seq<byte>, i: nat, j: nat) {
    |a| == |b| && forall k :: 0 <= k < |a| && !(i <= k < i + 2) && !(j <= k < j + 2) ==> a[k] == b[k]
  }

  lemma SameSlice(a: seq<byte>, b: seq<byte>, i: nat, j: nat, lo: nat, hi: nat)
    requires SameBut(a, b, i, j) && lo <= hi <= |a| && (hi <= i || i + 2 <= lo) && (hi <= j || j + 2 <= lo)
    ensures a[lo..hi] == b[lo..hi]
  {
  }

  // ----- the packet check ------------------------------------------------------------------------

  const VERSION4: nat := 4
  const TCP: nat := 6
  const UDP: nat := 17
  const ICMP: nat := 1

  function HeaderLength(mem: seq<byte>): nat
    requires |mem| > 0
  {
    4 * (mem[0] % 16)
  }

  /** Enough memory for every header length, and a packet that has the 20 bytes of a header and
      is not shorter than its header says: the source does not check this itself. */
  predicate Readable(mem: seq<byte>, len: nat) {
    60 <= |mem| && HeaderLength(mem) <= len <= |mem| && 20 <= len <= 0xFFFF
  }

  /** Sum of pseudo header and payload; protocol and length are added without carry. */
  function TransportSum(mem: seq<byte>, hl: nat, len: nat): uint16
    requires 60 <= |mem| && hl <= len <= |mem|
  {
    Sum(Sum(((mem[9] as int) + len - hl) % 0x1_0000, mem[12..20]), mem[hl..len])
  }

  /** check_ip. */
  function CheckIp(mem: seq<byte>, len: nat): int
    requires Readable(mem, len)
  {
    var hl := HeaderLength(mem);
    if mem[0] / 16 != VERSION4 then -1
    else if At(mem, 2) > len then -2
    else if At(mem, 2) < len then -3
    else if !Clear(Sum(0, mem[..hl])) then -4
    else if mem[9] == TCP || mem[9] == UDP then
      if Clear(TransportSum(mem, hl, len)) then 0
      else if mem[9] == TCP then -5
      else if At(mem, 26) != 0 then -6 else 0
    else if mem[9] == ICMP then
      if Clear(Sum(0, mem[hl..len])) then 0 else -7
    else 0
  }

  /** Whether words add up to a multiple of 65535: what a correct checksum does to them (section 1 of RFC 1071). */
  predicate Balanced(words: nat) { words % 65535 == 0 }

  /** The words that a TCP or UDP checksum covers: protocol and length, the two addresses, and the segment. */
  function SegmentWords(mem: seq<byte>, hl: nat, len: nat): nat
    requires 60 <= |mem| && hl <= len <= |mem|
  {
    (mem[9] as nat + len - hl) % 65536 + Words(mem[12..20]) + Words(mem[hl..len])
  }

  /**
    What check_ip accepts, in terms of the plain sums: version 4, the length that has been read, a header
    whose words balance and, for TCP (6), UDP (17) and ICMP (1), a segment that does, unless a UDP packet
    carries the checksum 0.
   */
  lemma CheckMeaning(mem: seq<byte>, len: nat)
    requires Readable(mem, len)
    ensures var hl := mem[0] % 16 * 4;
            var length := mem[2] as int * 256 + mem[3];
            CheckIp(mem, len) == 0 <==>
              && mem[0] / 16 == 4 && length == len && Balanced(Words(mem[..hl]))
              && (mem[9] == 6 ==> Balanced(SegmentWords(mem, hl, len)))
              && (mem[9] == 17 ==> Balanced(SegmentWords(mem, hl, len)) || (mem[26] == 0 && mem[27] == 0))
              && (mem[9] == 1 ==> Balanced(Words(mem[hl..len])))
    ensures var hl := mem[0] % 16 * 4;
            var length := mem[2] as int * 256 + mem[3];
            && (CheckIp(mem, len) == -1 <==> mem[0] / 16 != 4)
            && (CheckIp(mem, len) == -2 <==> mem[0] / 16 == 4 && length > len)
            && (CheckIp(mem, len) == -3 <==> mem[0] / 16 == 4 && length < len)
            && (CheckIp(mem, len) == -4 <==> mem[0] / 16 == 4 && length == len && !Balanced(Words(mem[..hl])))
            && (CheckIp(mem, len) == -5 ==> mem[9] == 6) && (CheckIp(mem, len) == -6 ==> mem[9] == 17)
            && (CheckIp(mem, len) == -7 ==> mem[9] == 1) && -7 <= CheckIp(mem, len) <= 0
  {
    hide Sum, Words, Clear;
    var hl := HeaderLength(mem);
    ClearIff(0, mem[..hl]);
    ClearIff(0, mem[hl..len]);
    var s: uint16 := ((mem[9] as int) + len - hl) % 0x1_0000;
    var t := Sum(s, mem[12..20]);
    ClearIff(t, mem[hl..len]);
    SumWords(s, mem[12..20]);
    ModStep(t as int, s as int + Words(mem[12..20]), Words(mem[hl..len]));
  }

  // ----- the identification patch -------------------------------------------------------------------

  datatype Host = Little | Big

  /** A 16-bit field as the host reads it from memory, and the bytes that it writes. */
  function Load(hi: byte, lo: byte, host: Host): uint16 {
    if host == Big then Word(hi, lo) else Word(lo, hi)
  }

  function Stored(v: uint16, host: Host): (byte, byte) {
    if host == Big then (v / 256, v % 256) else (v % 256, v / 256)
  }

  function Swap(v: uint16): uint16 { Word(v % 256, v / 256) }

  /** Swapping the bytes of a word multiplies it by 256, modulo 65535. */
  lemma SwapMod(v: uint16)
    ensures exists q :: 256 * (v as int) == Swap(v) as int + q * M
  {
    assert 256 * (v as int) == Swap(v) as int + (v / 256) * M;
  }

  lemma Difference(a: int, b: int, q: int)
    requires a == b + q * M
    ensures a % M == b % M
  {
    assert b == b / M * M + b % M;
    assert a == (b / M + q) * M + b % M;
    Unique(a, b / M + q, b % M);
  }

  lemma Unique(a: int, q: int, r: int)
    requires a == q * M + r && 0 <= r < M
    ensures a % M == r
  {
  }

  lemma AddExact(h: uint16, nid: uint16) returns (c: int)
    ensures Add(h, 0xFFFF - nid) as int == (h as int) + M - nid - c * M
  {
    c := if (h as int) + 0xFFFF - nid > 0xFFFF then 1 else 0;
  }

  /** Adding a complement, end-around, in the other byte order comes to the same. */
  lemma SwapAdd(h: uint16, nid: uint16)
    ensures (Swap(Add(h, 0xFFFF - nid)) as int) % M == ((Swap(h) as int) + M - Swap(nid)) % M
  {
    hide Swap, Add;
    var r := Add(h, 0xFFFF - nid);
    SwapMod(r);
    SwapMod(h);
    SwapMod(nid);
    var c := AddExact(h, nid);
    var qr :| 256 * (r as int) == Swap(r) as int + qr * M;
    var qh :| 256 * (h as int) == Swap(h) as int + qh * M;
    var qn :| 256 * (nid as int) == Swap(nid) as int + qn * M;
    Difference(Swap(r) as int, (Swap(h) as int) + M - Swap(nid), qh - qn - qr + 255 - 256 * c);
  }

  /** What the patch does to the bytes of a packet, in either byte order: the identification
      is `id`, and the checksum has lost as much as the identification has gained. */
  predicate Patched(before: seq<byte>, after: seq<byte>, id: uint16) {
    && 60 <= |before| && SameBut(before, after, 4, 10) && At(after, 4) == id
    && (At(after, 10) as int) % M == ((At(before, 10) as int) + M - id) % M
  }

  lemma AddedSum(h: uint16, nid: uint16, host: Host)
    ensures var (a, b) := Stored(Add(h, 0xFFFF - nid), host);
            var (hi, lo) := Stored(h, host);
            var (c, d) := Stored(nid, host);
            (Word(a, b) as int) % M == ((Word(hi, lo) as int) + M - Word(c, d)) % M
  {
    hide Add, Word;
    if host == Little {
      SwapAdd(h, nid);
    } else {
      AddMod(h, 0xFFFF - nid);
      Rejoined(h);
      Rejoined(nid);
      Rejoined(Add(h, 0xFFFF - nid));
    }
  }

  lemma Rejoined(v: uint16)
    ensures Word(v / 256, v % 256) == v
  {
  }

  lemma StoredLoad(hi: byte, lo: byte, host: Host)
    ensures Stored(Load(hi, lo, host), host) == (hi, lo)
  {
  }

  /** The bytes that the patch writes. */
  lemma PatchedBytes(before: seq<byte>, after: seq<byte>, id: uint16, host: Host)
    requires 60 <= |before| && SameBut(before, after, 4, 10) && after[4] == id / 256 && after[5] == id % 256
    requires (after[10], after[11])
          == Stored(Add(Load(before[10], before[11], host), 0xFFFF - Load(after[4], after[5], host)), host)
    ensures Patched(before, after, id)
  {
    hide Add, Stored, Load;
    var h, nid := Load(before[10], before[11], host), Load(after[4], after[5], host);
    AddedSum(h, nid, host);
    StoredLoad(before[10], before[11], host);
    StoredLoad(after[4], after[5], host);
  }

  /** The words of a part of the packet that is aligned with it, before and after the patch. */
  lemma PatchedWords(before: seq<byte>, after: seq<byte>, id: uint16, lo: nat, hi: nat)
    requires Patched(before, after, id) && At(before, 4) == 0 && lo <= hi <= |before| && lo % 4 == 0 && hi >= lo
    requires (hi <= 4 || hi >= 6) && (hi <= 10 || hi >= 12)
    ensures var idIn, sumIn := lo <= 4 && 6 <= hi, lo <= 10 && 12 <= hi;
            (Words(after[lo..hi])) % M ==
              (Words(before[lo..hi]) + (if idIn then id as int else 0) + if sumIn then M - id else 0) % M
  {
    hide Words, Word;
    var idIn, sumIn := lo <= 4 && 6 <= hi, lo <= 10 && 12 <= hi;
    if idIn && sumIn {
      PatchedBoth(before, after, id, lo, hi);
    } else if idIn {
      WordsAt(before, lo, hi, 4);
      WordsAt(after, lo, hi, 4);
      SameSlice(before, after, 4, 10, lo, 4);
      SameSlice(before, after, 4, 10, 6, hi);
    } else if sumIn {
      WordsAt(before, lo, hi, 10);
      WordsAt(after, lo, hi, 10);
      SameSlice(before, after, 4, 10, lo, 10);
      SameSlice(before, after, 4, 10, 12, hi);
      ModStep(At(after, 10), (At(before, 10) as int) + M - id, Words(before[lo..10]) + Words(before[12..hi]));
    } else {
      SameSlice(before, after, 4, 10, lo, hi);
    }
  }

  lemma PatchedBoth(before: seq<byte>, after: seq<byte>, id: uint16, lo: nat, hi: nat)
    requires Patched(before, after, id) && At(before, 4) == 0 && lo <= 4 && 12 <= hi <= |before| && lo % 4 == 0
    ensures Words(after[lo..hi]) % M == (Words(before[lo..hi]) + id as int + (M - id)) % M
  {
    hide Words, Word;
    WordsAt(before, lo, hi, 4);
    WordsAt(after, lo, hi, 4);
    WordsAt(before, 6, hi, 10);
    WordsAt(after, 6, hi, 10);
    SameSlice(before, after, 4, 10, lo, 4);
    SameSlice(before, after, 4, 10, 6, 10);
    SameSlice(before, after, 4, 10, 12, hi);
    var rest := Words(before[lo..4]) + Words(before[6..10]) + Words(before[12..hi]);
    ModStep(At(after, 10), (At(before, 10) as int) + M - id, rest + id);
  }

  lemma ModCancel(a: nat, b: nat, id: uint16)
    ensures (a + id as int + (M - id)) % M == a % M
    ensures (a % M == 0 && (a + id as int) % M == 0) ==> id % M == 0
    ensures id % M == 0 ==> (a + id as int) % M == a % M && (a + (M - id)) % M == a % M
  {
  }

  lemma SameFields(before: seq<byte>, after: seq<byte>, id: uint16)
    requires Patched(before, after, id)
    ensures |after| == |before| && after[0] == before[0] && after[9] == before[9]
    ensures At(after, 2) == At(before, 2) && At(after, 26) == At(before, 26) && after[12..20] == before[12..20]
  {
  }

  /** Whether a part is accepted, in terms of what the patch does to it. */
  lemma PatchedClear(before: seq<byte>, after: seq<byte>, id: uint16, s: uint16, lo: nat, hi: nat)
    requires Patched(before, after, id) && At(before, 4) == 0 && lo <= hi <= |before| && lo % 4 == 0
    requires (hi <= 4 || hi >= 6) && (hi <= 10 || hi >= 12)
    ensures (lo <= 4 && 6 <= hi) == (lo <= 10 && 12 <= hi) || id % M == 0 ==>
              (Clear(Sum(s, after[lo..hi])) <==> Clear(Sum(s, before[lo..hi])))
    ensures lo <= 4 && 6 <= hi <= 10 && id % M != 0 && Clear(Sum(s, before[lo..hi])) ==> !Clear(Sum(s, after[lo..hi]))
  {
    hide Words, Sum, Clear, Patched;
    SameFields(before, after, id);
    PatchedWords(before, after, id, lo, hi);
    ClearIff(s, before[lo..hi]);
    ClearIff(s, after[lo..hi]);
    var w := (s as int) + Words(before[lo..hi]);
    ModCancel(w, 0, id);
    ModStep(Words(after[lo..hi]),
            Words(before[lo..hi]) + (if lo <= 4 && 6 <= hi then id as int else 0)
              + if lo <= 10 && 12 <= hi then M - id else 0, s);
  }

  /**
    A valid packet that is given an identification stays valid iff its header length is not
    8, in which case the header sum would cover the identification and not the checksum,
    or the identification counts as zero.  In particular it does whenever the header has
    its 20 bytes.
   */
  lemma PatchKeepsIff(before: seq<byte>, after: seq<byte>, id: uint16, len: nat)
    requires Readable(before, len) && Patched(before, after, id) && At(before, 4) == 0
    requires CheckIp(before, len) == 0
    ensures Readable(after, len)
    ensures CheckIp(after, len) == 0 <==> HeaderLength(before) != 8 || id % M == 0
  {
    hide Sum, Words, Clear, Patched, At;
    SameFields(before, after, id);
    var hl := HeaderLength(before);
    PatchedClear(before, after, id, 0, 0, hl);
    assert before[..hl] == before[0..hl] && after[..hl] == after[0..hl];
    var s := Sum(((before[9] as int) + len - hl) % 0x1_0000, before[12..20]);
    PatchedClear(before, after, id, s, hl, len);
    PatchedClear(before, after, id, 0, hl, len);
  }

  // ----- in place -----------------------------------------------------------------------------

  /** ip4sum over the bytes of a buffer. */
  method Ip4Sum(start: uint16, mem: array<byte>, from: nat, len: nat) returns (sum: uint16)
    requires from + len <= mem.Length
    ensures sum == Sum(start, mem[from..from + len])
  {
    hide Add;
    sum := start;
    var p, end := from, from + len;
    ghost var bytes := mem[from..end];
    assert bytes[0..] == bytes;
    while p < end - 1
      invariant from <= p <= end && Sum(sum, bytes[p - from..]) == Sum(start, bytes)
    {
      var t := Word(mem[p], mem[p + 1]);
      assert bytes[p - from..][2..] == bytes[p + 2 - from..];
      sum := Accumulate(sum, t);
      p := p + 2;
    }
    if p < end {
      sum := Accumulate(sum, Word(mem[p], 0));
    }
  }

  method Accumulate(sum: uint16, t: uint16) returns (r: uint16)
    ensures r == Add(sum, t)
  {
    r := (sum as int + t) % 0x1_0000;
    if r < t {
      r := r + 1;
    }
  }

  /** check_ip on a buffer. */
  method CheckPacket(mem: array<byte>, len: nat) returns (code: int)
    requires Readable(mem[..], len)
    ensures code == CheckIp(mem[..], len)
  {
    hide Sum, Clear;
    ghost var bytes := mem[..];
    if mem[0] / 16 != VERSION4 {
      return -1;
    }
    if Word(mem[2], mem[3]) > len {
      return -2;
    }
    if Word(mem[2], mem[3]) < len {
      return -3;
    }
    var hl := 4 * (mem[0] % 16);
    var sum := Ip4Sum(0, mem, 0, hl);
    assert mem[0..hl] == bytes[..hl];
    ClearIs(sum);
    if sum != 0xFFFF && sum != 0 {
      return -4;
    }
    assert mem[hl..hl + (len - hl)] == bytes[hl..len];
    if mem[9] == TCP || mem[9] == UDP {
      sum := Ip4Sum(((mem[9] as int) + len - hl) % 0x1_0000, mem, 12, 8);
      assert mem[12..20] == bytes[12..20];
      sum := Ip4Sum(sum, mem, hl, len - hl);
      ClearIs(sum);
      if sum != 0xFFFF && sum != 0 {
        if mem[9] == TCP {
          return -5;
        } else if Word(mem[26], mem[27]) != 0 {
          return -6;
        }
      }
    } else if mem[9] == ICMP {
      sum := Ip4Sum(0, mem, hl, len - hl);
      ClearIs(sum);
      if sum != 0xFFFF && sum != 0 {
        return -7;
      }
    }
    code := 0;
  }

  lemma ClearIs(s: uint16)
    ensures Clear(s) <==> s == 0xFFFF || s == 0
  {
  }

  /** The patch in write_to_serial: the checksum is updated as the host reads it. */
  method PatchId(mem: array<byte>, id: uint16, host: Host)
    requires 60 <= mem.Length
    modifies mem
    ensures Patched(old(mem[..]), mem[..], id)
  {
    hide Add, Load, Stored;
    ghost var before := mem[..];
    mem[4], mem[5] := id / 256, id % 256;
    var nid := Load(mem[4], mem[5], host);
    var sum := Accumulate(Load(mem[10], mem[11], host), 0xFFFF - nid);
    var (a, b) := Stored(sum, host);
    mem[10], mem[11] := a, b;
    PatchedBytes(before, mem[..], id, host);
  }

  /** The test for a zero identification with the don't-fragment flag, which the host reads
      without ntohs. */
  predicate NeedsId(mem: seq<byte>, host: Host)
    requires 60 <= |mem|
  {
    mem[4] == 0 && mem[5] == 0 && Load(mem[6], mem[7], host) / 0x4000 % 2 == 1
  }

  /** The don't-fragment flag of the packet. */
  predicate DontFragment(mem: seq<byte>)
    requires 60 <= |mem|
  {
    mem[6] / 0x40 % 2 == 1
  }

  /** The bit that is tested: on a big-endian host the flag, on a little-endian one a bit of the
      fragment offset. */
  lemma TestedBit(mem: seq<byte>, host: Host)
    requires 60 <= |mem|
    ensures NeedsId(mem, host) <==> mem[4] == 0 && mem[5] == 0 && mem[if host == Big then 6 else 7] / 0x40 % 2 == 1
  {
    var word, high := Load(mem[6], mem[7], host), mem[if host == Big then 6 else 7];
    var low := mem[if host == Big then 7 else 6];
    assert word as int == (high as int) * 256 + low && word / 0x4000 == high / 0x40;
  }

  /** A packet without identification is judged by its flag iff the host is big-endian or that bit
      of the fragment offset happens to agree. */
  lemma FlagTestedIff(mem: seq<byte>, host: Host)
    requires 60 <= |mem| && mem[4] == 0 && mem[5] == 0
    ensures (NeedsId(mem, host) <==> DontFragment(mem)) <==> host == Big || mem[6] / 0x40 % 2 == mem[7] / 0x40 % 2
  {
    TestedBit(mem, host);
  }

  /** An unfragmented packet with the flag set and no identification gets none on a little-endian
      host. */
  lemma FlagMissed()
    ensures var mem: seq<byte> := [0x45, 0, 0, 20, 0, 0, 0x40, 0] + seq(52, _ => 0);
            DontFragment(mem) && NeedsId(mem, Big) && !NeedsId(mem, Little)
  {
    var mem: seq<byte> := [0x45, 0, 0, 20, 0, 0, 0x40, 0] + seq(52, _ => 0);
    TestedBit(mem, Big);
    TestedBit(mem, Little);
  }

  /** A packet of 20 bytes whose header length field says 8, with the sum of those 8 bytes right. */
  function ShortHeader(): seq<byte> {
    ShortBytes() + seq(52, _ => 0)
  }

  function ShortBytes(): seq<byte> { [0x42, 0, 0, 20, 0, 0, 0xBD, 0xEB] }

  lemma ShortSum()
    ensures Clear(Sum(0, ShortBytes()))
  {
    var head := ShortBytes();
    assert head[2..] == [0, 20, 0, 0, 0xBD, 0xEB];
    assert head[2..][2..] == [0, 0, 0xBD, 0xEB];
    assert head[2..][2..][2..] == [0xBD, 0xEB];
    assert Words(head) == Word(0x42, 0) as int + Words(head[2..]);
    assert Words(head[2..]) == Word(0, 20) as int + Words(head[2..][2..]);
    assert Words([0, 0, 0xBD, 0xEB]) == 0xBDEB;
    ClearIff(0, head);
  }

  /** Such a packet: it passes the check and is given an identification, and then fails. */
  lemma ShortHeaderBreaks(after: seq<byte>, id: uint16)
    requires Patched(ShortHeader(), after, id) && id % M != 0
    ensures Readable(ShortHeader(), 20) && Readable(after, 20)
    ensures NeedsId(ShortHeader(), Little)
    ensures CheckIp(ShortHeader(), 20) == 0 && CheckIp(after, 20) != 0
  {
    hide Sum, Words, Clear, Patched;
    var mem := ShortHeader();
    assert mem[..8] == ShortBytes();
    ShortSum();
    PatchKeepsIff(mem, after, id, 20);
  }

  /** The test on the fields of the header. */
  method MissesId(mem: array<byte>, host: Host) returns (b: bool)
    requires 60 <= mem.Length
    ensures b == NeedsId(mem[..], host) && (b ==> At(mem[..], 4) == 0)
  {
    b := mem[4] == 0 && mem[5] == 0 && Load(mem[6], mem[7], host) / 0x4000 % 2 == 1;
  }

  /** The checks at the head of write_to_serial: a packet that passes is given an identification
      if it needs one, and checked again. */
  method Prepare(mem: array<byte>, len: nat, ipId: uint16, host: Host) returns (code: int, nextId: uint16)
    requires Readable(mem[..], len)
    modifies mem
    ensures code < 0 <==> CheckIp(old(mem[..]), len) != 0
                          || (NeedsId(old(mem[..]), host) && HeaderLength(old(mem[..])) == 8 && ipId % M != 0)
    ensures code >= 0 ==> Readable(mem[..], len) && CheckIp(mem[..], len) == 0
    ensures var given := CheckIp(old(mem[..]), len) == 0 && NeedsId(old(mem[..]), host);
            && nextId == (if given then (ipId as int + 1) % 0x1_0000 else ipId)
            && if given then Patched(old(mem[..]), mem[..], ipId) else mem[..] == old(mem[..])
  {
    hide CheckIp, Patched, NeedsId, HeaderLength, Readable, At;
    nextId := ipId;
    ghost var before := mem[..];
    Known(before, len);
    code := CheckPacket(mem, len);
    if code < 0 {
      return;
    }
    var needed := MissesId(mem, host);
    if needed {
      nextId := (ipId as int + 1) % 0x1_0000;
      PatchId(mem, ipId, host);
      PatchKeepsIff(before, mem[..], ipId, len);
      Known(mem[..], len);
      code := CheckPacket(mem, len);
    }
  }

  /** write_to_serial: what is prepared goes out as a frame; nothing else does. */
  method WriteToSerial(serial: Slip.Serial, mem: array<byte>, len: nat, ipId: uint16, host: Host)
    returns (code: int, nextId: uint16)
    requires mem != serial.buf && serial.Valid() && !serial.failed && !serial.flow
    requires Readable(mem[..], len)
    modifies serial, serial.buf, mem
    ensures serial.Valid() && mem.Length >= len
    ensures code < 0 <==> CheckIp(old(mem[..]), len) != 0
                          || (NeedsId(old(mem[..]), host) && HeaderLength(old(mem[..])) == 8 && ipId % M != 0)
    ensures code < 0 ==> serial.packets == old(serial.packets)
    ensures code >= 0 && !serial.failed ==> serial.packets == old(serial.packets) + [mem[..len]]
    ensures var given := CheckIp(old(mem[..]), len) == 0 && NeedsId(old(mem[..]), host);
            && nextId == (if given then (ipId as int + 1) % 0x1_0000 else ipId)
            && if given then Patched(old(mem[..]), mem[..], ipId) else mem[..] == old(mem[..])
  {
    hide CheckIp, Patched, NeedsId, HeaderLength, Slip.Encode, Slip.EncodeAll;
    code, nextId := Prepare(mem, len, ipId, host);
    if code < 0 {
      return;
    }
    serial.WriteToSerial(mem[..len]);
  }

  lemma Known(mem: seq<byte>, len: nat)
    requires Readable(mem, len)
    ensures CheckIp(mem, len) <= 0 && |mem| >= 60 && |mem| >= len
  {
  }

  // ----- the DHCP relay ---------------------------------------------------------------------------

  const BOOTPS: uint16 := 67
  const BOOTPC: uint16 := 68
  const DHCP_BASE_LEN: nat := 44
  const MAX_OPTIONS: nat := 312

  /** A part with a zero word at `i`, in which the complement of the part's sum is then stored,
      or 0xffff instead of the complement 0, is accepted. */
  lemma ComplementClears(before: seq<byte>, after: seq<byte>, s: uint16, lo: nat, hi: nat, i: nat)
    requires lo <= i && i + 2 <= hi <= |before| && (i - lo) % 2 == 0 && SameBut(before, after, i, i)
    requires At(before, i) == 0
    requires At(after, i) == (0xFFFF - Sum(s, before[lo..hi])) as int
             || (Sum(s, before[lo..hi]) == 0xFFFF && At(after, i) == 0xFFFF)
    ensures Clear(Sum(s, after[lo..hi]))
  {
    hide Words, Sum, Word, Clear;
    WordsAt(before, lo, hi, i);
    WordsAt(after, lo, hi, i);
    SameSlice(before, after, i, i, lo, i);
    SameSlice(before, after, i, i, i + 2, hi);
    SumWords(s, before[lo..hi]);
    ClearIff(s, after[lo..hi]);
    var r := Sum(s, before[lo..hi]);
    var w := (s as int) + Words(before[lo..hi]);
    Complemented(w, r);
  }

  lemma Complemented(w: nat, r: uint16)
    requires w % M == r as int % M
    ensures (w + (0xFFFF - r)) % M == 0
    ensures r == 0xFFFF ==> (w + 0xFFFF) % M == 0
  {
  }

  /** The DHCP message that goes to the client: one hop more, no relay address, chosen options. */
  function ClientMessage(reply: seq<byte>, options: seq<byte>): seq<byte>
    requires |reply| >= DHCP_BASE_LEN
  {
    reply[..3] + [((reply[3] as int) + 1) % 256] + reply[4..24] + [0, 0, 0, 0] + reply[28..DHCP_BASE_LEN] + options
  }

  lemma ClientMessageFields(reply: seq<byte>, options: seq<byte>)
    requires |reply| >= DHCP_BASE_LEN
    ensures var m := ClientMessage(reply, options);
            && |m| == 44 + |options| && m[44..] == options && m[3] as int == (reply[3] as int + 1) % 256
            && (forall k :: 24 <= k < 28 ==> m[k] == 0)
            && (forall k :: 0 <= k < 44 && k != 3 && !(24 <= k < 28) ==> m[k] == reply[k])
  {
    var m := ClientMessage(reply, options);
    assert m[..3] == reply[..3] && m[4..24] == reply[4..24] && m[24..28] == [0, 0, 0, 0];
    forall k | 28 <= k < 44
      ensures m[k] == reply[k]
    {
      assert m[k] == reply[28..DHCP_BASE_LEN][k - 28];
    }
  }

  /** A 16-bit field in network byte order; htons makes it so on either host. */
  method Put(pkt: array<byte>, i: nat, v: uint16)
    requires i + 2 <= pkt.Length
    modifies pkt
    ensures At(pkt[..], i) == v
    ensures forall k :: 0 <= k < pkt.Length && k != i && k != i + 1 ==> pkt[k] == old(pkt[k])
  {
    pkt[i], pkt[i + 1] := v / 256, v % 256;
  }

  /** The source and destination addresses of the relay's packet. */
  method PutAddresses(pkt: array<byte>, giaddr: seq<byte>, reply: seq<byte>)
    requires pkt.Length >= 60 && |giaddr| == 4 && |reply| >= DHCP_BASE_LEN
    modifies pkt
    ensures pkt[12..16] == giaddr
    ensures pkt[16..20] == if reply[10] / 128 == 1 then [255, 255, 255, 255] else reply[16..20]
    ensures forall k :: 0 <= k < pkt.Length && !(12 <= k < 20) ==> pkt[k] == old(pkt[k])
  {
    forall k | 0 <= k < 4 {
      pkt[12 + k] := giaddr[k];
    }
    if reply[10] / 128 == 1 {
      forall k | 0 <= k < 4 {
        pkt[16 + k] := 255;
      }
    } else {
      forall k | 0 <= k < 4 {
        pkt[16 + k] := reply[16 + k];
      }
    }
  }

  /** The header fields of the relay's packet, both checksums still zero. */
  method PutHeaders(pkt: array<byte>, giaddr: seq<byte>, reply: seq<byte>, ipLen: nat, ipId: uint16)
    requires 28 <= ipLen <= 0xFFFF && pkt.Length >= 60 && |giaddr| == 4 && |reply| >= DHCP_BASE_LEN
    modifies pkt
    ensures pkt[28..] == old(pkt[28..])
    ensures pkt[0] == 0x45 && pkt[9] == UDP && At(pkt[..], 2) == ipLen && At(pkt[..], 4) == ipId
    ensures At(pkt[..], 6) == 0 && At(pkt[..], 10) == 0 && At(pkt[..], 26) == 0 && pkt[12..16] == giaddr
    ensures pkt[16..20] == if reply[10] / 128 == 1 then [255, 255, 255, 255] else reply[16..20]
    ensures pkt[1] == 0 && pkt[8] == 64
    ensures At(pkt[..], 20) == 67 && At(pkt[..], 22) == 68 && At(pkt[..], 24) == ipLen - 20
  {
    pkt[0], pkt[1] := 0x45, 0;
    Put(pkt, 2, ipLen);
    Put(pkt, 4, ipId);
    Put(pkt, 6, 0);
    pkt[8], pkt[9] := 64, 17;
    Put(pkt, 10, 0);
    PutAddresses(pkt, giaddr, reply);
    ghost var source, destination := pkt[12..16], pkt[16..20];
    Put(pkt, 20, BOOTPS);
    Put(pkt, 22, BOOTPC);
    Put(pkt, 24, ipLen - 20);
    Put(pkt, 26, 0);
    assert pkt[12..16] == source && pkt[16..20] == destination;
  }

  /** relay_dhcp_to_client from the received reply and the options chosen from it on: the
      packet is accepted by check_ip, and write_to_serial does not patch it. */
  method RelayToClient(pkt: array<byte>, giaddr: seq<byte>, reply: seq<byte>, options: seq<byte>, ipId: uint16)
    returns (ipLen: nat, nextId: uint16)
    requires |giaddr| == 4 && |reply| >= DHCP_BASE_LEN && |options| <= MAX_OPTIONS
    requires pkt.Length == 28 + DHCP_BASE_LEN + MAX_OPTIONS
    modifies pkt
    ensures ipLen == 28 + |ClientMessage(reply, options)| && pkt[28..ipLen] == ClientMessage(reply, options)
    ensures Readable(pkt[..], ipLen) && CheckIp(pkt[..], ipLen) == 0
    ensures forall host :: !NeedsId(pkt[..], host)
    ensures At(pkt[..], 4) == ipId && nextId == (ipId as int + 1) % 0x1_0000
    ensures pkt[0] == 0x45 && pkt[1] == 0 && At(pkt[..], 6) == 0 && pkt[8] == 64 && pkt[9] == 17
    ensures pkt[12..16] == giaddr && pkt[16..20] == if reply[10] / 128 == 1 then [255, 255, 255, 255] else reply[16..20]
    ensures At(pkt[..], 20) == 67 && At(pkt[..], 22) == 68 && At(pkt[..], 24) == ipLen - 20 && At(pkt[..], 26) != 0
  {
    hide Sum, Clear, Word;
    var m := ClientMessage(reply, options);
    ipLen, nextId := 28 + |m|, (ipId as int + 1) % 0x1_0000;
    forall k | 0 <= k < |m| {
      pkt[28 + k] := m[k];
    }
    assert pkt[28..][..|m|] == m;
    PutHeaders(pkt, giaddr, reply, ipLen, ipId);
    assert pkt[28..][..|m|] == m;
    ghost var s0 := pkt[..];
    var sum := Ip4Sum(0, pkt, 0, 20);
    assert pkt[0..20] == s0[0..20];
    Put(pkt, 10, 0xFFFF - sum);
    ghost var s1 := pkt[..];
    var udpLen := ipLen - 20;
    sum := Ip4Sum(17 + udpLen, pkt, 12, 8);
    sum := Ip4Sum(sum, pkt, 20, udpLen);
    assert pkt[12..20] == s1[12..20] && pkt[20..20 + udpLen] == s1[20..ipLen];
    Put(pkt, 26, if sum != 0xFFFF then 0xFFFF - sum else 0xFFFF);
    RelayAccepted(s0, s1, pkt[..], ipLen);
    forall host: Host
      ensures !NeedsId(pkt[..], host)
    {
      NoFlags(pkt[..], host);
    }
    assert pkt[28..ipLen] == m;
    FieldsKept(s0, s1, pkt[..]);
  }

  /** The fields that the two checksums leave as they were. */
  lemma FieldsKept(s0: seq<byte>, s1: seq<byte>, s2: seq<byte>)
    requires SameBut(s0, s1, 10, 10) && SameBut(s1, s2, 26, 26) && |s0| >= 60
    ensures At(s2, 4) == At(s0, 4) && At(s2, 6) == At(s0, 6)
    ensures At(s2, 20) == At(s0, 20) && At(s2, 22) == At(s0, 22) && At(s2, 24) == At(s0, 24)
    ensures s2[12..16] == s0[12..16] && s2[16..20] == s0[16..20]
    ensures s2[0] == s0[0] && s2[1] == s0[1] && s2[8] == s0[8] && s2[9] == s0[9]
  {
    SameSlice(s0, s1, 10, 10, 12, 16);
    SameSlice(s1, s2, 26, 26, 12, 16);
    SameSlice(s0, s1, 10, 10, 16, 20);
    SameSlice(s1, s2, 26, 26, 16, 20);
  }

  lemma SameWord(s0: seq<byte>, s1: seq<byte>, s2: seq<byte>, i: nat)
    requires SameBut(s0, s1, 10, 10) && SameBut(s1, s2, 26, 26) && i + 2 <= 10 && |s0| >= 60
    ensures At(s2, i) == At(s0, i)
  {
  }

  lemma NoFlags(mem: seq<byte>, host: Host)
    requires 60 <= |mem| && At(mem, 6) == 0
    ensures !NeedsId(mem, host)
  {
  }

  /** Both checksums put into a packet with a header of 20 bytes: the packet is accepted. */
  lemma RelayAccepted(s0: seq<byte>, s1: seq<byte>, s2: seq<byte>, ipLen: nat)
    requires 60 <= |s0| && 28 <= ipLen <= |s0| && ipLen <= 0xFFFF
    requires s0[0] == 0x45 && s0[9] == UDP && At(s0, 2) == ipLen && At(s0, 10) == 0 && At(s0, 26) == 0
    requires SameBut(s0, s1, 10, 10) && At(s1, 10) == 0xFFFF - Sum(0, s0[0..20])
    requires var t := Sum(Sum(17 + (ipLen - 20), s1[12..20]), s1[20..ipLen]);
             SameBut(s1, s2, 26, 26) && At(s2, 26) == if t != 0xFFFF then 0xFFFF - t else 0xFFFF
    ensures Readable(s2, ipLen) && CheckIp(s2, ipLen) == 0
    ensures At(s0, 6) == 0 ==> At(s2, 6) == 0
  {
    hide Sum, Clear, Word;
    ComplementClears(s0, s1, 0, 0, 20, 10);
    SameSlice(s1, s2, 26, 26, 0, 20);
    SameSlice(s1, s2, 26, 26, 12, 20);
    assert s2[..20] == s2[0..20];
    ComplementClears(s1, s2, Sum(17 + (ipLen - 20), s1[12..20]), 20, ipLen, 26);
    assert HeaderLength(s2) == 20;
    SameWord(s0, s1, s2, 2);
    SameWord(s0, s1, s2, 6);
  }
}
