/**
  SLIP framing in the serial tunnel (tools/tunslip6.c; RFC 1055).

  `RoundTripIff`, `ChunksDoNotMatter` and `OnlyEndsFrames` are the main results; class
  `Serial` is the outgoing buffer and class `Tunnel` the decoder, which keeps its state
  from one call to the next.
 */
module Slip {
  import opened Segments

  const END: byte := 0xC0
  const ESC: byte := 0xDB
  const ESC_END: byte := 0xDC
  const ESC_ESC: byte := 0xDD
  const ESC_XON: byte := 0xDE
  const ESC_XOFF: byte := 0xDF
  const XON: byte := 17
  const XOFF: byte := 19

  /** Size of both buffers. */
  const SIZE: nat := 2000

  // ----- encoding -------------------------------------------------------------------------

  /** What stands for one byte of a packet; `flow` is software flow control. */
  function Stuff(c: byte, flow: bool): (s: seq<byte>)
    ensures 1 <= |s| <= 2
  {
    if c == END then [ESC, ESC_END]
    else if c == ESC then [ESC, ESC_ESC]
    else if c == XON && flow then [ESC, ESC_XON]
    else if c == XOFF && flow then [ESC, ESC_XOFF]
    else [c]
  }

  function StuffAll(p: seq<byte>, flow: bool): (s: seq<byte>)
    ensures |s| >= |p|
  {
    if p == [] then [] else StuffAll(p[..|p| - 1], flow) + Stuff(p[|p| - 1], flow)
  }

  function Encode(p: seq<byte>, flow: bool): seq<byte> { StuffAll(p, flow) + [END] }

  function EncodeAll(ps: seq<seq<byte>>, flow: bool): seq<byte> {
    if ps == [] then [] else EncodeAll(ps[..|ps| - 1], flow) + Encode(ps[|ps| - 1], flow)
  }

  /** No END, and with flow control no XON and no XOFF. */
  predicate Clean(s: seq<byte>, flow: bool) {
    END !in s && (flow ==> XON !in s && XOFF !in s)
  }

  lemma CleanConcat(a: seq<byte>, b: seq<byte>, flow: bool)
    requires Clean(a, flow) && Clean(b, flow)
    ensures Clean(a + b, flow)
  {
  }

  lemma {:induction false} StuffedClean(p: seq<byte>, flow: bool)
    ensures Clean(StuffAll(p, flow), flow)
    decreases p
  {
    hide Clean, Stuff;
    if p == [] {
      assert Clean([], flow) by { CleanNothing(flow); }
    } else {
      StuffedClean(p[..|p| - 1], flow);
      StuffClean(p[|p| - 1], flow);
      CleanConcat(StuffAll(p[..|p| - 1], flow), Stuff(p[|p| - 1], flow), flow);
    }
  }

  lemma CleanNothing(flow: bool)
    ensures Clean([], flow)
  {
  }

  lemma StuffClean(c: byte, flow: bool)
    ensures Clean(Stuff(c, flow), flow)
  {
  }

  /** END is nothing but the end of a frame; with flow control there is no XON and no XOFF. */
  lemma OnlyEndsFrames(p: seq<byte>, flow: bool)
    ensures forall k :: 0 <= k < |Encode(p, flow)| ==> (Encode(p, flow)[k] == END <==> k == |Encode(p, flow)| - 1)
    ensures flow ==> XON !in Encode(p, flow) && XOFF !in Encode(p, flow)
  {
    hide StuffAll;
    StuffedClean(p, flow);
    forall k | 0 <= k < |Encode(p, flow)| - 1
      ensures Encode(p, flow)[k] == StuffAll(p, flow)[k]
    {
    }
    assert flow ==> XON !in [END] && XOFF !in [END];
  }

  // ----- decoding -------------------------------------------------------------------------

  /** The decoder between two bytes: `escaped` when an ESC waits for the byte behind it. */
  datatype Decoder = Decoder(inbuf: seq<byte>, escaped: bool, frames: seq<seq<byte>>)

  /** A byte is stored; a full buffer is dropped before the next byte is read. */
  function Put(inbuf: seq<byte>, c: byte): (r: seq<byte>)
    ensures |inbuf| < SIZE ==> |r| < SIZE
  {
    if |inbuf| + 1 >= SIZE then [] else inbuf + [c]
  }

  function Unescape(c: byte): byte {
    if c == ESC_END then END else if c == ESC_ESC then ESC
    else if c == ESC_XON then XON else if c == ESC_XOFF then XOFF else c
  }

  function Step(d: Decoder, c: byte): (r: Decoder)
    ensures |d.inbuf| < SIZE ==> |r.inbuf| < SIZE
  {
    if d.escaped then d.(escaped := false, inbuf := Put(d.inbuf, Unescape(c)))
    else if c == END then (if d.inbuf == [] then d else d.(inbuf := [], frames := d.frames + [d.inbuf]))
    else if c == ESC then d.(escaped := true)
    else d.(inbuf := Put(d.inbuf, c))
  }

  function Feed(d: Decoder, s: seq<byte>): Decoder {
    if s == [] then d else Step(Feed(d, s[..|s| - 1]), s[|s| - 1])
  }

  const START: Decoder := Decoder([], false, [])

  lemma {:induction false} FeedConcat(d: Decoder, a: seq<byte>, b: seq<byte>)
    ensures Feed(d, a + b) == Feed(Feed(d, a), b)
    decreases b
  {
    hide Step;
    if b == [] {
      assert a + b == a;
    } else {
      assert (a + b)[..|a + b| - 1] == a + b[..|b| - 1];
      FeedConcat(d, a, b[..|b| - 1]);
    }
  }

  function FeedChunks(d: Decoder, chunks: seq<seq<byte>>): Decoder {
    if chunks == [] then d else Feed(FeedChunks(d, chunks[..|chunks| - 1]), chunks[|chunks| - 1])
  }

  function Concat(chunks: seq<seq<byte>>): seq<byte> {
    if chunks == [] then [] else Concat(chunks[..|chunks| - 1]) + chunks[|chunks| - 1]
  }

  /** The bytes on the line, by their values; a byte behind an ESC that stands for nothing is taken as it is. */
  lemma LineBytes(c: byte, flow: bool, d: Decoder)
    ensures Stuff(c, flow) == if c == 0xC0 then [0xDB, 0xDC] else if c == 0xDB then [0xDB, 0xDD]
                              else if c == 0x11 && flow then [0xDB, 0xDE]
                              else if c == 0x13 && flow then [0xDB, 0xDF] else [c]
    ensures d.escaped ==>
              Step(d, c).inbuf == Put(d.inbuf, if c == 0xDC then 0xC0 else if c == 0xDD then 0xDB
                                               else if c == 0xDE then 0x11 else if c == 0xDF then 0x13 else c)
    ensures !d.escaped && c != 0xC0 && c != 0xDB ==> Step(d, c) == d.(inbuf := Put(d.inbuf, c))
    ensures !d.escaped && c == 0xDB ==> Step(d, c) == d.(escaped := true)
    ensures !d.escaped && c == 0xC0 && d.inbuf != [] ==> Step(d, c) == Decoder([], false, d.frames + [d.inbuf])
    ensures !d.escaped && c == 0xC0 && d.inbuf == [] ==> Step(d, c) == d
  {
  }

  /** However the bytes of the line come in, cut anywhere, even behind an ESC. */
  lemma {:induction false} ChunksDoNotMatter(d: Decoder, chunks: seq<seq<byte>>)
    ensures FeedChunks(d, chunks) == Feed(d, Concat(chunks))
    decreases chunks
  {
    hide Step;
    if chunks != [] {
      ChunksDoNotMatter(d, chunks[..|chunks| - 1]);
      FeedConcat(d, Concat(chunks[..|chunks| - 1]), chunks[|chunks| - 1]);
    }
  }

  // ----- round trip -----------------------------------------------------------------------

  /** The buffer after the bytes of a packet: what is left behind the last full buffer. */
  function Kept(p: seq<byte>): seq<byte> { p[|p| - |p| % SIZE..] }

  lemma StuffStep(d: Decoder, c: byte, flow: bool)
    requires !d.escaped
    ensures Feed(d, Stuff(c, flow)) == d.(inbuf := Put(d.inbuf, c))
  {
    var s := Stuff(c, flow);
    assert Feed(d, s[..0]) == d;
    if |s| == 2 {
      assert s[..1][..0] == [];
      assert Feed(d, s[..1]) == Step(d, ESC);
    } else {
      assert s[..|s| - 1] == s[..0];
    }
  }

  lemma Remainder(a: nat, q: nat, r: nat)
    requires a == q * SIZE + r && r < SIZE
    ensures a % SIZE == r
  {
  }

  /** The remainder of the next number. */
  lemma NextRemainder(n: nat)
    ensures (n + 1) % SIZE == if n % SIZE + 1 == SIZE then 0 else n % SIZE + 1
  {
    var q, r := n / SIZE, n % SIZE;
    assert n == q * SIZE + r;
    if r + 1 == SIZE {
      Remainder(n + 1, q + 1, 0);
    } else {
      Remainder(n + 1, q, r + 1);
    }
  }

  /** What is left of a packet is its last `k` bytes, `k` below the size of the buffer. */
  lemma KeptEnd(p: seq<byte>) returns (k: nat)
    ensures k == |p| % SIZE && k < SIZE && k <= |p| && Kept(p) == p[|p| - k..]
  {
    k := |p| % SIZE;
  }

  lemma KeptStep(p: seq<byte>)
    requires p != []
    ensures Kept(p) == Put(Kept(p[..|p| - 1]), p[|p| - 1]) && |Kept(p)| < SIZE
  {
    hide Kept;
    var q := p[..|p| - 1];
    var k := KeptEnd(p);
    var n := KeptEnd(q);
    NextRemainder(|q|);
    if n + 1 < SIZE {
      assert p[|p| - n - 1..] == q[|q| - n..] + [p[|p| - 1]];
    }
  }

  lemma {:induction false} FeedStuffed(frames: seq<seq<byte>>, p: seq<byte>, flow: bool)
    ensures Feed(Decoder([], false, frames), StuffAll(p, flow)) == Decoder(Kept(p), false, frames)
    decreases p
  {
    hide Stuff, Put, Step, Feed, Kept;
    var d := Decoder([], false, frames);
    if p == [] {
      FeedNothing(d);
      assert Kept(p) == [] by { KeptNothing(); }
    } else {
      var q := p[..|p| - 1];
      FeedStuffed(frames, q, flow);
      FeedConcat(d, StuffAll(q, flow), Stuff(p[|p| - 1], flow));
      StuffStep(Decoder(Kept(q), false, frames), p[|p| - 1], flow);
      KeptStep(p);
    }
  }

  lemma FeedNothing(d: Decoder)
    ensures Feed(d, []) == d
  {
  }

  lemma KeptNothing()
    ensures Kept([]) == []
  {
  }

  /** The frames that arrive: for every packet what `Kept` leaves of it, if anything. */
  function Received(ps: seq<seq<byte>>): (r: seq<seq<byte>>)
    ensures |r| <= |ps|
  {
    if ps == [] then []
    else
      var k := Kept(ps[|ps| - 1]);
      Received(ps[..|ps| - 1]) + if k == [] then [] else [k]
  }

  lemma FeedEnd(frames: seq<seq<byte>>, inbuf: seq<byte>)
    ensures Feed(Decoder(inbuf, false, frames), [END])
         == Decoder([], false, frames + if inbuf == [] then [] else [inbuf])
  {
    assert [END][..0] == [];
    assert frames + [] == frames;
  }

  /** What the decoder makes of any list of packets. */
  lemma {:induction false} DecodeEncoded(ps: seq<seq<byte>>, flow: bool)
    ensures Feed(START, EncodeAll(ps, flow)) == Decoder([], false, Received(ps))
    decreases ps
  {
    hide Feed, Kept, StuffAll;
    if ps == [] {
      FeedNothing(START);
    } else {
      var front, p := ps[..|ps| - 1], ps[|ps| - 1];
      DecodeEncoded(front, flow);
      FeedConcat(START, EncodeAll(front, flow), Encode(p, flow));
      var d := Decoder([], false, Received(front));
      FeedConcat(d, StuffAll(p, flow), [END]);
      FeedStuffed(Received(front), p, flow);
      FeedEnd(Received(front), Kept(p));
    }
  }

  /** Packets that fit into the buffer of the decoder with the byte that it keeps free. */
  predicate Fits(p: seq<byte>) { 1 <= |p| < SIZE }

  lemma {:induction false} ReceivedIff(ps: seq<seq<byte>>)
    ensures Received(ps) == ps <==> forall k :: 0 <= k < |ps| ==> Fits(ps[k])
    decreases ps
  {
    hide Kept, Fits;
    if ps != [] {
      var front, p := ps[..|ps| - 1], ps[|ps| - 1];
      ReceivedIff(front);
      KeptIff(p);
      if Received(ps) == ps {
        assert Kept(p) != [];
        assert Received(ps)[..|ps| - 1] == Received(front);
        assert Received(ps)[|ps| - 1] == Kept(p);
        forall k | 0 <= k < |ps|
          ensures Fits(ps[k])
        {
          if k < |front| {
            assert front[k] == ps[k];
          }
        }
      }
      if forall k :: 0 <= k < |ps| ==> Fits(ps[k]) {
        assert Fits(ps[|ps| - 1]);
        assert forall k :: 0 <= k < |front| ==> front[k] == ps[k];
        assert front + [p] == ps;
      }
    }
  }

  lemma KeptIff(p: seq<byte>)
    ensures (Kept(p) == p && p != []) <==> Fits(p)
  {
  }

  /** A list of packets arrives as it was sent iff every packet has 1 to 1999 bytes. */
  lemma RoundTripIff(ps: seq<seq<byte>>, flow: bool)
    ensures Feed(START, EncodeAll(ps, flow)) == Decoder([], false, ps) <==> forall k :: 0 <= k < |ps| ==> Fits(ps[k])
  {
    hide Feed, EncodeAll, Received, Fits;
    DecodeEncoded(ps, flow);
    ReceivedIff(ps);
  }

  // ----- the decoder in place ---------------------------------------------------------------

  /** The statics of serial_to_tun, and the ESC that it has put back into the stream. */
  class Tunnel {
    const inbuf: array<byte>
    var inbufptr: nat
    var putBack: bool
    var frames: seq<seq<byte>>

    ghost predicate Valid()
      reads this
    {
      inbuf.Length == SIZE && inbufptr < SIZE
    }

    ghost function State(): Decoder
      requires Valid()
      reads this, inbuf
    {
      Decoder(inbuf[..inbufptr], putBack, frames)
    }

    constructor ()
      ensures Valid() && State() == START && fresh(inbuf)
    {
      inbuf := new byte[SIZE];
      inbufptr, putBack, frames := 0, false, [];
    }

    /** The default case of the switch, and the test at read_more. */
    method Store(c: byte)
      requires Valid()
      modifies this`inbufptr, inbuf
      ensures Valid() && inbuf[..inbufptr] == Put(old(inbuf[..inbufptr]), c)
    {
      inbuf[inbufptr] := c;
      inbufptr := inbufptr + 1;
      if inbufptr >= SIZE {
        inbufptr := 0;
      }
    }

    /** serial_to_tun: reads what is available, of which there is something. */
    method SerialToTun(available: seq<byte>)
      requires Valid() && available != []
      modifies this, inbuf
      ensures Valid() && State() == Feed(old(State()), available)
    {
      hide Put, Unescape;
      var i := 0;
      ghost var d := State();
      FeedNothing(d);
      while i < |available|
        invariant i <= |available| && Valid() && State() == Feed(d, available[..i])
        invariant i > 0 && i < |available| ==> !putBack
        decreases |available| - i
      {
        assert available[..i + 1][..i] == available[..i];
        var c := if putBack then ESC else available[i];
        if !putBack {
          i := i + 1;
        }
        if c == END {
          if inbufptr > 0 {
            frames := frames + [inbuf[..inbufptr]];
            inbufptr := 0;
          }
        } else if c == ESC {
          if i == |available| {
            putBack := true;
            return;
          }
          ghost var j := i;
          assert available[..j + 1][..j] == available[..j];
          putBack := false;
          c := available[i];
          i := i + 1;
          if c == ESC_END {
            c := END;
          } else if c == ESC_ESC {
            c := ESC;
          } else if c == ESC_XON {
            c := XON;
          } else if c == ESC_XOFF {
            c := XOFF;
          }
          UnescapeIs(available[j]);
          Store(c);
        } else {
          Store(c);
        }
      }
      assert available[..i] == available;
    }
  }

  lemma UnescapeIs(c: byte)
    ensures Unescape(c) == if c == ESC_END then END else if c == ESC_ESC then ESC
                           else if c == ESC_XON then XON else if c == ESC_XOFF then XOFF else c
  {
  }

  // ----- the outgoing buffer --------------------------------------------------------------------

  /** slip_buf with its two indices.  `out` is what has gone to the line, `packets` and
      `flow` are what it should be; `failed` when the program has given up with an overflow. */
  class Serial {
    const buf: array<byte>
    var begin: nat
    var end: nat
    var failed: bool
    var out: seq<byte>
    const flow: bool
    ghost var packets: seq<seq<byte>>

    /** Nothing is lost, repeated or reordered between the packets and the line. */
    ghost predicate Valid()
      reads this, buf
    {
      buf.Length == SIZE && begin <= end <= SIZE && (!failed ==> out + buf[begin..end] == EncodeAll(packets, flow))
    }

    constructor (flow: bool)
      ensures Valid() && packets == [] && begin == end == 0 && !failed && this.flow == flow && fresh(buf)
    {
      buf := new byte[SIZE];
      begin, end, failed, out, packets := 0, 0, false, [], [];
      this.flow := flow;
    }

    /** slip_send. */
    method Send(c: byte)
      requires buf.Length == SIZE && begin <= end <= SIZE && !failed
      modifies this`end, this`failed, buf
      ensures begin <= end <= SIZE && failed == (old(end) == SIZE)
      ensures !failed ==> end == old(end) + 1 && buf[begin..end] == old(buf[begin..end]) + [c]
    {
      if end >= SIZE {
        failed := true;
        return;
      }
      buf[end] := c;
      end := end + 1;
    }

    /** Two bytes for one, unless the first has already failed. */
    method SendPair(c: byte, d: byte)
      requires buf.Length == SIZE && begin <= end <= SIZE && !failed
      modifies this`end, this`failed, buf
      ensures begin <= end <= SIZE && failed == (old(end) + 2 > SIZE)
      ensures !failed ==> end == old(end) + 2 && buf[begin..end] == old(buf[begin..end]) + [c, d]
    {
      Send(c);
      if !failed {
        Send(d);
      }
    }

    /** slip_send_char. */
    method SendChar(c: byte)
      requires buf.Length == SIZE && begin <= end <= SIZE && !failed
      modifies this`end, this`failed, buf
      ensures begin <= end <= SIZE && failed == (old(end) + |Stuff(c, flow)| > SIZE)
      ensures !failed ==> end == old(end) + |Stuff(c, flow)| && buf[begin..end] == old(buf[begin..end]) + Stuff(c, flow)
    {
      if c == END {
        SendPair(ESC, ESC_END);
      } else if c == ESC {
        SendPair(ESC, ESC_ESC);
      } else if c == XON {
        if flow {
          SendPair(ESC, ESC_XON);
        } else {
          Send(c);
        }
      } else if c == XOFF {
        if flow {
          SendPair(ESC, ESC_XOFF);
        } else {
          Send(c);
        }
      } else {
        Send(c);
      }
    }

    /** The loop of write_to_serial. */
    method SendPacket(p: seq<byte>)
      requires buf.Length == SIZE && begin <= end <= SIZE && !failed
      modifies this`end, this`failed, buf
      ensures begin <= end <= SIZE && (failed ==> old(end) + |StuffAll(p, flow)| > SIZE)
      ensures !failed ==> end == old(end) + |StuffAll(p, flow)|
      ensures !failed ==> buf[begin..end] == old(buf[begin..end]) + StuffAll(p, flow)
    {
      hide Stuff, StuffAll;
      StuffNothing(flow);
      var i := 0;
      assert p[..0] == [];
      while i < |p|
        invariant i <= |p| && begin <= end <= SIZE && !failed && end == old(end) + |StuffAll(p[..i], flow)|
        invariant buf[begin..end] == old(buf[begin..end]) + StuffAll(p[..i], flow)
      {
        StuffGrows(p, i, flow);
        SendChar(p[i]);
        if failed {
          StuffPrefix(p, i + 1, flow);
          return;
        }
        i := i + 1;
      }
      assert p[..i] == p;
    }

    /** write_to_serial: fails iff the encoded packet does not fit behind what is still buffered. */
    method WriteToSerial(p: seq<byte>)
      requires Valid() && !failed
      modifies this, buf
      ensures Valid() && out == old(out) && begin == old(begin)
      ensures failed <==> old(end) + |Encode(p, flow)| > SIZE
      ensures !failed ==> packets == old(packets) + [p] && end == old(end) + |Encode(p, flow)|
    {
      hide StuffAll, EncodeAll;
      ghost var pending := buf[begin..end];
      SendPacket(p);
      if failed {
        return;
      }
      Send(END);
      packets := packets + [p];
      EncodeOneMore(old(packets), p, flow);
      assert !failed ==> buf[begin..end] == pending + Encode(p, flow);
      assert out + (pending + Encode(p, flow)) == out + pending + Encode(p, flow);
    }

    /** slip_flushbuf; `n` is the result of write, -1 when it would block. */
    method FlushBuf(n: int)
      requires Valid() && -1 <= n <= end - begin
      modifies this`begin, this`end, this`out
      ensures Valid() && out == old(out) + old(buf[begin..end])[..if n < 0 then 0 else n]
    {
      hide EncodeAll;
      ghost var pending, out0 := buf[begin..end], out;
      assert out0 + pending[..0] == out0;
      if end == 0 {
        return;
      }
      if n != -1 {
        assert buf[begin..begin + n] == pending[..n];
        out := out + buf[begin..begin + n];
        begin := begin + n;
        assert buf[begin..end] == pending[n..];
        assert out0 + pending[..n] + pending[n..] == out0 + pending;
        if begin == end {
          begin, end := 0, 0;
        }
      }
    }
  }

  lemma StuffNothing(flow: bool)
    ensures StuffAll([], flow) == []
  {
  }

  lemma StuffGrows(p: seq<byte>, i: nat, flow: bool)
    requires i < |p|
    ensures StuffAll(p[..i + 1], flow) == StuffAll(p[..i], flow) + Stuff(p[i], flow)
  {
    assert p[..i + 1][..i] == p[..i];
  }

  lemma {:induction false} StuffPrefix(p: seq<byte>, i: nat, flow: bool)
    requires i <= |p|
    ensures |StuffAll(p[..i], flow)| <= |StuffAll(p, flow)|
    decreases |p| - i
  {
    if i < |p| {
      StuffGrows(p, i, flow);
      StuffPrefix(p, i + 1, flow);
    } else {
      assert p[..i] == p;
    }
  }

  lemma EncodeOneMore(ps: seq<seq<byte>>, p: seq<byte>, flow: bool)
    ensures EncodeAll(ps + [p], flow) == EncodeAll(ps, flow) + Encode(p, flow)
  {
    assert (ps + [p])[..|ps|] == ps;
  }

  /** Both ends together: once the buffer is flushed, the packets have arrived, however the
      writes and reads were cut. */
  lemma Delivered(packets: seq<seq<byte>>, flow: bool, chunks: seq<seq<byte>>)
    requires Concat(chunks) == EncodeAll(packets, flow)
    requires forall k :: 0 <= k < |packets| ==> Fits(packets[k])
    ensures FeedChunks(START, chunks) == Decoder([], false, packets)
  {
    hide Feed, Concat, FeedChunks, EncodeAll, Fits;
    ChunksDoNotMatter(START, chunks);
    RoundTripIff(packets, flow);
  }
}
