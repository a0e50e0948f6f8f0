/**
  Code propagation over broadcasts (apps/codeprop/codeprop.c).

  A sender broadcasts an image packet by packet and goes back when it hears a NACK; a
  receiver stores what comes in order and asks for what is missing.  The medium loses,
  repeats and reorders.  `RunKeeps` and `StartedImageIff` are the main results.
 */
module CodeProp {
  import opened Segments

  type uint16 = x: int | 0 <= x <= 0xFFFF

  const UDPDATASIZE: nat := 32
  const ROM_SIZE: nat := 0x1_0000

  datatype Kind = DATA | NACK

  /** struct codeprop_udphdr with the data that came with it. */
  datatype Packet = Packet(kind: Kind, id: uint16, addr: uint16, len: uint16, data: seq<byte>)

  function Min(a: nat, b: nat): nat { if a < b then a else b }

  // ----- receiver -----------------------------------------------------------------------------

  /** A program start that was asked for: the id, what was stored, and the first packet accepted. */
  datatype Launch = Launch(id: uint16, image: seq<byte>, first: Packet)

  /** The receiver between two packets; `first` and `starts` are history. */
  datatype Receiver = Receiver(receiving: bool, id: uint16, addr: nat, len: nat, rom: seq<byte>,
                               first: Packet, starts: seq<Launch>)

  function Write(rom: seq<byte>, at: nat, data: seq<byte>): (r: seq<byte>)
    requires at + |data| <= |rom|
    ensures |r| == |rom| && r[..at + |data|] == rom[..at] + data
  {
    rom[..at] + data + rom[at + |data|..]
  }

  /** send_nack: type and address are overwritten in the buffer of the packet that was just
      received; the header of it is what goes out. */
  function Nacked(p: Packet, addr: uint16): Packet { p.(kind := NACK, addr := addr) }

  function Header(p: Packet): Packet { p.(data := []) }

  /** The memory has room for the packet where it would be stored. */
  predicate Room(r: Receiver, p: Packet) {
    && |r.rom| == ROM_SIZE && r.addr <= 0xFFFF && r.len <= 0xFFFF && |p.data| <= UDPDATASIZE
    && (r.receiving && p.addr == r.addr ==> r.addr + |p.data| <= 0xFFFF)
  }

  /** One turn of the loop of recv_udpthread, with the packet in the buffer; the NACK that it sends. */
  function Take(r: Receiver, p: Packet): (Receiver, seq<Packet>)
    requires Room(r, p) && r.receiving
  {
    if p.addr == r.addr then
      (Ending(if |p.data| > 0 then r.(rom := Write(r.rom, r.addr, p.data), addr := r.addr + |p.data|) else r), [])
    else if p.addr > r.addr then (Ending(r), [Header(Nacked(p, r.addr))])
    else (Ending(r), [])
  }

  /** The end of the loop: the program is started. */
  function Ending(r: Receiver): Receiver
    requires |r.rom| == ROM_SIZE && r.len <= 0xFFFF
  {
    if r.addr < r.len then r else r.(receiving := false, starts := r.starts + [Launch(r.id, r.rom[..r.len], r.first)])
  }

  /** A packet reaches recv_udpthread. */
  function Receive(r: Receiver, p: Packet): (Receiver, seq<Packet>)
    requires Room(r, p)
  {
    if p.kind != DATA then (r, [])
    else if r.receiving then
      if p.id == r.id then Take(r, p) else (r, [])
    else if p.id > r.id then
      // the NACK for address 0 leaves a packet with address 0 in the buffer
      var nacks := if p.addr != 0 then [Header(Nacked(p, 0))] else [];
      var q := if p.addr != 0 then Nacked(p, 0) else p;
      var u := r.(receiving := true, addr := 0, id := p.id, len := p.len, first := p);
      if p.len == 0 then (Ending(u), nacks)
      else
        var (w, more) := Take(u, q);
        (w, nacks + more)
    else (r, [])
  }

  /** The NACK timer runs out; a packet that came at the same time is overwritten and lost. */
  function TimeOut(r: Receiver, buffer: Packet): seq<Packet>
    requires r.addr <= 0xFFFF
  {
    if r.receiving then [Header(Nacked(buffer, r.addr))] else []
  }

  // ----- sender -------------------------------------------------------------------------------

  datatype Sender = Sender(sending: bool, id: uint16, image: seq<byte>, addr: nat)

  /** send_udpdata. */
  function DataPacket(s: Sender): Packet
    requires s.addr < |s.image| <= 0xFFFF
  {
    Packet(DATA, s.id, s.addr, |s.image|, s.image[s.addr..s.addr + Min(UDPDATASIZE, |s.image| - s.addr)])
  }

  /** A packet goes out and the address moves on. */
  function Sent(s: Sender): Sender
    requires s.addr < |s.image| <= 0xFFFF
  {
    s.(addr := s.addr + |DataPacket(s).data|)
  }

  /** A NACK is accepted only if it points to a lower byte, or to the current one. */
  function Heard(s: Sender, addr: uint16): Sender { if addr <= s.addr then s.(addr := addr) else s }

  // ----- every run ------------------------------------------------------------------------------

  /** `images` says what was sent under which id; `medium` is everything that was ever broadcast. */
  datatype World = World(sender: Sender, receiver: Receiver, images: map<uint16, seq<byte>>, medium: set<Packet>)

  /** A data packet carries the piece of its image that it names. */
  predicate Honest(p: Packet, images: map<uint16, seq<byte>>) {
    if p.kind == NACK then p.data == [] else
      && p.id in images && p.len == |images[p.id]| && p.addr < p.len
      && p.data == images[p.id][p.addr..p.addr + Min(UDPDATASIZE, p.len - p.addr)]
  }

  /** What is stored behind the first packet: its data, then the image. */
  predicate Follows(stored: seq<byte>, first: Packet, image: seq<byte>) {
    && |first.data| <= |stored| <= |image|
    && stored == first.data + image[|first.data|..|stored|]
  }

  predicate Receiving(r: Receiver, images: map<uint16, seq<byte>>) {
    r.receiving ==>
      && r.id in images && r.len == |images[r.id]| && r.addr < r.len && r.addr <= |r.rom|
      && r.first.kind == DATA && r.first.id == r.id && Honest(r.first, images)
      && Follows(r.rom[..r.addr], r.first, images[r.id])
  }

  predicate Launched(l: Launch, images: map<uint16, seq<byte>>) {
    && l.id in images && |l.image| == |images[l.id]|
    && l.first.kind == DATA && l.first.id == l.id && Honest(l.first, images)
    && Follows(l.image, l.first, images[l.id])
  }

  predicate Bounded(r: Receiver) {
    |r.rom| == ROM_SIZE && r.addr <= 0xFFFF && r.len <= 0xFFFF
  }

  predicate Good(w: World) {
    && Bounded(w.receiver)
    && (forall i <- w.images :: |w.images[i]| <= 0xFFFF)
    && (forall i <- w.images :: i <= w.sender.id)
    && (w.sender.sending ==> w.sender.id in w.images && w.sender.image == w.images[w.sender.id])
    && (forall p <- w.medium :: Honest(p, w.images))
    && Receiving(w.receiver, w.images)
    && (forall k :: 0 <= k < |w.receiver.starts| ==> Launched(w.receiver.starts[k], w.images))
  }

  datatype Event =
    | Load(image: seq<byte>)
    | Broadcast
    | Hear(addr: uint16)
    | Finish
    | Arrive(p: Packet)
    | NackTimer(buffer: Packet)

  /** What is on the medium fits into the memory of the receiver. */
  lemma MediumFits(w: World, p: Packet)
    requires Good(w) && p in w.medium
    ensures Room(w.receiver, p)
  {
    assert Honest(p, w.images);
  }

  /** Steps that the state does not allow change nothing. */
  function Step(w: World, e: Event): World
    requires Good(w)
  {
    match e
    case Load(image) =>
      if |image| > 0xFFFF || w.sender.id == 0xFFFF then w
      else w.(sender := Sender(true, w.sender.id + 1, image, 0), images := w.images[w.sender.id + 1 := image])
    case Broadcast =>
      if w.sender.sending && w.sender.addr < |w.sender.image|
      then w.(sender := Sent(w.sender), medium := w.medium + {DataPacket(w.sender)}) else w
    case Hear(addr) => if w.sender.sending then w.(sender := Heard(w.sender, addr)) else w
    case Finish => if w.sender.addr >= |w.sender.image| then w.(sender := w.sender.(sending := false)) else w
    case Arrive(p) =>
      if p in w.medium then
        MediumFits(w, p);
        var (r, nacks) := Receive(w.receiver, p);
        w.(receiver := r, medium := w.medium + set n | n in nacks)
      else w
    case NackTimer(buffer) => w.(medium := w.medium + set n | n in TimeOut(w.receiver, buffer))
  }

  /** The next piece in place. */
  lemma PieceFits(r: Receiver, p: Packet, images: map<uint16, seq<byte>>)
    requires Bounded(r) && Receiving(r, images) && r.receiving && p.kind == DATA && p.id == r.id && Honest(p, images)
    requires |images[p.id]| <= 0xFFFF && p.addr == r.addr
    ensures |p.data| > 0 && r.addr + |p.data| <= r.len && Room(r, p)
    ensures Follows(Write(r.rom, r.addr, p.data)[..r.addr + |p.data|], r.first, images[r.id])
  {
    var image := images[r.id];
    var n, l := r.addr + |p.data|, |r.first.data|;
    assert image[l..r.addr] + image[r.addr..n] == image[l..n];
    assert r.rom[..r.addr] + p.data == r.first.data + image[l..n];
  }

  lemma TakeKeeps(r: Receiver, p: Packet, images: map<uint16, seq<byte>>)
    requires Bounded(r) && Room(r, p) && Receiving(r, images) && r.receiving
    requires p.kind == DATA && p.id == r.id && Honest(p, images) && |images[p.id]| <= 0xFFFF
    requires forall k :: 0 <= k < |r.starts| ==> Launched(r.starts[k], images)
    ensures var u := Take(r, p).0;
            && Bounded(u) && Receiving(u, images)
            && forall k :: 0 <= k < |u.starts| ==> Launched(u.starts[k], images)
  {
    hide Follows, Write;
    if p.addr == r.addr {
      PieceFits(r, p, images);
      var u := r.(rom := Write(r.rom, r.addr, p.data), addr := r.addr + |p.data|);
      if u.addr >= u.len {
        assert u.addr == u.len;
        assert Launched(Launch(u.id, u.rom[..u.len], u.first), images);
      }
    }
  }

  /** The first packet of an id, of whatever address, ends up at address 0. */
  lemma FirstKeeps(r: Receiver, p: Packet, images: map<uint16, seq<byte>>)
    requires Bounded(r) && Room(r, p) && !r.receiving && p.kind == DATA && p.id > r.id && Honest(p, images)
    requires |images[p.id]| <= 0xFFFF
    requires forall k :: 0 <= k < |r.starts| ==> Launched(r.starts[k], images)
    ensures var u := Receive(r, p).0;
            && Bounded(u) && Receiving(u, images)
            && forall k :: 0 <= k < |u.starts| ==> Launched(u.starts[k], images)
    ensures Receive(r, p).0.rom[..|p.data|] == p.data
  {
    var image := images[p.id];
    var l := |p.data|;
    var rom := Write(r.rom, 0, p.data);
    assert rom[..l] == p.data;
    assert p.data + image[l..l] == p.data;
    assert Follows(rom[..l], p, image);
    if l >= p.len {
      assert l == p.len;
      assert Launched(Launch(p.id, rom[..p.len], p), images);
    }
  }

  lemma ReceiveKeeps(r: Receiver, p: Packet, images: map<uint16, seq<byte>>)
    requires Bounded(r) && Room(r, p) && Receiving(r, images) && Honest(p, images)
    requires p.id in images ==> |images[p.id]| <= 0xFFFF
    requires forall k :: 0 <= k < |r.starts| ==> Launched(r.starts[k], images)
    ensures var (u, nacks) := Receive(r, p);
            && Bounded(u) && Receiving(u, images)
            && (forall k :: 0 <= k < |u.starts| ==> Launched(u.starts[k], images))
            && forall n <- nacks :: n.kind == NACK && n.data == []
  {
    hide Follows, Write, Launched, Honest;
    if p.kind == DATA {
      assert p.id in images by { HonestKnown(p, images); }
      if r.receiving && p.id == r.id {
        TakeKeeps(r, p, images);
      } else if !r.receiving && p.id > r.id {
        FirstKeeps(r, p, images);
      }
    }
  }

  lemma HonestKnown(p: Packet, images: map<uint16, seq<byte>>)
    requires Honest(p, images) && p.kind == DATA
    ensures p.id in images
  {
  }

  /** A new image under a new id changes nothing about the images before it. */
  lemma LoadKeeps(w: World, image: seq<byte>)
    requires Good(w)
    ensures Good(Step(w, Load(image)))
  {
    hide Follows, Bounded;
    if |image| <= 0xFFFF && w.sender.id < 0xFFFF {
      var images := w.images[w.sender.id + 1 := image];
      assert forall i <- w.images :: images[i] == w.images[i];
      forall p <- w.medium
        ensures Honest(p, images)
      {
        assert Honest(p, w.images);
      }
      forall k | 0 <= k < |w.receiver.starts|
        ensures Launched(w.receiver.starts[k], images)
      {
        assert Launched(w.receiver.starts[k], w.images);
      }
    }
  }

  lemma BroadcastKeeps(w: World)
    requires Good(w)
    ensures Good(Step(w, Broadcast))
  {
    hide Follows, Launched, Receiving;
  }

  lemma ArriveKeeps(w: World, p: Packet)
    requires Good(w)
    ensures Good(Step(w, Arrive(p)))
  {
    hide Receive, Receiving, Launched, Bounded, Room;
    if p in w.medium {
      MediumFits(w, p);
      assert Honest(p, w.images);
      ReceiveKeeps(w.receiver, p, w.images);
    }
  }

  lemma StepKeeps(w: World, e: Event)
    requires Good(w)
    ensures Good(Step(w, e))
  {
    match e {
      case Load(image) => LoadKeeps(w, image);
      case Broadcast => BroadcastKeeps(w);
      case Arrive(p) => ArriveKeeps(w, p);
      case Hear(addr) => {}
      case Finish => {}
      case NackTimer(buffer) => {}
    }
  }

  function Run(w: World, events: seq<Event>): World
    requires Good(w)
    decreases events
  {
    if events == [] then w
    else
      StepKeeps(w, events[0]);
      Run(Step(w, events[0]), events[1..])
  }

  predicate Initial(w: World) {
    && w.images == map[] && w.medium == {} && !w.sender.sending
    && Bounded(w.receiver) && !w.receiver.receiving && w.receiver.starts == []
  }

  lemma {:induction false} RunGood(w: World, events: seq<Event>)
    requires Good(w)
    ensures Good(Run(w, events))
    decreases events
  {
    hide Good, Step;
    if events != [] {
      StepKeeps(w, events[0]);
      RunGood(Step(w, events[0]), events[1..]);
    }
  }

  /** The stored bytes are those of the image iff the first packet held its beginning. */
  lemma FollowsIff(stored: seq<byte>, first: Packet, images: map<uint16, seq<byte>>)
    requires first.kind == DATA && Honest(first, images) && Follows(stored, first, images[first.id])
    ensures stored == images[first.id][..|stored|] <==>
              || first.addr == 0
              || images[first.id][first.addr..first.addr + |first.data|] == images[first.id][..|first.data|]
  {
    var image, l := images[first.id], |first.data|;
    assert stored[..l] == first.data && stored[l..] == image[l..|stored|];
    assert image[..|stored|][..l] == image[..l];
    if first.data == image[..l] {
      assert stored == image[..l] + image[l..|stored|];
    }
  }

  /**
    In every run, whatever the medium loses, repeats and reorders: a receiver that is
    receiving holds, on the bytes below its address, exactly the image if the first packet
    of this id was that of address 0, and never more than the image; and a program is
    started only when everything has been stored.
   */
  lemma RunKeeps(w: World, events: seq<Event>)
    requires Initial(w)
    ensures Good(w)
    ensures var r := Run(w, events).receiver;
            var images := Run(w, events).images;
            && (r.receiving ==> r.id in images && r.addr < r.len == |images[r.id]| && r.len <= |r.rom|)
            && (r.receiving && r.first.addr == 0 ==> r.rom[..r.addr] == images[r.id][..r.addr])
            && (forall k :: 0 <= k < |r.starts| ==>
                  r.starts[k].id in images && |r.starts[k].image| == |images[r.starts[k].id]|)
            && (forall k :: 0 <= k < |r.starts| && r.starts[k].first.addr == 0 ==>
                  r.starts[k].image == images[r.starts[k].id])
  {
    RunGood(w, events);
    var v := Run(w, events);
    assert Bounded(v.receiver);
    if v.receiver.receiving {
      FollowsIff(v.receiver.rom[..v.receiver.addr], v.receiver.first, v.images);
    }
    forall k | 0 <= k < |v.receiver.starts|
      ensures var l := v.receiver.starts[k];
              && l.id in v.images && |l.image| == |v.images[l.id]|
              && (l.first.addr == 0 ==> l.image == v.images[l.id])
    {
      StartedImageIff(v, k);
    }
  }

  /**
    The program that is started is the sender's image iff the first packet accepted was that
    of address 0, or happened to hold the bytes that the image begins with: otherwise its data,
    stored at address 0, stays there.
   */
  lemma StartedImageIff(w: World, k: nat)
    requires Good(w) && k < |w.receiver.starts|
    ensures var l := w.receiver.starts[k];
            && l.id in w.images && |l.image| == |w.images[l.id]|
            && l.first.id == l.id && l.first.addr as int + |l.first.data| <= |l.image|
            && (l.image == w.images[l.id] <==>
                  l.first.addr == 0
                  || w.images[l.id][l.first.addr..l.first.addr + |l.first.data|] == w.images[l.id][..|l.first.data|])
  {
    var l := w.receiver.starts[k];
    assert Launched(l, w.images);
    FollowsIff(l.image, l.first, w.images);
    assert w.images[l.id][..|l.image|] == w.images[l.id];
  }

  /** A receiver that hears the second packet first starts the wrong program. */
  lemma SecondPacketFirst(rom: seq<byte>, image: seq<byte>, blank: Packet)
    requires |rom| == ROM_SIZE && |image| == 64 && image[..32] != image[32..]
    ensures var r := Receiver(false, 0, 0, 0, rom, blank, []);
            var p := Packet(DATA, 1, 32, 64, image[32..]);
            && Room(r, p) && var u := Receive(r, p).0;
            && Room(u, p) && var v := Receive(u, p).0;
            && v.starts == [Launch(1, image[32..] + image[32..], p)] && v.starts[0].image != image
  {
    var r := Receiver(false, 0, 0, 0, rom, blank, []);
    var p := Packet(DATA, 1, 32, 64, image[32..]);
    var u := Receive(r, p).0;
    assert u.rom[..32] == image[32..];
    var v := Receive(u, p).0;
    assert v.rom[..64] == u.rom[..32] + image[32..];
    assert image == image[..32] + image[32..];
  }

  /** Recovery: while the sender is sending, a NACK that gets through and the packet that answers
      it bring the receiver forward. */
  lemma NackRecovers(w: World)
    requires Good(w) && w.receiver.receiving && w.sender.sending && w.sender.id == w.receiver.id
    requires w.receiver.addr <= w.sender.addr
    ensures var a := w.receiver.addr;
            && a <= 0xFFFF && var w1 := Step(w, Hear(a));
            && Good(w1) && w1.sender.addr < |w1.sender.image| <= 0xFFFF && var w2 := Step(w1, Broadcast);
            && Good(w2) && var w3 := Step(w2, Arrive(DataPacket(w1.sender)));
            && w3.receiver.addr == a + Min(UDPDATASIZE, w.receiver.len - a)
  {
    hide Follows, Launched, Write;
    var w1 := Step(w, Hear(w.receiver.addr));
    StepKeeps(w, Hear(w.receiver.addr));
    StepKeeps(w1, Broadcast);
    var p := DataPacket(w1.sender);
    PieceFits(w.receiver, p, w.images);
  }

  // ----- single packets -----------------------------------------------------------------------

  /** A packet is answered by a NACK iff it is data from behind the byte that the receiver waits for; the NACK
      names that byte, and the id and length of the packet. */
  lemma NacksExact(r: Receiver, p: Packet)
    requires Room(r, p)
    ensures Receive(r, p).1
         == if p.kind == DATA && r.receiving && p.id == r.id && p.addr > r.addr then
              [Packet(NACK, p.id, r.addr, p.len, [])]
            else if p.kind == DATA && !r.receiving && p.id > r.id && p.addr > 0 then
              [Packet(NACK, p.id, 0, p.len, [])]
            else []
    ensures TimeOut(r, p) == if r.receiving then [Packet(NACK, p.id, r.addr, p.len, [])] else []
  {
    hide Write, Ending;
  }

  /** NACKs, other programs, old programs and bytes that are stored already are ignored. */
  lemma Ignored(r: Receiver, p: Packet)
    requires Room(r, p) && (r.receiving ==> r.addr < r.len)
    requires || p.kind == NACK
             || (r.receiving && (p.id != r.id || p.addr < r.addr))
             || (!r.receiving && p.id <= r.id)
    ensures Receive(r, p) == (r, [])
  {
  }

  /** The sender goes back to any byte that it has sent and never forward. */
  lemma HeardIff(s: Sender, addr: uint16)
    ensures Heard(s, addr).addr == Min(addr, s.addr) && Heard(s, addr).(addr := s.addr) == s
  {
  }

  // ----- programs are started once --------------------------------------------------------------

  /** The ids of the started programs ascend up to that of the receiver, which is above them while it receives. */
  predicate Ascending(r: Receiver) {
    && (forall j, k :: 0 <= j < k < |r.starts| ==> r.starts[j].id < r.starts[k].id)
    && (forall k :: 0 <= k < |r.starts| ==> r.starts[k].id <= r.id && (r.receiving ==> r.starts[k].id < r.id))
  }

  lemma ReceiveAscends(r: Receiver, p: Packet)
    requires Room(r, p) && Ascending(r)
    ensures Ascending(Receive(r, p).0)
  {
    hide Write;
  }

  lemma StepAscends(w: World, e: Event)
    requires Good(w) && Ascending(w.receiver)
    ensures Ascending(Step(w, e).receiver)
  {
    hide Receive, Ascending;
    if e.Arrive? && e.p in w.medium {
      MediumFits(w, e.p);
      ReceiveAscends(w.receiver, e.p);
    }
  }

  /** In every run, whatever is repeated or comes late, no program is started twice or after a newer one. */
  lemma {:induction false} StartedOnce(w: World, events: seq<Event>)
    requires Good(w) && Ascending(w.receiver)
    ensures Ascending(Run(w, events).receiver)
    decreases events
  {
    hide Good, Step, Ascending;
    if events != [] {
      StepKeeps(w, events[0]);
      StepAscends(w, events[0]);
      StartedOnce(Step(w, events[0]), events[1..]);
    }
  }

  // ----- a medium that loses nothing --------------------------------------------------------------

  /** A packet is broadcast and arrives. */
  function Pass(w: World): (v: World)
    requires Good(w) && w.sender.sending && w.sender.addr < |w.sender.image|
    ensures Good(v)
  {
    StepKeeps(w, Broadcast);
    var u := Step(w, Broadcast);
    StepKeeps(u, Arrive(DataPacket(w.sender)));
    Step(u, Arrive(DataPacket(w.sender)))
  }

  /** The next `n` packets. */
  function PassAll(w: World, n: nat): (v: World)
    requires Good(w)
    ensures Good(v)
    decreases n
  {
    if n == 0 || !w.sender.sending || w.sender.addr >= |w.sender.image| then w else PassAll(Pass(w), n - 1)
  }

  /** The receiver waits for the byte that the sender sends next. */
  predicate InStep(w: World) {
    && w.sender.sending && w.receiver.receiving && w.receiver.id == w.sender.id && w.receiver.addr == w.sender.addr
    && w.receiver.first.addr == 0
  }

  /** The image has been stored and its program started. */
  predicate Delivered(w: World, v: World, first: Packet) {
    && !v.receiver.receiving
    && v.receiver.starts == w.receiver.starts + [Launch(w.sender.id, w.sender.image, first)]
  }

  lemma PassMoves(w: World)
    requires Good(w) && InStep(w)
    ensures w.sender.addr < |w.sender.image|
    ensures var v := Pass(w);
            && v.sender == w.sender.(addr := w.sender.addr + Min(32, |w.sender.image| - w.sender.addr))
            && (v.sender.addr < |v.sender.image| ==>
                  InStep(v) && v.receiver.starts == w.receiver.starts && v.receiver.first == w.receiver.first)
            && (v.sender.addr >= |v.sender.image| ==> Delivered(w, v, w.receiver.first))
  {
    hide Follows, Launched, Write;
    var p, r := DataPacket(w.sender), w.receiver;
    PieceFits(r, p, w.images);
    var v := Pass(w);
    if v.sender.addr >= |v.sender.image| {
      var l := v.receiver.starts[|r.starts|];
      StartedImageIff(v, |r.starts|);
      assert l.image == w.sender.image;
    }
  }

  lemma {:induction false} InStepDelivers(w: World, n: nat)
    requires Good(w) && InStep(w) && n > 0 && w.sender.addr + 32 * n >= |w.sender.image|
    ensures Delivered(w, PassAll(w, n), w.receiver.first)
    decreases n
  {
    hide Good, Pass;
    PassMoves(w);
    var v := Pass(w);
    if v.sender.addr < |v.sender.image| {
      InStepDelivers(v, n - 1);
    } else {
      assert PassAll(v, n - 1) == v;
    }
  }

  /** When nothing is lost, a new image is stored by as many packets as it has pieces of 32 bytes, and
      its program is started with exactly the bytes of the image. */
  lemma LosslessDelivery(w: World, n: nat)
    requires Good(w) && w.sender.sending && w.sender.addr == 0 < |w.sender.image| <= 32 * n
    requires !w.receiver.receiving && w.receiver.id < w.sender.id
    ensures Delivered(w, PassAll(w, n), DataPacket(w.sender))
  {
    hide Good, Pass;
    FirstPass(w);
    var v := Pass(w);
    if v.sender.addr < |v.sender.image| {
      InStepDelivers(v, n - 1);
    } else {
      assert PassAll(v, n - 1) == v;
    }
  }

  lemma FirstPass(w: World)
    requires Good(w) && w.sender.sending && w.sender.addr == 0 < |w.sender.image|
    requires !w.receiver.receiving && w.receiver.id < w.sender.id
    ensures var v, p := Pass(w), DataPacket(w.sender);
            && v.sender == w.sender.(addr := Min(32, |w.sender.image|))
            && (v.sender.addr < |v.sender.image| ==>
                  InStep(v) && v.receiver.starts == w.receiver.starts && v.receiver.first == p)
            && (v.sender.addr >= |v.sender.image| ==> Delivered(w, v, p))
  {
    hide Follows, Launched, Write;
    var p, r := DataPacket(w.sender), w.receiver;
    var v := Pass(w);
    if v.sender.addr >= |v.sender.image| {
      var l := v.receiver.starts[|r.starts|];
      StartedImageIff(v, |r.starts|);
      assert l.image == w.sender.image;
    }
  }

  // ----- in place -------------------------------------------------------------------------------

  /** The receiving node: struct codeprop_state, the packet buffer uh, and the program memory.
      `receiving` is the place at which the protothread waits; `out` is what it has broadcast. */
  class Node {
    const rom: array<byte>
    var uh: Packet
    var receiving: bool
    var id: uint16
    var addr: nat
    var len: nat
    var first: Packet
    var starts: seq<Launch>
    var out: seq<Packet>

    ghost function Contents(): Receiver
      reads this, rom
    {
      Receiver(receiving, id, addr, len, rom[..], first, starts)
    }

    constructor (blank: Packet)
      ensures Bounded(Contents()) && !receiving && starts == [] && out == [] && fresh(rom)
    {
      rom := new byte[ROM_SIZE];
      uh, first, receiving, id, addr, len, starts, out := blank, blank, false, 0, 0, 0, [], [];
    }

    /** send_nack. */
    method SendNack(next: uint16)
      modifies this`uh, this`out
      ensures uh == Nacked(old(uh), next) && out == old(out) + [Header(uh)]
    {
      uh := uh.(kind := NACK, addr := next);
      out := out + [Header(uh)];
    }

    /** eeprom_write. */
    method Store(data: seq<byte>)
      requires addr + |data| <= rom.Length
      modifies rom
      ensures rom[..] == Write(old(rom[..]), addr, data)
    {
      forall k | 0 <= k < |data| {
        rom[addr + k] := data[k];
      }
      assert rom[..] == old(rom[..addr]) + data + old(rom[addr + |data|..]);
    }

    /** One turn of the receiving loop with the packet in the buffer. */
    method TakePacket()
      requires Room(Contents(), uh) && receiving
      modifies this, rom
      ensures var (r, nacks) := Take(old(Contents()), old(uh));
              Contents() == r && out == old(out) + nacks
    {
      hide Write;
      if uh.addr == addr {
        var n := |uh.data|;
        if n > 0 {
          Store(uh.data);
          addr := addr + n;
        }
      } else if uh.addr > addr {
        SendNack(addr);
      }
      if addr >= len {
        receiving := false;
        starts := starts + [Launch(id, rom[..len], first)];
        assert rom[..len] == rom[..][..len];
      }
    }

    /** recv_udpthread when a packet has arrived in the buffer. */
    method RecvUdp(p: Packet)
      requires Room(Contents(), p)
      modifies this, rom
      ensures var (r, nacks) := Receive(old(Contents()), p);
              Contents() == r && out == old(out) + nacks
    {
      hide Take;
      uh := p;
      if !receiving {
        if uh.kind == DATA && uh.id > id {
          if uh.addr != 0 {
            addr := 0;
            SendNack(0);
          }
          // the test of the do loop reads the address that send_nack has just written
          receiving, addr, id, len, first := true, 0, uh.id, uh.len, p;
          if addr < len {
            TakePacket();
          } else {
            receiving := false;
            starts := starts + [Launch(id, rom[..len], first)];
            assert rom[..len] == rom[..][..len];
          }
        }
      } else if uh.kind == DATA && uh.id == id {
        TakePacket();
      }
    }

    /** recv_udpthread when the NACK timer has run out. */
    method NackTimer()
      requires addr <= 0xFFFF
      modifies this`uh, this`out
      ensures out == old(out) + TimeOut(old(Contents()), old(uh)) && Contents() == old(Contents())
    {
      if receiving {
        SendNack(addr);
      }
    }
  }

  /** The sending node. */
  class Broadcaster {
    const rom: array<byte>
    var sending: bool
    var id: uint16
    var addr: nat
    var len: uint16

    ghost function Contents(): Sender
      requires len <= rom.Length
      reads this, rom
    {
      Sender(sending, id, rom[..len], addr)
    }

    constructor (rom: array<byte>, len: uint16)
      requires len <= rom.Length
      ensures this.rom == rom && this.len == len && !sending
    {
      this.rom := rom;
      this.len := len;
      sending, id, addr := false, 0, 0;
    }

    /** send_udpdata, and the step of send_udpthread behind it. */
    method SendData() returns (p: Packet)
      requires len <= rom.Length && addr < len
      modifies this`addr
      ensures p == DataPacket(old(Contents())) && Contents() == Sent(old(Contents()))
    {
      var n := if len - addr > UDPDATASIZE then UDPDATASIZE else len - addr;
      p := Packet(DATA, id, addr, len, rom[addr..addr + n]);
      assert rom[..len][addr..addr + n] == rom[addr..addr + n];
      addr := addr + n;
    }

    /** A packet arrives while the send timer runs. */
    method Hears(p: Packet)
      requires len <= rom.Length
      modifies this`addr
      ensures Contents() == if p.kind == NACK then Heard(old(Contents()), p.addr) else old(Contents())
    {
      if p.kind == NACK {
        if p.addr <= addr {
          addr := p.addr;
        }
      }
    }
  }
}
