/**
  Block-wise transfer (apps/er-coap/er-coap-engine.c; section 2.4 of RFC 7959): how the
  server cuts a response into blocks, and the client loop that fetches block after block.

  `PrefixDelivered`, `CompleteIff` and `DiscoveryComplete` are the main results.
 */
module CoapBlockwise {
  import opened Segments
  import opened CoapOptions
  import opened CoapMessage
  import opened WellKnownCore

  const COAP_MAX_BLOCK_SIZE: nat := 64
  const COAP_MAX_ATTEMPTS: nat := 4
  const MAX_BLOCK_NUMBER: nat := 0x0F_FFFF
  const INT32_MAX: nat := 0x7FFF_FFFF

  datatype Option<T> = None | Some(value: T)

  /** A Block2 option. */
  datatype Block2 = Block2(num: nat, more: bool, size: nat)

  /** 2.05, 4.02 and 5.01. */
  datatype Code = CONTENT | BAD_OPTION | NOT_IMPLEMENTED

  datatype Reply = Reply(code: Code, block: Option<Block2>, payload: seq<byte>)

  /** coap_set_header_block2 refuses numbers of more than 20 bits and leaves what was there. */
  function WithBlock(before: Option<Block2>, num: nat, more: bool, size: nat): Option<Block2> {
    if size < 16 || size > 2048 || num > MAX_BLOCK_NUMBER then before else Some(Block2(num, more, size))
  }

  // ----- server ---------------------------------------------------------------------------

  /** The block of a body: `size` bytes from `num * size` on, with more to come or not. */
  function Slice(body: seq<byte>, num: nat, size: nat): Reply {
    Reply(CONTENT, Some(Block2(num, num * size + size < |body|, size)), Window(body, num * size, size))
  }

  function OutOfScopeText(): (s: seq<byte>)
    ensures |s| == 15
  {
    [0x42, 0x6C, 0x6F, 0x63, 0x6B, 0x4F, 0x75, 0x74, 0x4F, 0x66, 0x53, 0x63, 0x6F, 0x70, 0x65]
  }

  /** The offset that the engine takes from a block option. */
  function Begin(b: Block2): nat { b.num * b.size }

  /** A block option in a request that the engine can answer. */
  predicate Asked(b: Block2) {
    16 <= b.size <= 2048 && b.num <= MAX_BLOCK_NUMBER && Begin(b) <= INT32_MAX
  }

  function NoBlock1Text(): (s: seq<byte>)
    ensures |s| == 15
  {
    [0x4E, 0x6F, 0x42, 0x6C, 0x6F, 0x63, 0x6B, 0x31, 0x53, 0x75, 0x70, 0x70, 0x6F, 0x72, 0x74]
  }

  /** The answer to a request with a Block1 option that the resource does not know about. */
  function Refusal(): Reply { Reply(NOT_IMPLEMENTED, None, NoBlock1Text()) }

  /** What the engine makes of the part that a handler has produced; `block1` says that the
      request has a Block1 option and the response has none. */
  method CutBlock(asked: Option<Block2>, block1: bool, payload: seq<byte>, code: Code, newOffset: int)
    returns (r: Reply)
    requires |payload| <= REST_MAX_CHUNK_SIZE && (asked.Some? ==> Asked(asked.value))
    ensures block1 && code == CONTENT ==> r == Refusal()
    ensures asked.None? && !(block1 && code == CONTENT) ==>
              r == if newOffset == 0 then Reply(code, None, payload)
                   else Reply(code, Some(Block2(0, newOffset != -1, COAP_MAX_BLOCK_SIZE)), payload)
    ensures asked.Some? && newOffset != Begin(asked.value) && !(block1 && code == CONTENT) ==>
              var size := Min(asked.value.size, COAP_MAX_BLOCK_SIZE);
              r == Reply(code, Some(Block2(asked.value.num, newOffset != -1 || |payload| > size, size)),
                         AtMost(payload, size))
    ensures asked.Some? && newOffset == Begin(asked.value) && !(block1 && code == CONTENT) ==>
              var size := Min(asked.value.size, COAP_MAX_BLOCK_SIZE);
              r == if newOffset >= |payload| then Reply(BAD_OPTION, None, OutOfScopeText())
                   else Reply(code, Some(Block2(asked.value.num, newOffset + size < |payload|, size)),
                              Window(payload, newOffset, size))
  {
    r := Reply(code, None, payload);
    if block1 && code == CONTENT {
      r := Reply(NOT_IMPLEMENTED, None, NoBlock1Text());
    } else if asked.Some? {
      var num, size := asked.value.num, Min(asked.value.size, COAP_MAX_BLOCK_SIZE);
      var offset := Begin(asked.value);
      if newOffset == offset {
        if offset >= |payload| {
          r := r.(code := BAD_OPTION, payload := OutOfScopeText());
        } else {
          r := r.(block := WithBlock(r.block, num, |payload| - offset > size, size));
          r := r.(payload := payload[offset..offset + Min(|payload| - offset, size)]);
        }
      } else {
        r := r.(block := WithBlock(r.block, num, newOffset != -1 || |payload| > size, size));
        if |payload| > size {
          r := r.(payload := payload[..size]);
        }
      }
    } else if newOffset != 0 {
      r := r.(block := WithBlock(r.block, 0, newOffset != -1, COAP_MAX_BLOCK_SIZE));
      r := r.(payload := payload[..Min(|payload|, COAP_MAX_BLOCK_SIZE)]);
    }
  }

  /** The reply to a request for the listing: the window at number times requested size. */
  function ListingReply(rs: seq<Resource>, asked: Option<Block2>): Reply {
    var body := Listing(rs);
    match asked
    case None => Slice(body, 0, COAP_MAX_BLOCK_SIZE)
    case Some(b) =>
      var size := Min(b.size, COAP_MAX_BLOCK_SIZE);
      if Begin(b) < |body| then
        Reply(CONTENT, Some(Block2(b.num, Begin(b) + size < |body|, size)), Window(body, Begin(b), size))
      else if rs == [] then Reply(CONTENT, Some(Block2(b.num, false, size)), [])
      else Reply(BAD_OPTION, Some(Block2(b.num, false, size)), AtMost(OutOfScopeText(), size))
  }

  /** A GET of the listing through handler and engine. */
  method GetListing(rs: seq<Resource>, asked: Option<Block2>, block1: bool, handler: Handler) returns (r: Reply)
    requires handler.buffer.Length == REST_MAX_CHUNK_SIZE + 1 && handler.strpos == 0 && handler.bufpos == 0
    requires asked.Some? ==> Asked(asked.value)
    modifies handler, handler.buffer
    ensures r == if block1 && ListingReply(rs, asked).code == CONTENT then Refusal() else ListingReply(rs, asked)
  {
    hide Listing, Begin;
    var size, offset := COAP_MAX_BLOCK_SIZE, 0;
    if asked.Some? {
      size := Min(asked.value.size, COAP_MAX_BLOCK_SIZE);
      offset := Begin(asked.value);
    }
    var outcome, payload, next := handler.Get(rs, size, offset);
    NoListing(rs);
    var code := CONTENT;
    if outcome == OutOfScope {
      code, payload := BAD_OPTION, OutOfScopeText();
    } else if outcome == Unset {
      payload := [];
    }
    if |payload| > REST_MAX_CHUNK_SIZE {
      payload := payload[..REST_MAX_CHUNK_SIZE];
    }
    r := CutBlock(asked, block1, payload, code, next);
  }

  /** The bytes of a text. */
  function Ascii(text: string): (s: seq<int>)
    ensures |s| == |text|
  {
    seq(|text|, i requires 0 <= i < |text| => text[i] as int)
  }

  lemma ErrorTexts()
    ensures OutOfScopeText() == Ascii("BlockOutOfScope") && NoBlock1Text() == Ascii("NoBlock1Support")
  {
  }

  lemma NoListing(rs: seq<Resource>)
    ensures rs == [] <==> Listing(rs) == []
  {
  }

  /** From `at` on the body reads as from the true begin of the block on, and goes on behind it. */
  predicate Repeats(body: seq<byte>, num: nat, at: nat) {
    var size := COAP_MAX_BLOCK_SIZE;
    at + size < |body| && Window(body, at, size) == Window(body, num * size, size)
  }

  /**
    The reply is the block that its number and the engine's size name iff the requested size was
    not above the engine's own, the number is 0, or the listing repeats itself there: otherwise
    the offset still comes from the requested size, and the reply begins somewhere else.
   */
  lemma ListingReplyIsSliceIff(rs: seq<Resource>, b: Block2)
    requires Asked(b) && Begin(b) < |Listing(rs)|
    ensures var size := Min(b.size, COAP_MAX_BLOCK_SIZE);
            var block := Block2(b.num, Begin(b) + size < |Listing(rs)|, size);
            ListingReply(rs, Some(b)) == Reply(CONTENT, Some(block), Window(Listing(rs), Begin(b), size))
    ensures ListingReply(rs, Some(b)) == Slice(Listing(rs), b.num, Min(b.size, COAP_MAX_BLOCK_SIZE)) <==>
              b.size <= COAP_MAX_BLOCK_SIZE || b.num == 0 || Repeats(Listing(rs), b.num, Begin(b))
  {
    hide Listing, Window;
    var body, at := Listing(rs), Begin(b);
    if COAP_MAX_BLOCK_SIZE < b.size && b.num > 0 {
      SameFactor(b.num, COAP_MAX_BLOCK_SIZE, b.size);
      WindowLength(body, at, COAP_MAX_BLOCK_SIZE);
      WindowLength(body, b.num * COAP_MAX_BLOCK_SIZE, COAP_MAX_BLOCK_SIZE);
    } else if b.num == 0 {
      assert b.num * b.size == 0 == b.num * Min(b.size, COAP_MAX_BLOCK_SIZE);
    }
  }

  lemma WindowLength(body: seq<byte>, at: nat, size: nat)
    requires at < |body|
    ensures |Window(body, at, size)| == Min(size, |body| - at)
  {
  }

  /** A request without a block option gets the first 64 bytes as block 0; one for a block behind the end
      4.02 and the text of the handler, cut to the block; and of an empty listing there is an empty block. */
  lemma OtherReplies(rs: seq<Resource>, b: Block2)
    requires Asked(b) && Begin(b) >= |Listing(rs)|
    ensures ListingReply(rs, None) == Slice(Listing(rs), 0, 64)
    ensures rs == [] ==> ListingReply(rs, Some(b)) == Reply(CONTENT, Some(Block2(b.num, false, Min(b.size, 64))), [])
    ensures rs != [] ==>
              && ListingReply(rs, Some(b)).code == BAD_OPTION
              && ListingReply(rs, Some(b)).block == Some(Block2(b.num, false, Min(b.size, 64)))
              && ListingReply(rs, Some(b)).payload == AtMost(Ascii("BlockOutOfScope"), Min(b.size, 64))
  {
    hide Listing;
    ErrorTexts();
  }

  /** Such a request for block 1 of 128 bytes: the listing has its first 'b' at position 128, and
      the reply begins with it, while block 1 of the engine's 64 bytes begins with an 'a'. */
  lemma BlockFromWrongOffset()
    ensures exists rs, b ::
              && Asked(b) && Begin(b) < |Listing(rs)| && !Repeats(Listing(rs), b.num, Begin(b))
              && ListingReply(rs, Some(b)) != Slice(Listing(rs), b.num, COAP_MAX_BLOCK_SIZE)
  {
    var url := seq(126, i => 'a' as int) + seq(80, i => 'b' as int);
    var rs := [Resource(url, [])];
    var b := Block2(1, false, 128);
    var body := Listing(rs);
    assert body == ListingTo(rs, 0) + [] + Entry(rs[0]);
    assert body == [LESS, SLASH] + url + [GREATER];
    assert body[128] == 'b' as int && body[64] == 'a' as int;
    assert Window(body, 128, 64)[0] == body[128];
    assert Window(body, 64, 64)[0] == body[64];
    ListingReplyIsSliceIff(rs, b);
  }

  lemma SameFactor(n: nat, a: nat, b: nat)
    requires n > 0 && a < b
    ensures n * a < n * b
  {
  }

  // ----- client ---------------------------------------------------------------------------

  /** What arrives for a request: nothing, or a response with or without a Block2 option. */
  datatype Answer = Lost | Answered(block: Option<Block2>, payload: seq<byte>)

  /** The client loop between two events: request_state_t and the statics of the function.
      `asked`, `answered` and `delivered` are its history. */
  datatype Transfer = Transfer(
    blockNum: uint32, more: bool, resBlock: nat, blockError: nat, option: Option<Block2>, running: bool,
    asked: seq<Option<Block2>>, answered: nat, delivered: seq<(uint32, seq<byte>)>)

  /** The head of the loop: a transaction, the block option, the request. */
  function SendRequest(t: Transfer, slotFree: bool): Transfer {
    if !slotFree then t.(running := false)
    else
      var option := if t.blockNum > 0 then WithBlock(t.option, t.blockNum, false, REST_MAX_CHUNK_SIZE) else t.option;
      t.(option := option, asked := t.asked + [option])
  }

  function Start(option: Option<Block2>, slotFree: bool): Transfer {
    SendRequest(Transfer(0, false, 0, 0, option, true, [], 0, []), slotFree)
  }

  /** A response is handed to the callback if its number is the expected one. */
  function Receive(t: Transfer, block: Option<Block2>, payload: seq<byte>): Transfer {
    var more := if block.Some? then block.value.more else t.more;
    var resBlock := if block.Some? then block.value.num else t.resBlock;
    var u := t.(more := more, resBlock := resBlock, answered := t.answered + 1);
    if resBlock == t.blockNum then
      u.(delivered := t.delivered + [(t.blockNum, payload)], blockNum := ((t.blockNum as int) + 1) % U32)
    else u.(blockError := t.blockError + 1)
  }

  /** One turn of the loop of coap_blocking_request, from one poll to the next. */
  function Resume(t: Transfer, a: Answer, slotFree: bool): Transfer {
    if !t.running then t
    else match a
      case Lost => t.(running := false)
      case Answered(block, payload) =>
        var u := Receive(t, block, payload);
        if u.more && u.blockError < COAP_MAX_ATTEMPTS then SendRequest(u, slotFree) else u.(running := false)
  }

  datatype Event = Event(answer: Answer, slotFree: bool)

  function Run(t: Transfer, events: seq<Event>): Transfer
    decreases events
  {
    if events == [] then t else Run(Resume(t, events[0].answer, events[0].slotFree), events[1..])
  }

  predicate Numbered(delivered: seq<(uint32, seq<byte>)>) {
    forall k :: 0 <= k < |delivered| ==> delivered[k].0 == k % U32
  }

  /** What holds between two events. */
  predicate Counted(t: Transfer) {
    && Numbered(t.delivered) && t.blockNum == |t.delivered| % U32
    && t.answered == |t.delivered| + t.blockError && t.blockError <= COAP_MAX_ATTEMPTS
    && |t.asked| <= t.answered + 1 && (t.running ==> t.blockError < COAP_MAX_ATTEMPTS && |t.asked| == t.answered + 1)
  }

  lemma ResumeCounts(t: Transfer, a: Answer, slotFree: bool)
    requires Counted(t)
    ensures Counted(Resume(t, a, slotFree))
  {
    hide WithBlock, Receive, Numbered;
    if t.running && a.Answered? {
      ReceiveCounts(t, a.block, a.payload);
    }
  }

  lemma ReceiveCounts(t: Transfer, block: Option<Block2>, payload: seq<byte>)
    requires Counted(t) && t.running
    ensures var u := Receive(t, block, payload);
            && Numbered(u.delivered) && u.blockNum == |u.delivered| % U32 && u.answered == t.answered + 1
            && u.answered == |u.delivered| + u.blockError && u.blockError <= t.blockError + 1
            && u.asked == t.asked && u.running
  {
    NextNumber(|t.delivered|);
  }

  lemma NextNumber(n: nat)
    ensures (n + 1) % U32 == (n % U32 + 1) % U32
  {
  }

  /**
    In every run the numbers handed to the callback are 0, 1, 2, ... without gap or repeat,
    and the answered requests are the delivered blocks and at most COAP_MAX_ATTEMPTS others.
   */
  lemma {:induction false} RunCounts(option: Option<Block2>, slotFree: bool, events: seq<Event>)
    ensures var t := Run(Start(option, slotFree), events);
            && Numbered(t.delivered) && t.answered == |t.delivered| + t.blockError
            && t.blockError <= COAP_MAX_ATTEMPTS && |t.asked| <= |t.delivered| + COAP_MAX_ATTEMPTS + 1
  {
    CountedRun(Start(option, slotFree), events);
  }

  lemma {:induction false} CountedRun(t: Transfer, events: seq<Event>)
    requires Counted(t)
    ensures Counted(Run(t, events))
    decreases events
  {
    hide Resume, Counted;
    if events != [] {
      ResumeCounts(t, events[0].answer, events[0].slotFree);
      CountedRun(Resume(t, events[0].answer, events[0].slotFree), events[1..]);
    }
  }

  // ----- the loop in terms of what has arrived ---------------------------------------------

  /** The number and the more bit that the loop goes by: those of the last block option. */
  function LatestNumber(events: seq<Event>): nat {
    if events == [] then 0
    else
      var e := events[|events| - 1];
      if e.answer.Answered? && e.answer.block.Some? then e.answer.block.value.num
      else LatestNumber(events[..|events| - 1])
  }

  predicate MoreToCome(events: seq<Event>) {
    events != [] &&
    var e := events[|events| - 1];
    if e.answer.Answered? && e.answer.block.Some? then e.answer.block.value.more
    else MoreToCome(events[..|events| - 1])
  }

  /** The payloads of the answers that were the next block when they came. */
  function InOrder(events: seq<Event>): (s: seq<seq<byte>>)
    ensures |s| <= |events|
  {
    if events == [] then []
    else
      var s, e := InOrder(events[..|events| - 1]), events[|events| - 1];
      if e.answer.Answered? && LatestNumber(events) == |s| % 0x1_0000_0000 then s + [e.answer.payload] else s
  }

  /** The transfer goes on: a request was possible and answered every time, the last block option
      announces more, and fewer than four answers were another block than the next. */
  predicate GoesOn(slotFree: bool, events: seq<Event>) {
    && slotFree
    && (events == [] ||
        var init, e := events[..|events| - 1], events[|events| - 1];
        GoesOn(slotFree, init) && e.answer.Answered? && e.slotFree && MoreToCome(events)
        && |events| - |InOrder(events)| < 4)
  }

  /** The requests: the block options that the caller has set, then, behind the first block, the number
      of the next block and blocks of 64 bytes, as long as that number fits into 20 bits. */
  function Requests(option: Option<Block2>, events: seq<Event>): seq<Option<Block2>> {
    if events == [] then [option]
    else
      var before, next := Requests(option, events[..|events| - 1]), |InOrder(events)| % 0x1_0000_0000;
      before + [if 0 < next < 0x10_0000 then Some(Block2(next, false, 64))
                else if before == [] then option else before[|before| - 1]]
  }

  function Payloads(delivered: seq<(uint32, seq<byte>)>): (s: seq<seq<byte>>)
    ensures |s| == |delivered|
  {
    seq(|delivered|, k requires 0 <= k < |delivered| => delivered[k].1)
  }

  lemma RunLast(t: Transfer, events: seq<Event>, e: Event)
    ensures Run(t, events + [e]) == Resume(Run(t, events), e.answer, e.slotFree)
    decreases events
  {
    hide Resume;
    if events == [] {
      assert (events + [e])[1..] == [];
    } else {
      assert (events + [e])[1..] == events[1..] + [e];
      RunLast(Resume(t, events[0].answer, events[0].slotFree), events[1..], e);
    }
  }

  /** What the statics of the loop are while it goes on. */
  predicate Follows(t: Transfer, option: Option<Block2>, events: seq<Event>) {
    && t.resBlock == LatestNumber(events) && t.more == MoreToCome(events)
    && Payloads(t.delivered) == InOrder(events) && t.blockNum == |t.delivered| % U32
    && t.blockError == |events| - |t.delivered|
    && t.asked == Requests(option, events) && t.asked != [] && t.option == t.asked[|t.asked| - 1]
  }

  lemma FollowsNext(t: Transfer, option: Option<Block2>, events: seq<Event>, e: Event)
    requires Follows(t, option, events) && t.running && e.answer.Answered?
    ensures var u, all := Resume(t, e.answer, e.slotFree), events + [e];
            && Payloads(u.delivered) == InOrder(all)
            && (u.running <==> e.slotFree && MoreToCome(all) && |all| - |InOrder(all)| < 4)
            && (u.running ==> Follows(u, option, all))
  {
    hide LatestNumber, MoreToCome, InOrder, Requests, Payloads;
    var all := events + [e];
    assert all[..|events|] == events && all[|events|] == e;
    HistoryNext(option, events, e);
    var (block, payload) := (e.answer.block, e.answer.payload);
    var u := Receive(t, block, payload);
    PayloadsNext(t.delivered, t.blockNum, payload);
    NextNumber(|t.delivered|);
    PayloadsCount(t.delivered);
    assert u.resBlock == LatestNumber(all) && u.more == MoreToCome(all);
    assert Payloads(u.delivered) == InOrder(all);
  }

  lemma PayloadsCount(d: seq<(uint32, seq<byte>)>)
    ensures |Payloads(d)| == |d|
  {
  }

  lemma PayloadsNext(d: seq<(uint32, seq<byte>)>, number: uint32, payload: seq<byte>)
    ensures Payloads(d + [(number, payload)]) == Payloads(d) + [payload]
  {
  }

  lemma HistoryNext(option: Option<Block2>, events: seq<Event>, e: Event)
    requires e.answer.Answered?
    ensures var all, block := events + [e], e.answer.block;
            && LatestNumber(all) == (if block.Some? then block.value.num else LatestNumber(events))
            && MoreToCome(all) == (if block.Some? then block.value.more else MoreToCome(events))
            && InOrder(all) == InOrder(events)
                               + (if LatestNumber(all) != |InOrder(events)| % 0x1_0000_0000 then []
                                  else [e.answer.payload])
            && Requests(option, all)
               == (var next := |InOrder(all)| % 0x1_0000_0000;
                   var before := Requests(option, events);
                   before + [if 0 < next < 0x10_0000 then Some(Block2(next, false, 64))
                             else if before == [] then option else before[|before| - 1]])
  {
    assert (events + [e])[..|events|] == events;
  }

  /**
    The loop in terms of what has arrived, for every run: it is waiting for an answer iff the transfer
    goes on; then it has asked for the blocks that it has not got yet, one after the other, and handed over
    exactly the payloads that came in order.
   */
  lemma {:induction false} RunFollows(option: Option<Block2>, slotFree: bool, events: seq<Event>)
    ensures var t := Run(Start(option, slotFree), events);
            && (t.running <==> GoesOn(slotFree, events))
            && (t.running ==> t.asked == Requests(option, events) && Payloads(t.delivered) == InOrder(events))
    ensures var t := Run(Start(option, slotFree), events); t.running ==> Follows(t, option, events)
    decreases events
  {
    hide Resume, Follows, Requests, InOrder, Payloads, LatestNumber, MoreToCome, Start;
    if events == [] {
      StartFollows(option, slotFree);
    } else {
      var init, e := events[..|events| - 1], events[|events| - 1];
      assert events == init + [e];
      RunFollows(option, slotFree, init);
      RunLast(Start(option, slotFree), init, e);
      var t := Run(Start(option, slotFree), init);
      ResumeStops(t, e.answer, e.slotFree);
      if t.running && e.answer.Answered? {
        FollowsNext(t, option, init, e);
      }
      FollowsFacts(Run(Start(option, slotFree), events), option, events);
    }
  }

  lemma FollowsFacts(t: Transfer, option: Option<Block2>, events: seq<Event>)
    ensures Follows(t, option, events) ==>
              t.asked == Requests(option, events) && Payloads(t.delivered) == InOrder(events)
  {
  }

  lemma StartFollows(option: Option<Block2>, slotFree: bool)
    ensures var t := Run(Start(option, slotFree), []);
            && t == Start(option, slotFree) && t.running == slotFree
            && (slotFree ==> && Follows(t, option, []) && t.asked == Requests(option, [])
                             && Payloads(t.delivered) == InOrder([]))
  {
  }

  /** The answer that ends the transfer is handed over too if it is the next block; later events do nothing. */
  lemma RunEnds(option: Option<Block2>, slotFree: bool, events: seq<Event>, e: Event, later: seq<Event>)
    requires GoesOn(slotFree, events) && e.answer.Answered? && !GoesOn(slotFree, events + [e])
    ensures Payloads(Run(Start(option, slotFree), events + [e] + later).delivered) == InOrder(events + [e])
  {
    hide Resume, Follows, Requests, InOrder, Payloads, LatestNumber, MoreToCome, Start, GoesOn;
    RunFollows(option, slotFree, events);
    RunFollows(option, slotFree, events + [e]);
    RunLast(Start(option, slotFree), events, e);
    var t := Run(Start(option, slotFree), events);
    FollowsNext(t, option, events, e);
    RunOver(Start(option, slotFree), events + [e], later);
  }

  lemma {:induction false} RunOver(t: Transfer, events: seq<Event>, later: seq<Event>)
    requires !Run(t, events).running
    ensures Run(t, events + later) == Run(t, events)
    decreases later
  {
    hide Run;
    if later == [] {
      assert events + later == events;
    } else {
      var init, e := later[..|later| - 1], later[|later| - 1];
      assert events + later == (events + init) + [e];
      RunOver(t, events, init);
      RunLast(t, events + init, e);
      ResumeStops(Run(t, events), e.answer, e.slotFree);
    }
  }

  // ----- against a server that slices a body ----------------------------------------------------

  function Bytes(delivered: seq<(uint32, seq<byte>)>): seq<byte> {
    if delivered == [] then [] else Bytes(delivered[..|delivered| - 1]) + delivered[|delivered| - 1].1
  }

  /** Some block of the body, at one block size, expected or not; or no answer. */
  predicate FromServer(a: Answer, body: seq<byte>, size: nat) {
    a.Answered? ==>
      && a.block.Some? && (a.block.value.num == 0 || a.block.value.num * size < |body|)
      && Reply(CONTENT, a.block, a.payload) == Slice(body, a.block.value.num, size)
  }

  predicate AllFromServer(events: seq<Event>, body: seq<byte>, size: nat) {
    forall k :: 0 <= k < |events| ==> FromServer(events[k].answer, body, size)
  }

  /** The delivered blocks are the first ones of the body; while the loop runs more are to come. */
  predicate Prefix(t: Transfer, body: seq<byte>, size: nat) {
    && Counted(t) && Bytes(t.delivered) == body[..Min(|t.delivered| * size, |body|)]
    && (|t.delivered| > 0 ==> (|t.delivered| - 1) * size <= |body|)
    && (t.running && |t.delivered| > 0 ==> |t.delivered| * size < |body|)
  }

  lemma NextBlock(body: seq<byte>, n: nat, size: nat)
    requires n == 0 || n * size < |body|
    ensures body[..Min(n * size, |body|)] + Window(body, n * size, size) == body[..Min((n + 1) * size, |body|)]
  {
    assert (n + 1) * size == n * size + size;
  }

  lemma SmallNumber(n: nat, size: nat, length: nat)
    requires size > 0 && n * size < length < U32
    ensures n < U32
  {
    assert n <= n * size;
  }

  /** What an answer changes, as far as the delivered blocks go. */
  lemma ResumeDelivers(t: Transfer, a: Answer, slotFree: bool)
    requires Counted(t) && t.running && a.Answered? && a.block.Some?
    ensures var u := Resume(t, a, slotFree);
            && u.delivered
                == (if a.block.value.num == t.blockNum then t.delivered + [(t.blockNum, a.payload)] else t.delivered)
            && (u.running ==> a.block.value.more)
  {
    hide WithBlock;
  }

  /** The expected block is the next piece of the body. */
  lemma ExpectedBlock(t: Transfer, a: Answer, body: seq<byte>, size: nat)
    requires size > 0 && |body| < U32 && FromServer(a, body, size) && Prefix(t, body, size) && t.running
    requires a.Answered? && a.block.Some? && a.block.value.num == t.blockNum
    ensures var d := t.delivered + [(t.blockNum, a.payload)];
            && Bytes(d) == body[..Min(|d| * size, |body|)] && (|d| - 1) * size <= |body|
            && (a.block.value.more ==> |d| * size < |body|)
  {
    hide Counted, Window, Bytes;
    var n := |t.delivered|;
    assert t.blockNum == n by {
      CountedNumber(t);
      if n > 0 {
        SmallNumber(n, size, |body|);
      }
    }
    var d := t.delivered + [(t.blockNum, a.payload)];
    assert d[..|d| - 1] == t.delivered;
    BytesLast(d);
    NextBlock(body, n, size);
    assert (n + 1) * size == n * size + size;
  }

  lemma ResumePrefix(t: Transfer, a: Answer, slotFree: bool, body: seq<byte>, size: nat)
    requires size > 0 && |body| < U32 && FromServer(a, body, size) && Prefix(t, body, size)
    ensures Prefix(Resume(t, a, slotFree), body, size)
  {
    hide Resume, FromServer, Counted, Window, Bytes;
    ResumeCounts(t, a, slotFree);
    ResumeStops(t, a, slotFree);
    if t.running && a.Answered? {
      HasBlock(a, body, size);
      ResumeDelivers(t, a, slotFree);
      if a.block.value.num == t.blockNum {
        ExpectedBlock(t, a, body, size);
      }
    }
  }

  lemma HasBlock(a: Answer, body: seq<byte>, size: nat)
    requires FromServer(a, body, size) && a.Answered?
    ensures a.block.Some?
  {
  }

  lemma ResumeStops(t: Transfer, a: Answer, slotFree: bool)
    ensures !t.running || a.Lost? ==> Resume(t, a, slotFree) == t.(running := false)
  {
  }

  lemma CountedNumber(t: Transfer)
    requires Counted(t)
    ensures t.blockNum == |t.delivered| % U32
  {
  }

  lemma BytesLast(d: seq<(uint32, seq<byte>)>)
    requires d != []
    ensures Bytes(d) == Bytes(d[..|d| - 1]) + d[|d| - 1].1
  {
  }

  /**
    Against a server that slices a body at one block size, whatever blocks arrive in whatever
    order, the delivered bytes are always a prefix of the body.
   */
  lemma {:induction false} PrefixDelivered(option: Option<Block2>, slotFree: bool, events: seq<Event>,
                                           body: seq<byte>, size: nat)
    requires size > 0 && |body| < U32 && AllFromServer(events, body, size)
    ensures var t := Run(Start(option, slotFree), events);
            && Bytes(t.delivered) <= body && Bytes(t.delivered) == body[..Min(|t.delivered| * size, |body|)]
  {
    PrefixRun(Start(option, slotFree), events, body, size);
  }

  lemma {:induction false} PrefixRun(t: Transfer, events: seq<Event>, body: seq<byte>, size: nat)
    requires size > 0 && |body| < U32 && AllFromServer(events, body, size) && Prefix(t, body, size)
    ensures Prefix(Run(t, events), body, size)
    decreases events
  {
    hide Resume, Prefix, FromServer;
    if events != [] {
      assert FromServer(events[0].answer, body, size);
      ResumePrefix(t, events[0].answer, events[0].slotFree, body, size);
      PrefixRun(Resume(t, events[0].answer, events[0].slotFree), events[1..], body, size);
    }
  }

  /**
    When an answer ends the loop, the whole body has been delivered iff the answer was the
    expected block and the last one.
   */
  lemma CompleteIff(t: Transfer, a: Answer, slotFree: bool, body: seq<byte>, size: nat)
    requires size > 0 && |body| < U32 && FromServer(a, body, size) && Prefix(t, body, size) && t.running && a.Answered?
    ensures Bytes(Resume(t, a, slotFree).delivered) == body <==>
              (a.block.value.num == t.blockNum && !a.block.value.more) || body == []
  {
    hide Resume, Counted, Window, Bytes;
    ResumePrefix(t, a, slotFree, body, size);
    ResumeDelivers(t, a, slotFree);
    var n := |t.delivered|;
    CountedNumber(t);
    if n > 0 {
      SmallNumber(n, size, |body|);
    }
    assert (n + 1) * size == n * size + size;
  }

  /** The last block, coming while an earlier one is expected, ends the loop without an error. */
  lemma LastBlockEndsEarly(body: seq<byte>)
    requires 128 < |body| <= 192
    ensures var late := Slice(body, 2, 64);
            var t := Run(Start(None, true), [Event(Answered(late.block, late.payload), true)]);
            !t.running && t.blockError == 1 < COAP_MAX_ATTEMPTS && t.delivered == []
  {
    var late := Slice(body, 2, 64);
    var e := Event(Answered(late.block, late.payload), true);
    assert [e][1..] == [];
    assert Run(Resume(Start(None, true), e.answer, true), []) == Resume(Start(None, true), e.answer, true);
  }

  // ----- client and server together ----------------------------------------------------------------

  /** The next `n` events when every request is answered by the engine with a block of the listing. */
  function Discover(t: Transfer, rs: seq<Resource>, n: nat): Transfer
    decreases n
  {
    if n == 0 || !t.running || t.asked == [] then t
    else
      var r := ListingReply(rs, t.asked[|t.asked| - 1]);
      Discover(Resume(t, Answered(r.block, r.payload), true), rs, n - 1)
  }

  /** The loop asks for the block that it expects. */
  predicate AsksNext(t: Transfer) {
    && t.asked != []
    && t.asked[|t.asked| - 1] == if |t.delivered| == 0 then None
                                 else Some(Block2(|t.delivered|, false, REST_MAX_CHUNK_SIZE))
  }

  lemma {:induction false} DiscoverGoesOn(t: Transfer, rs: seq<Resource>, n: nat)
    requires |Listing(rs)| <= (MAX_BLOCK_NUMBER + 1) * COAP_MAX_BLOCK_SIZE
    requires Prefix(t, Listing(rs), COAP_MAX_BLOCK_SIZE) && t.running && AsksNext(t) && t.blockError == 0
    requires (|t.delivered| + n) * COAP_MAX_BLOCK_SIZE >= |Listing(rs)| && n > 0
    ensures var u := Discover(t, rs, n);
            !u.running && u.blockError == 0 && Bytes(u.delivered) == Listing(rs)
    decreases n
  {
    hide Listing, Bytes, Window, Counted;
    var body, k := Listing(rs), |t.delivered|;
    CountedNumber(t);
    var r := ListingReply(rs, t.asked[|t.asked| - 1]);
    assert r == Slice(body, k, COAP_MAX_BLOCK_SIZE);
    var a := Answered(r.block, r.payload);
    ResumePrefix(t, a, true, body, COAP_MAX_BLOCK_SIZE);
    CompleteIff(t, a, true, body, COAP_MAX_BLOCK_SIZE);
    var u := Resume(t, a, true);
    assert |u.delivered| == k + 1;
    if u.running {
      assert (k + 1) * COAP_MAX_BLOCK_SIZE < |body|;
      CountedNumber(u);
      assert u.blockNum == k + 1 <= MAX_BLOCK_NUMBER;
      DiscoverGoesOn(u, rs, n - 1);
    } else {
      DiscoverStops(u, rs, n - 1);
    }
  }

  lemma DiscoverStops(t: Transfer, rs: seq<Resource>, n: nat)
    requires !t.running
    ensures Discover(t, rs, n) == t
  {
  }

  /**
    Discovery: the client loop against handler and engine ends, without a wrong block, with
    exactly the listing, as long as the block numbers fit into their 20 bits.
   */
  lemma DiscoveryComplete(rs: seq<Resource>)
    requires |Listing(rs)| <= (MAX_BLOCK_NUMBER + 1) * COAP_MAX_BLOCK_SIZE
    ensures var t := Discover(Start(None, true), rs, |Listing(rs)| / COAP_MAX_BLOCK_SIZE + 1);
            !t.running && t.blockError == 0 && Bytes(t.delivered) == Listing(rs)
  {
    hide Listing;
    var t := Start(None, true);
    assert Bytes(t.delivered) == [] == Listing(rs)[..0];
    DiscoverGoesOn(t, rs, |Listing(rs)| / COAP_MAX_BLOCK_SIZE + 1);
  }

  /** coap_blocking_request: a protothread that gives up control after every request. */
  class BlockingRequest {
    var transfer: Transfer

    /** The part up to the first yield. */
    constructor (option: Option<Block2>, slotFree: bool)
      ensures transfer == Start(option, slotFree)
    {
      transfer := Transfer(0, false, 0, 0, option, true, [], 0, []);
      new;
      RequestBlock(slotFree);
    }

    /** The head of the loop. */
    method RequestBlock(slotFree: bool)
      modifies this
      ensures transfer == SendRequest(old(transfer), slotFree)
    {
      if slotFree {
        if transfer.blockNum > 0 {
          transfer := transfer.(option := WithBlock(transfer.option, transfer.blockNum, false, REST_MAX_CHUNK_SIZE));
        }
        transfer := transfer.(asked := transfer.asked + [transfer.option]);
      } else {
        transfer := transfer.(running := false);
      }
    }

    /** From the poll that follows an answer to the next yield or the end. */
    method Poll(a: Answer, slotFree: bool)
      requires transfer.running
      modifies this
      ensures transfer == Resume(old(transfer), a, slotFree)
    {
      if a == Lost {
        transfer := transfer.(running := false);
        return;
      }
      transfer := transfer.(answered := transfer.answered + 1);
      if a.block.Some? {
        transfer := transfer.(resBlock := a.block.value.num, more := a.block.value.more);
      }
      if transfer.resBlock == transfer.blockNum {
        transfer := transfer.(delivered := transfer.delivered + [(transfer.blockNum, a.payload)]);
        transfer := transfer.(blockNum := ((transfer.blockNum as int) + 1) % U32);
      } else {
        transfer := transfer.(blockError := transfer.blockError + 1);
      }
      if transfer.more && transfer.blockError < COAP_MAX_ATTEMPTS {
        RequestBlock(slotFree);
      } else {
        transfer := transfer.(running := false);
      }
    }
  }
}
