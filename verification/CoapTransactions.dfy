/**
  CoAP retransmission (apps/er-coap/er-coap-transactions.c; sections 4.2 and 4.8.2 of
  RFC 7252).

  Transactions live in a fixed pool of slots and in a list.  The pure functions are the
  operations on pool and list; class `Transactions` works on them in place.  `RunKeeps` and
  `UnansweredScheduleIff` are the main results.
 */
module CoapTransactions {

  const MAX_OPEN: nat := 4
  const MAX_RETRANSMIT: nat := 4
  const RESPONSE_TIMEOUT: nat := 3
  const TICK_WRAP: nat := 0x1_0000_0000

  /** Ticks of a second; the longest wait, 8 times 4.5 seconds, fits into the 32 bits of the clock. */
  type tickRate = x: nat | 0 < x <= 0x400_0000 witness 1

  function TimeoutTicks(second: tickRate): nat { second * RESPONSE_TIMEOUT }

  /** The cast part of COAP_RESPONSE_TIMEOUT_BACKOFF_MASK: half the timeout, rounded. */
  function Backoff(second: tickRate): (n: nat)
    ensures n > 0
  {
    (second * RESPONSE_TIMEOUT + 1) / 2
  }

  /** The first interval.  The macro has no parentheses, so that its "+ 1" is added to the
      remainder and not to the modulus. */
  function FirstInterval(second: tickRate, random: nat): nat {
    TimeoutTicks(second) + random % Backoff(second) + 1
  }

  /** Between the timeout, exclusive, and 1.5 times the timeout, rounded up to a tick. */
  predicate InBounds(interval: nat, second: tickRate) {
    TimeoutTicks(second) < interval && 2 * interval <= 3 * TimeoutTicks(second) + 1
  }

  lemma FirstIntervalBounds(second: tickRate, random: nat)
    ensures InBounds(FirstInterval(second, random), second)
  {
  }

  /** The first intervals are all the ticks above 3 seconds and up to 4.5 seconds, rounded up. */
  lemma FirstIntervalsExact(second: tickRate, t: nat)
    ensures (exists random: nat :: FirstInterval(second, random) == t) <==> 3 * second < t && 2 * t <= 9 * second + 1
  {
    hide FirstInterval;
    if 3 * second < t && 2 * t <= 9 * second + 1 {
      IntervalOccurs(second, t - 3 * second - 1);
    }
    forall random: nat
      ensures 3 * second < FirstInterval(second, random) && 2 * FirstInterval(second, random) <= 9 * second + 1
    {
      IntervalBounds(second, random);
    }
  }

  lemma IntervalBounds(second: tickRate, random: nat)
    ensures 3 * second < FirstInterval(second, random) && 2 * FirstInterval(second, random) <= 9 * second + 1
  {
    FirstIntervalBounds(second, random);
  }

  lemma IntervalOccurs(second: tickRate, random: nat)
    requires 2 * random + 1 <= 3 * second
    ensures FirstInterval(second, random) == 3 * second + random + 1
  {
    var b := Backoff(second);
    assert random < b;
    assert random % b == random;
  }

  /** `first` and `times` are history: the first interval and when the packet went out. */
  datatype Transaction = Transaction(mid: nat, confirmable: bool, counter: nat, interval: nat, start: nat,
                                     running: bool, first: nat, times: seq<nat>)

  datatype State = State(slots: seq<Transaction>, used: seq<bool>, list: seq<nat>)

  predicate Distinct(l: seq<nat>) {
    forall i, j :: 0 <= i < j < |l| ==> l[i] != l[j]
  }

  /** The listed transactions are exactly the allocated slots, each listed once. */
  predicate Valid(s: State) {
    && |s.slots| == |s.used| == MAX_OPEN && Distinct(s.list)
    && (forall k :: 0 <= k < |s.list| ==> s.list[k] < MAX_OPEN)
    && (forall i :: 0 <= i < MAX_OPEN ==> (s.used[i] <==> i in s.list))
  }

  /** memb_alloc: the first slot that is not used. */
  function Free(used: seq<bool>, from: nat): (i: nat)
    requires from <= |used|
    ensures from <= i <= |used| && (i < |used| ==> !used[i])
    ensures forall k :: from <= k < i ==> used[k]
    decreases |used| - from
  {
    if from < |used| && used[from] then Free(used, from + 1) else from
  }

  /** list_remove. */
  function Without(l: seq<nat>, x: nat): (r: seq<nat>)
    ensures forall y :: y != x ==> (y in r <==> y in l)
    ensures x !in l ==> r == l
  {
    if l == [] then [] else if l[0] == x then l[1..] else [l[0]] + Without(l[1..], x)
  }

  lemma {:induction false} WithoutDistinct(l: seq<nat>, x: nat)
    requires Distinct(l)
    ensures Distinct(Without(l, x)) && x !in Without(l, x)
    ensures |Without(l, x)| == if x in l then |l| - 1 else |l|
  {
    if l != [] && l[0] != x {
      var rest := Without(l[1..], x);
      WithoutDistinct(l[1..], x);
      assert forall y :: y in rest ==> y in l[1..];
      assert l[0] !in l[1..];
    }
  }

  /** coap_new_transaction; MAX_OPEN when there is no free slot. */
  function New(s: State, mid: nat, confirmable: bool): (State, nat)
    requires Valid(s)
  {
    var i := Free(s.used, 0);
    if i == MAX_OPEN then (s, i)
    else (State(s.slots[i := s.slots[i].(mid := mid, confirmable := confirmable, counter := 0, times := [])],
                s.used[i := true], Without(s.list, i) + [i]), i)
  }

  /** coap_clear_transaction. */
  function Clear(s: State, i: nat): State
    requires i < |s.slots| == |s.used|
  {
    State(s.slots[i := s.slots[i].(running := false)], s.used[i := false], Without(s.list, i))
  }

  /** A transaction that stays open after being sent: the interval is drawn, then doubled. */
  function Restarted(t: Transaction, now: nat, second: tickRate, random: nat): Transaction {
    var first := if t.counter == 0 then FirstInterval(second, random) else t.first;
    var interval := if t.counter == 0 then first else t.interval * 2 % TICK_WRAP;
    t.(first := first, interval := interval, start := now, running := true, times := t.times + [now])
  }

  predicate Stays(t: Transaction) { t.confirmable && t.counter < MAX_RETRANSMIT }

  /** coap_send_transaction: the packet goes out in any case. */
  function Send(s: State, i: nat, now: nat, second: tickRate, random: nat): State
    requires i < |s.slots| == |s.used|
  {
    var t := s.slots[i];
    if Stays(t) then s.(slots := s.slots[i := Restarted(t, now, second, random)])
    else Clear(s.(slots := s.slots[i := t.(times := t.times + [now])]), i)
  }

  /** The counter is raised before an expired transaction is sent again. */
  function Again(s: State, i: nat, now: nat, second: tickRate): State
    requires i < |s.slots| == |s.used|
  {
    Send(s.(slots := s.slots[i := s.slots[i].(counter := s.slots[i].counter + 1)]), i, now, second, 0)
  }

  predicate Expired(s: State, i: nat)
    requires i < |s.slots|
  {
    !s.slots[i].running
  }

  /**
    coap_check_transactions from the k-th listed transaction on.  Removing a transaction
    from the list clears its link to the next one, so that the walk ends there.
   */
  function CheckFrom(s: State, k: nat, now: nat, second: tickRate): State
    requires Valid(s)
    decreases |s.list| - k
  {
    if k >= |s.list| then s
    else
      var i := s.list[k];
      if !Expired(s, i) then CheckFrom(s, k + 1, now, second)
      else
        SendKeepsValid(s.(slots := s.slots[i := s.slots[i].(counter := s.slots[i].counter + 1)]), i, now, second, 0);
        var r := Again(s, i, now, second);
        if i in r.list then CheckFrom(r, k + 1, now, second) else r
  }

  function Check(s: State, now: nat, second: tickRate): State
    requires Valid(s)
  {
    CheckFrom(s, 0, now, second)
  }

  /** coap_get_transaction_by_mid. */
  function Find(s: State, mid: nat, k: nat): (i: nat)
    requires Valid(s)
    ensures i <= MAX_OPEN
    decreases |s.list| - k
  {
    if k >= |s.list| then MAX_OPEN else if s.slots[s.list[k]].mid == mid then s.list[k] else Find(s, mid, k + 1)
  }

  // ----- list and pool agree -----------------------------------------------------------------

  lemma NewKeepsValid(s: State, mid: nat, confirmable: bool)
    requires Valid(s)
    ensures var (r, i) := New(s, mid, confirmable);
            && Valid(r) && i <= MAX_OPEN && (i == MAX_OPEN <==> forall k :: 0 <= k < MAX_OPEN ==> k in s.list)
            && (i < MAX_OPEN ==> i !in s.list && r.list == s.list + [i])
  {
    var i := Free(s.used, 0);
    if i < MAX_OPEN {
      assert i !in s.list;
    }
  }

  lemma ClearKeepsValid(s: State, i: nat)
    requires Valid(s) && i < MAX_OPEN
    ensures Valid(Clear(s, i)) && i !in Clear(s, i).list
    ensures forall k :: k != i ==> (k in Clear(s, i).list <==> k in s.list)
  {
    WithoutDistinct(s.list, i);
    var r := Without(s.list, i);
    forall k | 0 <= k < |r|
      ensures r[k] < MAX_OPEN
    {
      assert r[k] in r;
      assert r[k] in s.list;
    }
  }

  lemma SendKeepsValid(s: State, i: nat, now: nat, second: tickRate, random: nat)
    requires Valid(s) && i < MAX_OPEN
    ensures var r := Send(s, i, now, second, random);
            && Valid(r) && (Stays(s.slots[i]) ==> r.list == s.list)
            && (!Stays(s.slots[i]) ==> i !in r.list && r.list == Without(s.list, i))
            && (forall k :: 0 <= k < MAX_OPEN && k != i ==> r.slots[k] == s.slots[k] && (k in r.list <==> k in s.list))
  {
    if !Stays(s.slots[i]) {
      ClearKeepsValid(s.(slots := s.slots[i := s.slots[i].(times := s.slots[i].times + [now])]), i);
    }
  }

  lemma {:induction false} CheckKeepsValid(s: State, k: nat, now: nat, second: tickRate)
    requires Valid(s)
    ensures Valid(CheckFrom(s, k, now, second))
    decreases |s.list| - k
  {
    hide Valid, Send;
    if k < |s.list| {
      var i := s.list[k];
      ListedInRange(s, k);
      if !Expired(s, i) {
        CheckKeepsValid(s, k + 1, now, second);
      } else {
        AgainFacts(s, i, now, second);
        var r := Again(s, i, now, second);
        if i in r.list {
          CheckKeepsValid(r, k + 1, now, second);
        }
      }
    }
  }

  lemma ListedInRange(s: State, k: nat)
    requires Valid(s) && k < |s.list|
    ensures s.list[k] < MAX_OPEN == |s.slots| == |s.used|
  {
  }

  /** What sending an expired transaction again does. */
  lemma AgainFacts(s: State, i: nat, now: nat, second: tickRate)
    requires Valid(s) && i in s.list && i < MAX_OPEN
    ensures |s.slots| == |s.used| == MAX_OPEN
    ensures var t := s.slots[i].(counter := s.slots[i].counter + 1);
            var r := Again(s, i, now, second);
            && Valid(r) && |r.slots| == MAX_OPEN
            && (i in r.list <==> Stays(t)) && (Stays(t) ==> r.list == s.list)
            && r.slots[i] == (if Stays(t) then Restarted(t, now, second, 0)
                              else t.(times := t.times + [now], running := false))
            && (forall k :: 0 <= k < MAX_OPEN && k != i ==> r.slots[k] == s.slots[k] && (k in r.list <==> k in s.list))
  {
    SendKeepsValid(s.(slots := s.slots[i := s.slots[i].(counter := s.slots[i].counter + 1)]), i, now, second, 0);
  }

  // ----- what one check does ------------------------------------------------------------------

  /** The walk ends behind the k-th listed transaction: it is expired and will not stay. */
  predicate EndsWalk(s: State, k: nat)
    requires Valid(s) && k < |s.list|
  {
    var t := s.slots[s.list[k]];
    !t.running && !Stays(t.(counter := t.counter + 1))
  }

  predicate Reached(s: State, from: nat, k: nat)
    requires Valid(s) && k <= |s.list|
  {
    forall j :: from <= j < k ==> !EndsWalk(s, j)
  }

  /** What a check makes of an expired transaction. */
  function Checked(t: Transaction, now: nat, second: tickRate): Transaction {
    var u := t.(counter := t.counter + 1);
    if Stays(u) then Restarted(u, now, second, 0) else u.(times := u.times + [now], running := false)
  }

  /**
    A check handles exactly the expired transactions that the walk reaches: the walk ends
    behind the first transaction that it closes.  What it does not reach is as before.
   */
  lemma {:induction false} CheckExact(s: State, from: nat, now: nat, second: tickRate, k: nat)
    requires Valid(s) && from <= |s.list| && k < |s.list|
    ensures var r := CheckFrom(s, from, now, second);
            var i := s.list[k];
            && Valid(r) && |r.slots| == MAX_OPEN && i < MAX_OPEN == |s.slots|
            && r.slots[i] == (if from <= k && Expired(s, i) && Reached(s, from, k) then Checked(s.slots[i], now, second)
                              else s.slots[i])
            && (i !in r.list <==> from <= k && Reached(s, from, k) && EndsWalk(s, k))
    decreases |s.list| - from
  {
    hide Send, Restarted, Again, CheckFrom;
    CheckKeepsValid(s, from, now, second);
    if from == |s.list| {
      CheckDone(s, from, now, second);
    } else {
      var i := s.list[from];
      ListedInRange(s, from);
      CheckUnfold(s, from, now, second);
      if !Expired(s, i) {
        CheckExact(s, from + 1, now, second, k);
      } else {
        AgainFacts(s, i, now, second);
        var r := Again(s, i, now, second);
        if i in r.list {
          CheckExact(r, from + 1, now, second, k);
          ReachedSame(s, r, from, k);
        } else {
          assert EndsWalk(s, from);
        }
      }
    }
  }

  lemma CheckUnfold(s: State, k: nat, now: nat, second: tickRate)
    requires Valid(s) && k < |s.list|
    ensures var i := s.list[k];
            && i < |s.slots| == |s.used|
            && (!Expired(s, i) ==> CheckFrom(s, k, now, second) == CheckFrom(s, k + 1, now, second))
            && (Expired(s, i) ==>
                  var r := Again(s, i, now, second);
                  && (i in r.list ==> Valid(r) && CheckFrom(s, k, now, second) == CheckFrom(r, k + 1, now, second))
                  && (i !in r.list ==> CheckFrom(s, k, now, second) == r))
  {
    hide Send;
    if Expired(s, s.list[k]) {
      AgainFacts(s, s.list[k], now, second);
    }
  }

  /** After the transaction at `from` has been sent again, the walk goes on as before. */
  lemma ReachedSame(s: State, r: State, from: nat, k: nat)
    requires Valid(s) && Valid(r) && r.list == s.list && from < |s.list| && k < |s.list| && !EndsWalk(s, from)
    requires forall j :: 0 <= j < MAX_OPEN && j != s.list[from] ==> r.slots[j] == s.slots[j]
    ensures from < k ==> (Reached(s, from, k) <==> Reached(r, from + 1, k))
    ensures k != from ==> r.slots[s.list[k]] == s.slots[s.list[k]]
  {
    forall j | from < j < |s.list|
      ensures EndsWalk(s, j) <==> EndsWalk(r, j)
    {
      assert s.list[j] != s.list[from];
    }
    assert k != from ==> s.list[k] != s.list[from];
  }

  // ----- every run ------------------------------------------------------------------------------

  function Pow2(n: nat): nat
    requires n <= MAX_RETRANSMIT
  {
    if n == 0 then 1 else if n == 1 then 2 else if n == 2 then 4 else if n == 3 then 8 else 16
  }

  /** Every transmission keeps its distance from the one before: T0, 2 T0, 4 T0, 8 T0. */
  predicate Spaced(times: seq<nat>, first: nat)
    requires |times| <= 1 + MAX_RETRANSMIT
  {
    forall k :: 0 < k < |times| ==> times[k] >= times[k - 1] + first * Pow2(k - 1)
  }

  /** An open transaction: sent once more than its counter says, and never too early. */
  predicate Live(t: Transaction, now: nat, second: tickRate) {
    && t.confirmable && t.counter < MAX_RETRANSMIT && |t.times| == t.counter + 1
    && InBounds(t.first, second) && t.interval == t.first * Pow2(t.counter)
    && t.start == t.times[t.counter] <= now && (!t.running ==> now >= t.start + t.interval)
    && Spaced(t.times, t.first)
  }

  /** A transaction that was given up: all transmissions made, none too early. */
  predicate GivenUp(t: Transaction, second: tickRate) {
    && t.confirmable && |t.times| == 1 + MAX_RETRANSMIT && InBounds(t.first, second) && Spaced(t.times, t.first)
  }

  datatype World = World(state: State, now: nat)

  predicate Good(w: World, second: tickRate) {
    Valid(w.state) && forall k :: 0 <= k < |w.state.list| ==> Live(w.state.slots[w.state.list[k]], w.now, second)
  }

  /** The engine runs every event to completion: what opens a transaction sends it at once. */
  datatype Event =
    | Open(mid: nat, confirmable: bool, random: nat)
    | Wait(ticks: nat)
    | Expire(slot: nat)
    | TimerEvent
    | Response(mid: nat)
    | Close(slot: nat)

  /** A timer that has run out is marked by the timer process; TimerEvent is the event that it posts. */
  function Expiring(w: World, i: nat): World
    requires Valid(w.state)
  {
    if i in w.state.list && w.now >= w.state.slots[i].start + w.state.slots[i].interval
    then w.(state := w.state.(slots := w.state.slots[i := w.state.slots[i].(running := false)]))
    else w
  }

  function Step(w: World, e: Event, second: tickRate): World
    requires Valid(w.state)
  {
    match e
    case Open(mid, confirmable, random) =>
      var (s, i) := New(w.state, mid, confirmable);
      if i == MAX_OPEN then w else w.(state := Send(s, i, w.now, second, random))
    case Wait(ticks) => w.(now := w.now + ticks)
    case Expire(i) => Expiring(w, i)
    case TimerEvent => w.(state := Check(w.state, w.now, second))
    case Response(mid) =>
      var i := Find(w.state, mid, 0);
      if i == MAX_OPEN then w else w.(state := Clear(w.state, i))
    case Close(i) => if i in w.state.list then w.(state := Clear(w.state, i)) else w
  }

  /** The lookup finds the first listed transaction with the message id, if there is one. */
  lemma {:induction false} FindExact(s: State, mid: nat, k: nat) returns (j: nat)
    requires Valid(s) && k <= |s.list|
    ensures k <= j <= |s.list| && forall i :: k <= i < j ==> s.slots[s.list[i]].mid != mid
    ensures j < |s.list| ==> s.slots[s.list[j]].mid == mid
    ensures Find(s, mid, k) == if j < |s.list| then s.list[j] else MAX_OPEN
    decreases |s.list| - k
  {
    j := k;
    if k < |s.list| && s.slots[s.list[k]].mid != mid {
      j := FindExact(s, mid, k + 1);
    }
  }

  lemma OpenKeeps(w: World, mid: nat, confirmable: bool, random: nat, second: tickRate)
    requires Good(w, second)
    ensures Good(Step(w, Open(mid, confirmable, random), second), second)
  {
    hide Without, New, Send, Valid, InBounds;
    NewKeepsValid(w.state, mid, confirmable);
    var (s, i) := New(w.state, mid, confirmable);
    if i < MAX_OPEN {
      NewFacts(w.state, mid, confirmable);
      SendKeepsValid(s, i, w.now, second, random);
      SendFacts(s, i, w.now, second, random);
      FirstIntervalBounds(second, random);
      var r := Send(s, i, w.now, second, random);
      forall k | 0 <= k < |r.list|
        ensures Live(r.slots[r.list[k]], w.now, second)
      {
        KnownBefore(r, k);
        if r.list[k] != i {
          assert r.list[k] in r.list;
          assert r.list[k] in w.state.list;
        }
      }
    }
  }

  lemma KnownBefore(s: State, k: nat)
    requires Valid(s) && k < |s.list|
    ensures |s.slots| == MAX_OPEN && s.list[k] < MAX_OPEN
  {
  }

  lemma NewFacts(s: State, mid: nat, confirmable: bool)
    requires Valid(s) && New(s, mid, confirmable).1 < MAX_OPEN
    ensures var (r, i) := New(s, mid, confirmable);
            && |r.slots| == |s.slots| == MAX_OPEN && r.slots[i].mid == mid && r.slots[i].confirmable == confirmable
            && r.slots[i].counter == 0 && r.slots[i].times == []
            && forall k :: 0 <= k < MAX_OPEN && k != i ==> r.slots[k] == s.slots[k]
  {
  }

  lemma SendFacts(s: State, i: nat, now: nat, second: tickRate, random: nat)
    requires Valid(s) && i < MAX_OPEN
    ensures |s.slots| == MAX_OPEN && |Send(s, i, now, second, random).slots| == MAX_OPEN
    ensures Stays(s.slots[i]) ==> Send(s, i, now, second, random).slots[i] == Restarted(s.slots[i], now, second, random)
  {
  }

  /** One more transmission of a live transaction. */
  lemma LiveAgain(t: Transaction, now: nat, second: tickRate)
    requires Live(t, now, second) && !t.running
    ensures var u := Checked(t, now, second);
            if t.counter + 1 < MAX_RETRANSMIT then Live(u, now, second) else GivenUp(u, second)
  {
    hide Pow2, Spaced, InBounds;
    Doubled(t.first, t.counter, second);
    SpacedGrows(t.times, t.first, now);
  }

  lemma Doubled(first: nat, n: nat, second: tickRate)
    requires InBounds(first, second) && n < MAX_RETRANSMIT
    ensures first * Pow2(n) * 2 == first * Pow2(n + 1)
    ensures n + 1 < MAX_RETRANSMIT ==> first * Pow2(n) * 2 < TICK_WRAP
  {
  }

  lemma SpacedGrows(times: seq<nat>, first: nat, now: nat)
    requires 0 < |times| <= MAX_RETRANSMIT && Spaced(times, first)
    requires now >= times[|times| - 1] + first * Pow2(|times| - 1)
    ensures Spaced(times + [now], first)
  {
    hide Pow2;
    var more := times + [now];
    forall k | 0 < k < |more|
      ensures more[k] >= more[k - 1] + first * Pow2(k - 1)
    {
      if k < |times| {
        assert times[k] >= times[k - 1] + first * Pow2(k - 1);
      }
    }
  }

  lemma CheckKeeps(w: World, second: tickRate)
    requires Good(w, second)
    ensures Good(Step(w, TimerEvent, second), second)
  {
    hide Live, Valid, Checked, CheckFrom, EndsWalk;
    var r := Check(w.state, w.now, second);
    CheckKeepsValid(w.state, 0, w.now, second);
    forall k | 0 <= k < |r.list|
      ensures |r.slots| == MAX_OPEN && r.list[k] < MAX_OPEN && Live(r.slots[r.list[k]], w.now, second)
    {
      KnownBefore(r, k);
      CheckListed(w.state, w.now, second, r.list[k]);
      var j :| 0 <= j < |w.state.list| && w.state.list[j] == r.list[k];
      CheckExact(w.state, 0, w.now, second, j);
      CheckStays(w.state, j);
      if Expired(w.state, r.list[k]) {
        LiveAgain(w.state.slots[r.list[k]], w.now, second);
        LiveCounter(w.state.slots[r.list[k]], w.now, second);
      }
    }
  }

  lemma LiveCounter(t: Transaction, now: nat, second: tickRate)
    requires Live(t, now, second)
    ensures t.confirmable && t.counter < MAX_RETRANSMIT
  {
  }

  lemma CheckStays(s: State, j: nat)
    requires Valid(s) && j < |s.list|
    ensures |s.slots| == MAX_OPEN && s.list[j] < MAX_OPEN
    ensures var t := s.slots[s.list[j]];
            EndsWalk(s, j) <==> Expired(s, s.list[j]) && !(t.confirmable && t.counter + 1 < MAX_RETRANSMIT)
  {
  }

  /** A check adds nothing to the list. */
  lemma CheckListed(s: State, now: nat, second: tickRate, i: nat)
    requires Valid(s) && i in Check(s, now, second).list
    ensures i in s.list
  {
    CheckShrinks(s, 0, now, second, i);
  }

  lemma {:induction false} CheckShrinks(s: State, k: nat, now: nat, second: tickRate, i: nat)
    requires Valid(s) && i in CheckFrom(s, k, now, second).list
    ensures i in s.list
    decreases |s.list| - k
  {
    hide Again, Valid, CheckFrom;
    if k < |s.list| {
      var x := s.list[k];
      ListedInRange(s, k);
      CheckUnfold(s, k, now, second);
      if !Expired(s, x) {
        CheckShrinks(s, k + 1, now, second, i);
      } else {
        AgainFacts(s, x, now, second);
        var r := Again(s, x, now, second);
        if x in r.list {
          CheckShrinks(r, k + 1, now, second, i);
        } else if i != x {
          AgainInRange(r, i);
        }
      }
    } else {
      CheckDone(s, k, now, second);
    }
  }

  lemma CheckDone(s: State, k: nat, now: nat, second: tickRate)
    requires Valid(s) && k >= |s.list|
    ensures CheckFrom(s, k, now, second) == s
  {
  }

  lemma AgainInRange(s: State, i: nat)
    requires Valid(s) && i in s.list
    ensures i < MAX_OPEN
  {
  }

  lemma ClearKeeps(w: World, i: nat, second: tickRate)
    requires Good(w, second) && i in w.state.list
    ensures i < MAX_OPEN && |w.state.slots| == |w.state.used| == MAX_OPEN
    ensures Good(w.(state := Clear(w.state, i)), second)
  {
    hide Live, Without;
    AgainInRange(w.state, i);
    ClearKeepsValid(w.state, i);
    var r := Clear(w.state, i);
    forall k | 0 <= k < |r.list|
      ensures Live(r.slots[r.list[k]], w.now, second)
    {
      assert r.list[k] in r.list;
      assert r.list[k] != i && r.list[k] in w.state.list;
    }
  }

  lemma WaitKeeps(w: World, ticks: nat, second: tickRate)
    requires Good(w, second)
    ensures Good(w.(now := w.now + ticks), second)
  {
    hide Valid, Spaced;
    forall k | 0 <= k < |w.state.list|
      ensures Valid(w.state) && |w.state.slots| == MAX_OPEN && w.state.list[k] < MAX_OPEN
      ensures Live(w.state.slots[w.state.list[k]], w.now + ticks, second)
    {
      KnownBefore(w.state, k);
      assert Live(w.state.slots[w.state.list[k]], w.now, second);
    }
  }

  lemma ExpireKeeps(w: World, i: nat, second: tickRate)
    requires Good(w, second)
    ensures Good(Expiring(w, i), second)
  {
    hide Spaced, InBounds, Distinct;
    var r := Expiring(w, i);
    forall k | 0 <= k < |r.state.list|
      ensures Live(r.state.slots[r.state.list[k]], w.now, second)
    {
      assert Live(w.state.slots[w.state.list[k]], w.now, second);
    }
  }

  lemma StepKeeps(w: World, e: Event, second: tickRate)
    requires Good(w, second)
    ensures Good(Step(w, e, second), second)
  {
    hide Good, Clear, CheckFrom, New, Send;
    assert Valid(w.state) by { GoodValid(w, second); }
    match e {
      case Open(mid, confirmable, random) => OpenKeeps(w, mid, confirmable, random, second);
      case Wait(ticks) => WaitKeeps(w, ticks, second);
      case Expire(i) => ExpireKeeps(w, i, second);
      case TimerEvent => CheckKeeps(w, second);
      case Response(mid) => {
        var j := FindExact(w.state, mid, 0);
        var i := Find(w.state, mid, 0);
        if i != MAX_OPEN {
          ClearKeeps(w, i, second);
        }
      }
      case Close(i) => {
        if i in w.state.list {
          ClearKeeps(w, i, second);
        }
      }
    }
  }

  lemma GoodValid(w: World, second: tickRate)
    requires Good(w, second)
    ensures Valid(w.state)
  {
  }

  /** The pool and the list as they are at the start of the program. */
  predicate Initial(w: World) {
    |w.state.slots| == MAX_OPEN && w.state.used == [false, false, false, false] && w.state.list == []
  }

  function Run(w: World, events: seq<Event>, second: tickRate): World
    requires Good(w, second)
    decreases events
  {
    if events == [] then w
    else
      StepKeeps(w, events[0], second);
      Run(Step(w, events[0], second), events[1..], second)
  }

  /**
    In every run: the listed transactions are exactly the allocated slots, and every open
    transaction has been sent once more than its counter says, at most MAX_RETRANSMIT
    times so far, with waits of at least T0, 2 T0, 4 T0 in between, T0 in its bounds.
   */
  lemma {:induction false} RunKeeps(w: World, events: seq<Event>, second: tickRate)
    requires Initial(w)
    ensures Good(w, second) && Good(Run(w, events, second), second)
  {
    RunGood(w, events, second);
  }

  lemma {:induction false} RunGood(w: World, events: seq<Event>, second: tickRate)
    requires Good(w, second)
    ensures Good(Run(w, events, second), second)
    decreases events
  {
    hide Good, Step;
    if events != [] {
      GoodValid(w, second);
      StepKeeps(w, events[0], second);
      RunGood(Step(w, events[0], second), events[1..], second);
    }
  }

  /** A check closes a transaction only when it has been sent 1 + MAX_RETRANSMIT times. */
  lemma ClosedByCheck(w: World, i: nat, second: tickRate)
    requires Good(w, second) && i in w.state.list && i !in Check(w.state, w.now, second).list
    ensures i < MAX_OPEN == |w.state.slots| == |Check(w.state, w.now, second).slots|
    ensures Check(w.state, w.now, second).slots[i] == Checked(w.state.slots[i], w.now, second)
    ensures !w.state.slots[i].running && Live(w.state.slots[i], w.now, second)
    ensures GivenUp(Check(w.state, w.now, second).slots[i], second)
  {
    hide CheckFrom, Checked, Live, GivenUp, EndsWalk;
    var j :| 0 <= j < |w.state.list| && w.state.list[j] == i;
    CheckExact(w.state, 0, w.now, second, j);
    CheckStays(w.state, j);
    LiveAgain(w.state.slots[i], w.now, second);
    LiveCounter(w.state.slots[i], w.now, second);
  }

  // ----- runs in which timers are noticed when they run out ---------------------------------------

  /** Every transmission follows the one before at exactly its distance. */
  predicate Exact(times: seq<nat>, first: nat)
    requires |times| <= 1 + MAX_RETRANSMIT
  {
    forall k :: 0 < k < |times| ==> times[k] == times[k - 1] + first * Pow2(k - 1)
  }

  /** So far on time: exact waits, and the clock is not past the timer. */
  predicate OnTime(t: Transaction, now: nat)
    requires |t.times| <= 1 + MAX_RETRANSMIT
  {
    Exact(t.times, t.first) && now <= t.start + t.interval
  }

  /** The clock does not pass the timer of slot i; events other than waiting take no time. */
  predicate InTime(w: World, i: nat, e: Event)
    requires Valid(w.state)
  {
    e.Wait? && i in w.state.list ==> w.now + e.ticks <= w.state.slots[i].start + w.state.slots[i].interval
  }

  /** What an event leaves of a transaction that stays listed: nothing changes but its timer
      flag, or it is sent again; and a transaction that comes new has just been sent. */
  lemma StepSlot(w: World, e: Event, i: nat, second: tickRate)
    requires Good(w, second) && i in Step(w, e, second).state.list
    ensures i < MAX_OPEN == |w.state.slots| == |Step(w, e, second).state.slots|
    ensures var t, u := w.state.slots[i], Step(w, e, second).state.slots[i];
            if i in w.state.list then
              && u.mid == t.mid
              && (|| u == t || u == t.(running := false)
                  || (e.TimerEvent? && !t.running && t.counter + 1 < MAX_RETRANSMIT && u == Checked(t, w.now, second)))
            else e.Open? && u.mid == e.mid && u.times == [w.now] && u.start == w.now
    ensures Step(w, e, second).now == if e.Wait? then w.now + e.ticks else w.now
  {
    hide CheckFrom, Clear, New, Send, Checked, EndsWalk, Live, Distinct, Without;
    StepKeeps(w, e, second);
    GoodValid(w, second);
    GoodValid(Step(w, e, second), second);
    AgainInRange(Step(w, e, second).state, i);
    assert |w.state.slots| == MAX_OPEN;
    CheckedMid(w.state.slots[i], w.now, second);
    match e {
      case Open(mid, confirmable, random) => OpenSlot(w, mid, confirmable, random, i, second);
      case TimerEvent => CheckSlot(w, i, second);
      case Response(mid) => {
        var j := FindExact(w.state, mid, 0);
        var x := Find(w.state, mid, 0);
        if x != MAX_OPEN {
          ClearSlot(w.state, x, i);
        }
      }
      case Close(x) => {
        if x in w.state.list {
          ClearSlot(w.state, x, i);
        }
      }
      case _ => {}
    }
  }

  lemma CheckedMid(t: Transaction, now: nat, second: tickRate)
    ensures Checked(t, now, second).mid == t.mid
  {
  }

  lemma OpenSlot(w: World, mid: nat, confirmable: bool, random: nat, i: nat, second: tickRate)
    requires Good(w, second) && i < MAX_OPEN && i in Step(w, Open(mid, confirmable, random), second).state.list
    ensures var u := Step(w, Open(mid, confirmable, random), second).state.slots;
            && |u| == |w.state.slots| == MAX_OPEN
            && if i in w.state.list then u[i] == w.state.slots[i]
               else u[i].mid == mid && u[i].times == [w.now] && u[i].start == w.now
  {
    hide Without, New, Send, Valid, Live;
    GoodValid(w, second);
    NewKeepsValid(w.state, mid, confirmable);
    var (s, x) := New(w.state, mid, confirmable);
    if x < MAX_OPEN {
      NewFacts(w.state, mid, confirmable);
      SendKeepsValid(s, x, w.now, second, random);
      SendFacts(s, x, w.now, second, random);
    } else {
      AgainInRange(w.state, i);
    }
  }

  lemma CheckSlot(w: World, i: nat, second: tickRate)
    requires Good(w, second) && i in Check(w.state, w.now, second).list
    ensures var r := Check(w.state, w.now, second);
            && i in w.state.list && i < MAX_OPEN == |w.state.slots| == |r.slots|
            && var t := w.state.slots[i];
            r.slots[i] == t || (!t.running && t.counter + 1 < MAX_RETRANSMIT && r.slots[i] == Checked(t, w.now, second))
  {
    hide CheckFrom, Checked, EndsWalk, Live, Distinct;
    CheckListed(w.state, w.now, second, i);
    var j :| 0 <= j < |w.state.list| && w.state.list[j] == i;
    CheckExact(w.state, 0, w.now, second, j);
    CheckStays(w.state, j);
    LiveCounter(w.state.slots[i], w.now, second);
  }

  lemma ClearSlot(s: State, x: nat, i: nat)
    requires Valid(s) && x in s.list
    ensures x < MAX_OPEN == |s.slots| == |s.used|
    ensures i in Clear(s, x).list ==> i in s.list && i < MAX_OPEN && i != x && Clear(s, x).slots[i] == s.slots[i]
  {
    hide Without;
    AgainInRange(s, x);
    ClearKeepsValid(s, x);
    if i in Clear(s, x).list {
      AgainInRange(s, i);
    }
  }

  /** A retransmission is exact iff its timer has just run out. */
  lemma ExactAgain(t: Transaction, now: nat, second: tickRate)
    requires Live(t, now, second) && !t.running
    ensures Exact(t.times + [now], t.first) <==> OnTime(t, now)
    ensures var u := Checked(t, now, second);
            u.times == t.times + [now] && u.first == t.first && (t.counter + 1 < MAX_RETRANSMIT ==> u.start == now)
  {
    hide Pow2, Spaced, InBounds;
    var more := t.times + [now];
    assert forall k :: 0 <= k < |t.times| ==> more[k] == t.times[k];
    assert more[t.counter + 1] == now && more[t.counter] == t.start;
    if OnTime(t, now) {
      forall k | 0 < k < |more|
        ensures more[k] == more[k - 1] + t.first * Pow2(k - 1)
      {
      }
    }
    if Exact(more, t.first) {
      forall k | 0 < k < |t.times|
        ensures t.times[k] == t.times[k - 1] + t.first * Pow2(k - 1)
      {
        assert more[k] == more[k - 1] + t.first * Pow2(k - 1);
      }
    }
  }

  /** An event keeps an open transaction on time iff the clock does not pass its timer. */
  lemma OnTimeStep(w: World, e: Event, i: nat, second: tickRate)
    requires Good(w, second) && i in w.state.list && i in Step(w, e, second).state.list
    ensures i < MAX_OPEN == |w.state.slots| == |Step(w, e, second).state.slots|
    ensures var t, u := w.state.slots[i], Step(w, e, second).state.slots[i];
            && 0 < |t.times| <= 1 + MAX_RETRANSMIT && 0 < |u.times| <= 1 + MAX_RETRANSMIT
            && u.first == t.first && u.times[0] == t.times[0]
            && (OnTime(u, Step(w, e, second).now) <==> OnTime(t, w.now) && InTime(w, i, e))
  {
    hide Step, Checked, Valid, Exact, Spaced, InBounds;
    StepKeeps(w, e, second);
    StepSlot(w, e, i, second);
    ListedLive(w, i, second);
    ListedLive(Step(w, e, second), i, second);
    var t := w.state.slots[i];
    if !t.running {
      ExactAgain(t, w.now, second);
    }
  }

  lemma ListedLive(w: World, i: nat, second: tickRate)
    requires Good(w, second) && i in w.state.list
    ensures Valid(w.state) && i < MAX_OPEN == |w.state.slots| && Live(w.state.slots[i], w.now, second)
  {
    hide Live;
    var j :| 0 <= j < |w.state.list| && w.state.list[j] == i;
  }

  /** All through the run the transaction in slot i is neither answered nor closed. */
  predicate StaysOpen(w: World, i: nat, events: seq<Event>, second: tickRate)
    requires Good(w, second)
    decreases events
  {
    && i in w.state.list
    && (events == []
        || (GoodValid(w, second); StepKeeps(w, events[0], second);
            StaysOpen(Step(w, events[0], second), i, events[1..], second)))
  }

  /** All through the run the clock does not pass the timer of slot i. */
  predicate Punctual(w: World, i: nat, events: seq<Event>, second: tickRate)
    requires Good(w, second)
    decreases events
  {
    events == []
    || (GoodValid(w, second); StepKeeps(w, events[0], second);
        InTime(w, i, events[0]) && Punctual(Step(w, events[0], second), i, events[1..], second))
  }

  /** All through the run the clock passes no timer at all. */
  predicate Timely(w: World, events: seq<Event>, second: tickRate)
    requires Good(w, second)
    decreases events
  {
    events == []
    || (GoodValid(w, second); StepKeeps(w, events[0], second);
        && (forall i <- w.state.list :: InTime(w, i, events[0]))
        && Timely(Step(w, events[0], second), events[1..], second))
  }

  /** An open transaction is still on time iff it was and the run has been punctual for it,
      whatever happens to the other slots. */
  lemma {:induction false} OnTimeRun(w: World, i: nat, events: seq<Event>, second: tickRate)
    requires Good(w, second) && StaysOpen(w, i, events, second)
    ensures var v := Run(w, events, second);
            && i in w.state.list && i in v.state.list && i < MAX_OPEN == |w.state.slots| == |v.state.slots|
            && var t, u := w.state.slots[i], v.state.slots[i];
            && 0 < |t.times| <= 1 + MAX_RETRANSMIT && 0 < |u.times| <= 1 + MAX_RETRANSMIT
            && u.first == t.first && u.times[0] == t.times[0]
            && (OnTime(u, v.now) <==> OnTime(t, w.now) && Punctual(w, i, events, second))
    decreases events
  {
    hide Good, Step, OnTime, InTime;
    ListedLive(w, i, second);
    if events != [] {
      var x := Step(w, events[0], second);
      StepKeeps(w, events[0], second);
      assert i in x.state.list by { OpenFirst(w, i, events, second); }
      OnTimeStep(w, events[0], i, second);
      OnTimeRun(x, i, events[1..], second);
    }
  }

  lemma OpenFirst(w: World, i: nat, events: seq<Event>, second: tickRate)
    requires Good(w, second) && StaysOpen(w, i, events, second) && events != []
    ensures Good(Step(w, events[0], second), second) && i in Step(w, events[0], second).state.list
  {
    hide Step;
    StepKeeps(w, events[0], second);
  }

  /** The waits of a transaction that was given up add up to 15 T0 iff each of them was exact. */
  lemma WaitsAddUp(t: Transaction, second: tickRate)
    requires GivenUp(t, second)
    ensures t.times[MAX_RETRANSMIT] >= t.times[0] + 15 * t.first
    ensures t.times[MAX_RETRANSMIT] == t.times[0] + 15 * t.first <==> Exact(t.times, t.first)
    ensures Exact(t.times, t.first) ==> t.times == Schedule(t.times[0], t.first)
  {
    assert t.times[1] >= t.times[0] + t.first;
    assert t.times[2] >= t.times[1] + t.first * 2;
    assert t.times[3] >= t.times[2] + t.first * 4;
    assert t.times[4] >= t.times[3] + t.first * 8;
    if Exact(t.times, t.first) {
      assert t.times[1] == t.times[0] + t.first;
      assert t.times[2] == t.times[1] + t.first * 2;
      assert t.times[3] == t.times[2] + t.first * 4;
      assert t.times[4] == t.times[3] + t.first * 8;
    }
  }

  /** Transmissions at 0, T0, 3 T0, 7 T0 and 15 T0. */
  function Schedule(at: nat, t0: nat): seq<nat> { [at, at + t0, at + 3 * t0, at + 7 * t0, at + 15 * t0] }

  /**
    In every run of events in which the clock passes no timer, whatever is opened, answered
    and closed in it: every open transaction has been sent after exactly T0, 2 T0, 4 T0, and
    one that the next check closes was sent 1 + MAX_RETRANSMIT times and open for exactly 15 T0.
   */
  lemma TimelyRuns(w: World, events: seq<Event>, i: nat, second: tickRate)
    requires Initial(w) && Good(w, second) && Timely(w, events, second)
    requires i in Run(w, events, second).state.list
    ensures var v := Run(w, events, second);
            && i < MAX_OPEN == |v.state.slots| && Live(v.state.slots[i], v.now, second)
            && Exact(v.state.slots[i].times, v.state.slots[i].first)
            && Valid(v.state) && var r := Check(v.state, v.now, second);
            (i !in r.list ==>
               && |r.slots| == MAX_OPEN && |r.slots[i].times| == 1 + MAX_RETRANSMIT
               && r.slots[i].times == Schedule(r.slots[i].times[0], r.slots[i].first)
               && v.now == r.slots[i].times[0] + 15 * r.slots[i].first && InBounds(r.slots[i].first, second))
  {
    hide Good, Checked, CheckFrom, Exact, Spaced, InBounds, Schedule, Run, Timely;
    RunGood(w, events, second);
    var v := Run(w, events, second);
    GoodValid(v, second);
    ListedLive(v, i, second);
    AllOnTime(w, events, second);
    if i !in Check(v.state, v.now, second).list {
      ClosedByCheck(v, i, second);
      ExactAgain(v.state.slots[i], v.now, second);
      WaitsAddUp(Check(v.state, v.now, second).slots[i], second);
    }
  }

  predicate Prompt(w: World, second: tickRate) {
    Good(w, second) && forall i <- w.state.list :: (ListedLive(w, i, second); OnTime(w.state.slots[i], w.now))
  }

  lemma PromptStep(w: World, e: Event, second: tickRate)
    requires Prompt(w, second) && forall i <- w.state.list :: InTime(w, i, e)
    ensures Prompt(Step(w, e, second), second)
  {
    hide Good, Step, OnTime, InTime;
    GoodValid(w, second);
    StepKeeps(w, e, second);
    var x := Step(w, e, second);
    forall i <- x.state.list
      ensures |x.state.slots| == MAX_OPEN && i < MAX_OPEN && |x.state.slots[i].times| <= 1 + MAX_RETRANSMIT
      ensures OnTime(x.state.slots[i], x.now)
    {
      ListedLive(x, i, second);
      StepSlot(w, e, i, second);
      if i in w.state.list {
        OnTimeStep(w, e, i, second);
      } else {
        JustSent(x.state.slots[i], x.now, second);
      }
    }
  }

  lemma JustSent(t: Transaction, now: nat, second: tickRate)
    requires Live(t, now, second) && t.times == [now]
    ensures OnTime(t, now)
  {
  }

  lemma {:induction false} AllOnTime(w: World, events: seq<Event>, second: tickRate)
    requires Good(w, second) && Timely(w, events, second) && (w.state.list == [] || Prompt(w, second))
    ensures Run(w, events, second).state.list == [] || Prompt(Run(w, events, second), second)
    decreases events
  {
    hide Good, Step, Prompt;
    assert Prompt(w, second) by { EmptyPrompt(w, second); }
    if events != [] {
      PromptFirst(w, events, second);
      AllOnTime(Step(w, events[0], second), events[1..], second);
    }
  }

  lemma EmptyPrompt(w: World, second: tickRate)
    requires Good(w, second) && (w.state.list == [] || Prompt(w, second))
    ensures Prompt(w, second)
  {
  }

  lemma PromptFirst(w: World, events: seq<Event>, second: tickRate)
    requires Prompt(w, second) && Good(w, second) && Timely(w, events, second) && events != []
    ensures Valid(w.state) && Good(Step(w, events[0], second), second) && Prompt(Step(w, events[0], second), second)
    ensures Timely(Step(w, events[0], second), events[1..], second)
  {
    hide Good, Step, Prompt;
    GoodValid(w, second);
    StepKeeps(w, events[0], second);
    PromptStep(w, events[0], second);
  }

  /**
    An unanswered confirmable transaction in any run, from its opening to the check that
    closes it, with the other slots opening, expiring, being answered and closed in between:
    it is sent 1 + MAX_RETRANSMIT times and open for at least 15 T0; and it is open for exactly
    15 T0, sent at 0, T0, 3 T0, 7 T0 and 15 T0, if and only if the clock never passed its timer.
    It is closed with its last transmission, so that an answer to that one finds no transaction.
   */
  lemma UnansweredScheduleIff(w: World, mid: nat, random: nat, events: seq<Event>, second: tickRate)
    requires Good(w, second) && Free(w.state.used, 0) < MAX_OPEN
    requires var w0 := Step(w, Open(mid, true, random), second);
             && Good(w0, second) && StaysOpen(w0, Free(w.state.used, 0), events, second)
             && var v := Run(w0, events, second);
             Valid(v.state) && Free(w.state.used, 0) !in Check(v.state, v.now, second).list
    ensures var i, t0 := Free(w.state.used, 0), FirstInterval(second, random);
            var w0 := Step(w, Open(mid, true, random), second);
            var v := Run(w0, events, second);
            && |Check(v.state, v.now, second).slots| == MAX_OPEN && InBounds(t0, second)
            && var times := Check(v.state, v.now, second).slots[i].times;
            && |times| == 1 + MAX_RETRANSMIT
            && times[0] == w.now && times[MAX_RETRANSMIT] == v.now && v.now >= w.now + 15 * t0
            && (v.now == w.now + 15 * t0 <==> Punctual(w0, i, events, second))
            && (Punctual(w0, i, events, second) ==> times == Schedule(w.now, t0))
  {
    hide Good, Checked, CheckFrom, Exact, Spaced, InBounds, Schedule, Run, Step, StaysOpen, Punctual, FirstInterval,
      Free;
    var i, t0 := Free(w.state.used, 0), FirstInterval(second, random);
    FirstIntervalBounds(second, random);
    GoodValid(w, second);
    var w0 := Step(w, Open(mid, true, random), second);
    var v := Run(w0, events, second);
    OpenedSlot(w, mid, random, second);
    OnTimeRun(w0, i, events, second);
    RunGood(w0, events, second);
    ListedLive(v, i, second);
    ClosedByCheck(v, i, second);
    ExactAgain(v.state.slots[i], v.now, second);
    WaitsAddUp(Check(v.state, v.now, second).slots[i], second);
  }

  lemma OpenedSlot(w: World, mid: nat, random: nat, second: tickRate)
    requires Good(w, second) && Free(w.state.used, 0) < MAX_OPEN
    ensures var i, w0 := Free(w.state.used, 0), Step(w, Open(mid, true, random), second);
            && |w0.state.slots| == MAX_OPEN && i in w0.state.list && w0.now == w.now
            && w0.state.slots[i].times == [w.now] && w0.state.slots[i].first == FirstInterval(second, random)
            && OnTime(w0.state.slots[i], w.now)
  {
    hide New, Send, Valid, FirstInterval, Free, Live;
    GoodValid(w, second);
    var (s, i) := New(w.state, mid, true);
    FreeFound(w.state, mid);
    NewKeepsValid(w.state, mid, true);
    NewFacts(w.state, mid, true);
    SendKeepsValid(s, i, w.now, second, random);
    SendFacts(s, i, w.now, second, random);
  }

  lemma FreeFound(s: State, mid: nat)
    requires Valid(s) && Free(s.used, 0) < MAX_OPEN
    ensures New(s, mid, true).1 == Free(s.used, 0)
  {
  }

  /** What happens to a single open transaction without an answer, from its n-th
      retransmission on, up to the expiry that closes it. */
  function Silence(t0: nat, n: nat): seq<Event>
    requires n < MAX_RETRANSMIT
    decreases MAX_RETRANSMIT - n
  {
    [Wait(t0 * Pow2(n)), Expire(0)] + if n + 1 == MAX_RETRANSMIT then [] else [TimerEvent] + Silence(t0, n + 1)
  }

  /** Slot 0 holds the only open transaction, just sent for the n-th time after the first. */
  predicate Alone(w: World, n: nat, second: tickRate) {
    && Good(w, second) && w.state.list == [0]
    && var t := w.state.slots[0];
    t.running && t.counter == n && t.start == w.now
  }

  /** One round: the timer runs out, is noticed, and the transaction is sent again or closed. */
  lemma Round(w: World, n: nat, second: tickRate)
    requires Alone(w, n, second) && n < MAX_RETRANSMIT
    ensures Valid(w.state) && |w.state.slots| == MAX_OPEN
    ensures var d := w.state.slots[0].first * Pow2(n);
            var a := Step(w, Wait(d), second);
            && InTime(w, 0, Wait(d)) && Good(a, second) && a.state.list == [0]
            && var b := Step(a, Expire(0), second);
            && Good(b, second) && b.state.list == [0] && InTime(a, 0, Expire(0)) && InTime(b, 0, TimerEvent)
            && var c := Step(b, TimerEvent, second);
            && Good(c, second)
            && (n + 1 < MAX_RETRANSMIT ==>
                  Alone(c, n + 1, second) && c.state.slots[0].first == w.state.slots[0].first)
            && (n + 1 == MAX_RETRANSMIT ==> 0 !in c.state.list)
  {
    hide Pow2, Spaced, InBounds, CheckFrom;
    GoodValid(w, second);
    ListedLive(w, 0, second);
    var t := w.state.slots[0];
    var a := Step(w, Wait(t.first * Pow2(n)), second);
    StepKeeps(w, Wait(t.first * Pow2(n)), second);
    var b := Step(a, Expire(0), second);
    StepKeeps(a, Expire(0), second);
    StepKeeps(b, TimerEvent, second);
    CheckUnfold(b.state, 0, b.now, second);
    AgainFacts(b.state, 0, b.now, second);
    var r := Again(b.state, 0, b.now, second);
    if 0 in r.list {
      CheckDone(r, 1, b.now, second);
    }
  }

  lemma {:induction false} SilenceRun(w: World, n: nat, second: tickRate)
    requires Alone(w, n, second) && n < MAX_RETRANSMIT
    ensures |w.state.slots| == MAX_OPEN
    ensures var events := Silence(w.state.slots[0].first, n);
            && StaysOpen(w, 0, events, second) && Punctual(w, 0, events, second)
            && var v := Run(w, events, second);
            Valid(v.state) && 0 !in Check(v.state, v.now, second).list
    decreases MAX_RETRANSMIT - n
  {
    hide Good, Check, Pow2, Alone, Step, InTime, StaysOpen, Punctual, Run;
    AloneListed(w, n, second);
    Round(w, n, second);
    var t0 := w.state.slots[0].first;
    var d := t0 * Pow2(n);
    var a := Step(w, Wait(d), second);
    GoodValid(a, second);
    var b := Step(a, Expire(0), second);
    GoodValid(b, second);
    var rest := if n + 1 == MAX_RETRANSMIT then [] else [TimerEvent] + Silence(t0, n + 1);
    if n + 1 < MAX_RETRANSMIT {
      SilenceRun(Step(b, TimerEvent, second), n + 1, second);
      RunCons(b, 0, TimerEvent, Silence(t0, n + 1), second);
    } else {
      RunNothing(b, 0, second);
      assert Step(b, TimerEvent, second).state == Check(b.state, b.now, second) by { TimerIsCheck(b, second); }
    }
    RunCons(a, 0, Expire(0), rest, second);
    RunCons(w, 0, Wait(d), [Expire(0)] + rest, second);
    assert Silence(t0, n) == [Wait(d)] + ([Expire(0)] + rest);
  }

  lemma TimerIsCheck(w: World, second: tickRate)
    requires Valid(w.state)
    ensures Step(w, TimerEvent, second).state == Check(w.state, w.now, second)
  {
  }

  lemma RunNothing(w: World, i: nat, second: tickRate)
    requires Good(w, second)
    ensures Run(w, [], second) == w && Punctual(w, i, [], second) && (i in w.state.list ==> StaysOpen(w, i, [], second))
  {
  }

  lemma RunCons(w: World, i: nat, e: Event, rest: seq<Event>, second: tickRate)
    requires Good(w, second)
    ensures Valid(w.state) && Good(Step(w, e, second), second)
    ensures var x := Step(w, e, second);
            && Run(w, [e] + rest, second) == Run(x, rest, second)
            && (StaysOpen(w, i, [e] + rest, second) <==> i in w.state.list && StaysOpen(x, i, rest, second))
            && (Punctual(w, i, [e] + rest, second) <==> InTime(w, i, e) && Punctual(x, i, rest, second))
  {
    hide Good, Step, InTime;
    GoodValid(w, second);
    StepKeeps(w, e, second);
    assert ([e] + rest)[1..] == rest;
  }

  lemma AloneListed(w: World, n: nat, second: tickRate)
    requires Alone(w, n, second)
    ensures Good(w, second) && w.state.list == [0]
  {
  }

  /** A request to a server that keeps silent: this run exists, and the waits are exact. */
  lemma SilentServer(w: World, mid: nat, random: nat, second: tickRate)
    requires Initial(w)
    ensures Good(w, second) && Free(w.state.used, 0) == 0
    ensures var w0 := Step(w, Open(mid, true, random), second);
            && Good(w0, second) && |w0.state.slots| == MAX_OPEN
            && var events := Silence(w0.state.slots[0].first, 0);
            && StaysOpen(w0, 0, events, second) && Punctual(w0, 0, events, second)
            && var v := Run(w0, events, second);
            && Valid(v.state) && 0 !in Check(v.state, v.now, second).list
            && v.now == w.now + 15 * FirstInterval(second, random)
  {
    hide FirstInterval, Check, StaysOpen, Punctual, Run, Silence, InBounds;
    StepKeeps(w, Open(mid, true, random), second);
    var w0 := Step(w, Open(mid, true, random), second);
    assert Alone(w0, 0, second);
    SilenceRun(w0, 0, second);
    UnansweredScheduleIff(w, mid, random, Silence(w0.state.slots[0].first, 0), second);
  }

  // ----- in place -------------------------------------------------------------------------------

  lemma WithoutAt(l: seq<nat>, x: nat, k: nat)
    requires k < |l| && l[k] == x && x !in l[..k]
    ensures Without(l, x) == l[..k] + l[k + 1..]
  {
    if k > 0 {
      assert l[1..][..k - 1] == l[..k][1..];
      assert l[0] in l[..k];
      WithoutAt(l[1..], x, k - 1);
      assert l[1..][..k - 1] + l[1..][k..] == l[1..k] + l[k + 1..];
    }
  }

  class Transactions {
    const slots: array<Transaction>
    const count: array<bool>
    var list: seq<nat>

    ghost function Contents(): State
      reads this, slots, count
    {
      State(slots[..], count[..], list)
    }

    ghost predicate Consistent()
      reads this, slots, count
    {
      Valid(Contents())
    }

    constructor ()
      ensures Consistent() && fresh(slots) && fresh(count) && Initial(World(Contents(), 0))
    {
      slots := new Transaction[MAX_OPEN](_ => Transaction(0, false, 0, 0, 0, false, 0, []));
      count := new bool[MAX_OPEN](_ => false);
      list := [];
      new;
      assert count[..] == [false, false, false, false];
    }

    /** memb_alloc. */
    method MembAlloc() returns (i: nat)
      requires count.Length == MAX_OPEN
      modifies count
      ensures i == Free(old(count[..]), 0)
      ensures count[..] == if i < MAX_OPEN then old(count[..])[i := true] else old(count[..])
    {
      i := 0;
      while i < MAX_OPEN
        invariant i <= MAX_OPEN && count[..] == old(count[..])
        invariant Free(count[..], 0) == Free(count[..], i)
      {
        if !count[i] {
          count[i] := true;
          return;
        }
        i := i + 1;
      }
    }

    /** list_remove. */
    method ListRemove(x: nat)
      modifies this`list
      ensures list == Without(old(list), x)
    {
      var k := 0;
      while k < |list|
        invariant k <= |list| && list == old(list) && x !in list[..k]
      {
        if list[k] == x {
          WithoutAt(list, x, k);
          list := list[..k] + list[k + 1..];
          return;
        }
        k := k + 1;
      }
      assert list[..k] == list;
    }

    /** coap_new_transaction, and the type of the packet that the caller writes into it. */
    method NewTransaction(mid: nat, confirmable: bool) returns (i: nat)
      requires Consistent()
      modifies this, slots, count
      ensures (Contents(), i) == New(old(Contents()), mid, confirmable) && Consistent()
    {
      hide Without;
      NewKeepsValid(Contents(), mid, confirmable);
      i := MembAlloc();
      if i < MAX_OPEN {
        slots[i] := slots[i].(mid := mid, counter := 0, times := [], confirmable := confirmable);
        ListRemove(i);
        list := list + [i];
      }
    }

    /** coap_clear_transaction. */
    method ClearTransaction(i: nat)
      requires Consistent() && i < MAX_OPEN
      modifies this, slots, count
      ensures Contents() == Clear(old(Contents()), i) && Consistent()
    {
      ClearKeepsValid(Contents(), i);
      slots[i] := slots[i].(running := false);
      ListRemove(i);
      count[i] := false;
    }

    /** coap_send_transaction. */
    method SendTransaction(i: nat, now: nat, second: tickRate, random: nat)
      requires Consistent() && i < MAX_OPEN
      modifies this, slots, count
      ensures Contents() == Send(old(Contents()), i, now, second, random) && Consistent()
    {
      hide Without, FirstInterval, Distinct;
      SendKeepsValid(Contents(), i, now, second, random);
      ghost var s0 := Contents();
      slots[i] := slots[i].(times := slots[i].times + [now]);
      if slots[i].confirmable {
        if slots[i].counter < MAX_RETRANSMIT {
          if slots[i].counter == 0 {
            var interval := FirstInterval(second, random);
            slots[i] := slots[i].(interval := interval, first := interval);
          } else {
            slots[i] := slots[i].(interval := slots[i].interval * 2 % TICK_WRAP);
          }
          slots[i] := slots[i].(start := now, running := true);
          assert slots[..] == s0.slots[i := Restarted(s0.slots[i], now, second, random)];
          return;
        }
      }
      assert slots[..] == s0.slots[i := s0.slots[i].(times := s0.slots[i].times + [now])];
      ClearTransaction(i);
    }

    /** coap_get_transaction_by_mid. */
    method GetByMid(mid: nat) returns (i: nat)
      requires Consistent()
      ensures i == Find(Contents(), mid, 0)
    {
      var k := 0;
      while k < |list|
        invariant k <= |list| && Find(Contents(), mid, 0) == Find(Contents(), mid, k)
      {
        if slots[list[k]].mid == mid {
          return list[k];
        }
        k := k + 1;
      }
      i := MAX_OPEN;
    }

    /** coap_check_transactions. */
    method CheckTransactions(now: nat, second: tickRate)
      requires Consistent()
      modifies this, slots, count
      ensures Contents() == Check(old(Contents()), now, second) && Consistent()
    {
      hide Send, CheckFrom, Distinct;
      ghost var s0 := Contents();
      CheckKeepsValid(s0, 0, now, second);
      var k := 0;
      while k < |list|
        invariant Consistent() && k <= |list| && CheckFrom(Contents(), k, now, second) == Check(s0, now, second)
        decreases |list| - k
      {
        var i := list[k];
        CheckUnfold(Contents(), k, now, second);
        if !slots[i].running {
          AgainFacts(Contents(), i, now, second);
          ghost var s := Contents();
          slots[i] := slots[i].(counter := slots[i].counter + 1);
          assert Contents() == s.(slots := s.slots[i := s.slots[i].(counter := s.slots[i].counter + 1)]);
          SendTransaction(i, now, second, 0);
          if i !in list {
            // list_remove has cleared the link to the next transaction
            return;
          }
        }
        k := k + 1;
      }
      CheckDone(Contents(), k, now, second);
    }
  }
}
