/**
  Message ids over whole runs (apps/er-coap/er-coap-transactions.c; section 4.4 of RFC 7252):
  which transaction a response closes.

  A ledger notes every opening with its message id and strikes out what is no longer open.
  `ResponseClosesFirst` says that in every run a response closes the first open entry of the
  ledger with its id, and nothing else.
 */
module CoapLedger {
  import opened CoapTransactions

  /** An open transaction, and the message id that it was opened with. */
  datatype Entry = Entry(slot: nat, mid: nat)

  /** The entries whose slots are still open. */
  function Kept(l: seq<Entry>, open: seq<nat>): seq<Entry> {
    if l == [] then [] else (if l[0].slot in open then [l[0]] else []) + Kept(l[1..], open)
  }

  function KeptIds(l: seq<nat>, open: seq<nat>): seq<nat> {
    if l == [] then [] else (if l[0] in open then [l[0]] else []) + KeptIds(l[1..], open)
  }

  /** The ledger after an event: what stays open, and what the event has opened. */
  function Note(l: seq<Entry>, w: World, e: Event, second: tickRate): seq<Entry>
    requires Valid(w.state)
  {
    var open, i := Step(w, e, second).state.list, Free(w.state.used, 0);
    Kept(l, open) + if e.Open? && i in open && i !in w.state.list then [Entry(i, e.mid)] else []
  }

  function History(l: seq<Entry>, w: World, events: seq<Event>, second: tickRate): seq<Entry>
    requires Good(w, second)
    decreases events
  {
    if events == [] then l
    else
      GoodValid(w, second);
      StepKeeps(w, events[0], second);
      History(Note(l, w, events[0], second), Step(w, events[0], second), events[1..], second)
  }

  /** The list holds the slots of the ledger in its order, with the ids that were noted. */
  predicate Matches(l: seq<Entry>, s: State) {
    && |l| == |s.list|
    && forall k :: 0 <= k < |l| ==> l[k].slot == s.list[k] < |s.slots| && s.slots[s.list[k]].mid == l[k].mid
  }

  // ----- the order of the list -----------------------------------------------------------------

  lemma {:induction false} KeptAll(l: seq<nat>, open: seq<nat>)
    requires forall x <- l :: x in open
    ensures KeptIds(l, open) == l
    decreases l
  {
    if l != [] {
      KeptAll(l[1..], open);
    }
  }

  /** Removing one element keeps the others in their order. */
  lemma {:induction false} KeptWithout(l: seq<nat>, x: nat, open: seq<nat>)
    requires Distinct(l) && x !in open && forall y <- l :: y != x ==> y in open
    ensures KeptIds(l, open) == Without(l, x)
    decreases l
  {
    if l != [] {
      if l[0] == x {
        assert x !in l[1..];
        KeptAll(l[1..], open);
      } else {
        assert Distinct(l[1..]);
        KeptWithout(l[1..], x, open);
      }
    }
  }

  lemma KeptRemoved(s: State, x: nat)
    requires Valid(s) && x < MAX_OPEN
    ensures KeptIds(s.list, Without(s.list, x)) == Without(s.list, x)
  {
    WithoutDistinct(s.list, x);
    KeptWithout(s.list, x, Without(s.list, x));
  }

  /** A check closes nothing, or one transaction. */
  lemma {:induction false} CheckList(s: State, k: nat, now: nat, second: tickRate) returns (x: nat)
    requires Valid(s)
    ensures x < MAX_OPEN
    ensures var r := CheckFrom(s, k, now, second).list; r == s.list || r == Without(s.list, x)
    decreases |s.list| - k
  {
    hide Send, Valid, CheckFrom, Restarted;
    x := 0;
    if k < |s.list| {
      var i := s.list[k];
      ListedInRange(s, k);
      CheckUnfold(s, k, now, second);
      if !Expired(s, i) {
        x := CheckList(s, k + 1, now, second);
      } else {
        AgainFacts(s, i, now, second);
        var r := Again(s, i, now, second);
        if i in r.list {
          x := CheckList(r, k + 1, now, second);
        } else {
          x := i;
          AgainList(s, i, now, second);
        }
      }
    } else {
      CheckDone(s, k, now, second);
    }
  }

  lemma AgainList(s: State, i: nat, now: nat, second: tickRate)
    requires Valid(s) && i in s.list && i < MAX_OPEN
    ensures |s.slots| == |s.used| == MAX_OPEN
    ensures i !in Again(s, i, now, second).list ==> Again(s, i, now, second).list == Without(s.list, i)
  {
    hide Without;
    var t := s.(slots := s.slots[i := s.slots[i].(counter := s.slots[i].counter + 1)]);
    SendKeepsValid(t, i, now, second, 0);
  }

  /** After an event the list holds what was listed and stays open, in its order, and behind it
      what the event has opened. */
  lemma StepList(w: World, e: Event, second: tickRate)
    requires Good(w, second) && Valid(w.state)
    ensures var open, i := Step(w, e, second).state.list, Free(w.state.used, 0);
            open == KeptIds(w.state.list, open) + if e.Open? && i in open && i !in w.state.list then [i] else []
  {
    hide Good, CheckFrom, New, Send, Clear, Without, Live;
    var open := Step(w, e, second).state.list;
    match e {
      case Open(mid, confirmable, random) => OpenList(w, mid, confirmable, random, second);
      case TimerEvent => {
        var x := CheckList(w.state, 0, w.now, second);
        if open == w.state.list {
          KeptAll(open, open);
        } else {
          KeptRemoved(w.state, x);
        }
      }
      case Response(mid) => {
        var x := Find(w.state, mid, 0);
        if x == MAX_OPEN {
          KeptAll(open, open);
        } else {
          ClearList(w.state, x);
        }
      }
      case Close(x) => {
        if x in w.state.list {
          AgainInRange(w.state, x);
          ClearList(w.state, x);
        } else {
          KeptAll(open, open);
        }
      }
      case _ => KeptAll(open, open);
    }
  }

  lemma ClearList(s: State, x: nat)
    requires Valid(s) && x < MAX_OPEN
    ensures |s.slots| == |s.used| == MAX_OPEN
    ensures KeptIds(s.list, Clear(s, x).list) == Clear(s, x).list
  {
    KeptRemoved(s, x);
  }

  lemma OpenList(w: World, mid: nat, confirmable: bool, random: nat, second: tickRate)
    requires Valid(w.state)
    ensures var open := Step(w, Open(mid, confirmable, random), second).state.list;
            var i := Free(w.state.used, 0);
            open == KeptIds(w.state.list, open) + if i in open && i !in w.state.list then [i] else []
  {
    hide New, Send, Without, Valid;
    var s := w.state;
    var open := Step(w, Open(mid, confirmable, random), second).state.list;
    NewKeepsValid(s, mid, confirmable);
    var (r, i) := New(s, mid, confirmable);
    assert i == Free(s.used, 0) by { NewSlot(s, mid, confirmable); }
    if i == MAX_OPEN {
      KeptAll(open, open);
      FullListed(s);
    } else {
      SendKeepsValid(r, i, w.now, second, random);
      if open == r.list {
        assert forall x <- s.list :: x in open;
        KeptAll(s.list, open);
      } else {
        WithoutLast(s.list, i);
        KeptAll(s.list, open);
      }
    }
  }

  lemma NewSlot(s: State, mid: nat, confirmable: bool)
    requires Valid(s)
    ensures New(s, mid, confirmable).1 == Free(s.used, 0)
  {
  }

  lemma FullListed(s: State)
    requires Valid(s)
    ensures MAX_OPEN !in s.list
  {
  }

  lemma {:induction false} WithoutLast(l: seq<nat>, x: nat)
    requires x !in l
    ensures Without(l + [x], x) == l
    decreases l
  {
    if l != [] {
      assert (l + [x])[1..] == l[1..] + [x];
      WithoutLast(l[1..], x);
    }
  }

  // ----- the ledger agrees with the pool ---------------------------------------------------------

  lemma {:induction false} KeptMatches(l: seq<Entry>, list: seq<nat>, open: seq<nat>)
    requires |l| == |list| && forall k :: 0 <= k < |l| ==> l[k].slot == list[k]
    ensures |Kept(l, open)| == |KeptIds(list, open)|
    ensures forall k :: 0 <= k < |Kept(l, open)| ==> Kept(l, open)[k].slot == KeptIds(list, open)[k]
    ensures forall n <- Kept(l, open) :: n in l && n.slot in open
    decreases l
  {
    if l != [] {
      KeptMatches(l[1..], list[1..], open);
    }
  }

  lemma NoteMatches(l: seq<Entry>, w: World, e: Event, second: tickRate)
    requires Good(w, second) && Valid(w.state) && Matches(l, w.state)
    ensures Matches(Note(l, w, e, second), Step(w, e, second).state)
  {
    hide Good, Step, Valid;
    var x := Step(w, e, second);
    var open, n := x.state.list, Note(l, w, e, second);
    StepList(w, e, second);
    KeptMatches(l, w.state.list, open);
    forall k | 0 <= k < |n|
      ensures open[k] < |x.state.slots| && x.state.slots[open[k]].mid == n[k].mid
    {
      assert open[k] in open;
      StepSlot(w, e, open[k], second);
      if k < |Kept(l, open)| {
        assert n[k] == Kept(l, open)[k] && n[k] in Kept(l, open);
        var j :| 0 <= j < |l| && l[j] == n[k];
        assert w.state.list[j] == open[k];
      }
    }
  }

  /** In every run the ledger agrees with list and pool. */
  lemma {:induction false} HistoryMatches(l: seq<Entry>, w: World, events: seq<Event>, second: tickRate)
    requires Good(w, second) && Matches(l, w.state)
    ensures Matches(History(l, w, events, second), Run(w, events, second).state)
    decreases events
  {
    hide Good, Step, Matches, Note;
    if events != [] {
      GoodValid(w, second);
      StepKeeps(w, events[0], second);
      NoteMatches(l, w, events[0], second);
      HistoryMatches(Note(l, w, events[0], second), Step(w, events[0], second), events[1..], second);
    }
  }

  /** `k` is the first entry with the id, or the length of the ledger. */
  predicate FirstEntry(l: seq<Entry>, mid: nat, k: nat) {
    && k <= |l| && (forall j :: 0 <= j < k ==> l[j].mid != mid)
    && (k < |l| ==> l[k].mid == mid)
  }

  /**
    In every run from the start, whatever has been opened, sent, checked, answered and closed in
    it: a response closes exactly the first open transaction that was opened with its message id,
    and changes nothing if there is none.
   */
  lemma ResponseClosesFirst(w: World, events: seq<Event>, mid: nat, k: nat, second: tickRate)
    requires Initial(w) && Good(w, second) && FirstEntry(History([], w, events, second), mid, k)
    ensures var l, v := History([], w, events, second), Run(w, events, second);
            && |l| == |v.state.list| && Valid(v.state)
            && var x := Step(v, Response(mid), second).state;
            if k == |l| then x == v.state
            else
              && x.list == v.state.list[..k] + v.state.list[k + 1..] && v.state.list[k] == l[k].slot
              && |x.slots| == |v.state.slots|
              && forall i :: 0 <= i < |x.slots| && i != l[k].slot ==> x.slots[i] == v.state.slots[i]
  {
    hide Good, Run, History, Without;
    HistoryMatches([], w, events, second);
    RunGood(w, events, second);
    var l, v := History([], w, events, second), Run(w, events, second);
    GoodValid(v, second);
    var j := FindExact(v.state, mid, 0);
    assert j == k;
    if k < |l| {
      NotBefore(v.state.list, k);
      WithoutAt(v.state.list, l[k].slot, k);
    }
  }

  lemma NotBefore(l: seq<nat>, k: nat)
    requires Distinct(l) && k < |l|
    ensures l[k] !in l[..k]
  {
  }

  /** A transaction that has just been opened is found by its id, if no open one has it. */
  lemma OpenedIsFound(s: State, mid: nat, confirmable: bool)
    requires Valid(s) && (forall k :: 0 <= k < |s.list| ==> s.list[k] < |s.slots| && s.slots[s.list[k]].mid != mid)
    requires New(s, mid, confirmable).1 < MAX_OPEN
    ensures var (r, i) := New(s, mid, confirmable);
            Valid(r) && Find(r, mid, 0) == i
  {
    hide New;
    NewKeepsValid(s, mid, confirmable);
    NewFacts(s, mid, confirmable);
    var (r, i) := New(s, mid, confirmable);
    var j := FindExact(r, mid, 0);
    forall k | 0 <= k < |s.list|
      ensures r.slots[r.list[k]].mid != mid
    {
      assert r.list[k] == s.list[k] && s.list[k] in s.list;
    }
    assert r.list[|s.list|] == i;
  }
}
