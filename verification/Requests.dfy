/**
  Sequence-matched requests and responses: every interleaving of the client's threads, the
  reader and a link that loses, duplicates, delays and reorders.
  */
module Requests {

  // ---------- Sequence numbers ----------

  const SEQ_SPACE := 65535

  /** The number the `k`th allocation gets, counting from zero: 1 .. 65535, then 1 again. */
  function SeqOf(k: nat): (q: int)
    ensures 1 <= q <= 0xFFFF
  {
    k % SEQ_SPACE + 1
  }

  /** Two allocations share a number exactly when they are a multiple of 65535 apart. */
  lemma SameSeq(i: nat, j: nat)
    requires i <= j
    ensures SeqOf(i) == SeqOf(j) <==> (j - i) % SEQ_SPACE == 0
    ensures SeqOf(i) == SeqOf(j) && j - i < SEQ_SPACE ==> i == j
  {
  }

  class SequenceCounter {
    var seqNo: int
    ghost var issued: nat

    ghost predicate Valid()
      reads this
    {
      seqNo == if issued == 0 then 0 else SeqOf(issued - 1)
    }

    constructor ()
      ensures Valid() && issued == 0
    {
      seqNo, issued := 0, 0;
    }

    /** Add one in sixteen bits, and skip zero. */
    method Next() returns (q: int)
      requires Valid()
      modifies this
      ensures Valid() && issued == old(issued) + 1
      ensures q == SeqOf(old(issued)) && q != 0
    {
      seqNo := (seqNo + 1) % 0x1_0000;
      if seqNo == 0 {
        seqNo := 1;
      }
      issued := issued + 1;
      return seqNo;
    }
  }

  // ---------- The system ----------

  datatype Kind = Queued | Inline | FireAndForget

  datatype Answer = NoAnswer | Got(answers: nat)

  /** How far a call has come; `Leaving` is decided but not yet out of the pending map. */
  datatype Phase = Numbered | Registered | Written | Leaving(result: Answer) | Done(result: Answer)

  /** What one allocation belongs to: the call, and its single-slot queue. */
  datatype Call = Call(kind: Kind, phase: Phase, slot: Answer)

  /** One handling of a frame, by the reader or by an inline request: a response whose slot was
      looked up, one that was delivered, or nothing any more. A response is known by the
      allocation it answers. */
  datatype Hand = Free | Found(response: nat, slot: nat) | Delivered(response: nat)

  /** Any number of frames may be in hand at once. */
  datatype System = System(calls: seq<Call>, pending: map<int, nat>, network: set<nat>, hands: seq<Hand>)

  const START := System([], map[], {}, [])

  datatype Action =
    | Allocate(kind: Kind)
    | Register(call: nat)
    | Write(call: nat)
    | WriteFails(call: nat)
    | Respond(call: nat)
    | Lose(response: nat)
    | Lookup(response: nat)
    | Put(hand: nat)
    | TakeInline(call: nat, hand: nat)
    | Release(hand: nat)
    | Get(call: nat)
    | TimeOut(call: nat)
    | Pop(call: nat)

  predicate Has(s: System, k: nat, kind: Kind, phase: Phase) {
    k < |s.calls| && s.calls[k].kind == kind && s.calls[k].phase == phase
  }

  function Move(s: System, k: nat, phase: Phase): System
    requires k < |s.calls|
  {
    s.(calls := s.calls[k := s.calls[k].(phase := phase)])
  }

  /** Which actions can happen in a state. */
  predicate Enabled(s: System, a: Action) {
    match a
    case Allocate(_) => true
    case Register(k) => Has(s, k, Queued, Numbered)
    case Write(k) => Has(s, k, Queued, Registered) || Has(s, k, Inline, Numbered) || Has(s, k, FireAndForget, Numbered)
    case WriteFails(k) =>
      Has(s, k, Queued, Registered) || Has(s, k, Inline, Numbered) || Has(s, k, FireAndForget, Numbered)
    case Respond(k) => k < |s.calls| && s.calls[k].phase != Numbered && s.calls[k].phase != Registered
    case Lose(r) => r in s.network
    case Lookup(r) => r in s.network
    case Put(h) => h < |s.hands| && s.hands[h].Found? && s.hands[h].slot < |s.calls|
    case TakeInline(k, h) =>
      Has(s, k, Inline, Written) && h < |s.hands| && s.hands[h].Delivered? && SeqOf(s.hands[h].response) == SeqOf(k)
    case Release(h) => h < |s.hands| && s.hands[h].Delivered?
    case Get(k) => Has(s, k, Queued, Written) && s.calls[k].slot.Got?
    case TimeOut(k) => Has(s, k, Queued, Written) || Has(s, k, Inline, Written)
    case Pop(k) => k < |s.calls| && s.calls[k].kind == Queued && s.calls[k].phase.Leaving?
  }

  /** What an action does. A response stays in the network when it is looked up, so that it
      may be delivered again; a full slot keeps what it has; `Pop` removes by number. */
  function Apply(s: System, a: Action): System
    requires Enabled(s, a)
  {
    match a
    case Allocate(kind) => s.(calls := s.calls + [Call(kind, Numbered, NoAnswer)])
    case Register(k) => Move(s, k, Registered).(pending := s.pending[SeqOf(k) := k])
    case Write(k) => Move(s, k, if s.calls[k].kind == FireAndForget then Done(NoAnswer) else Written)
    case WriteFails(k) => Move(s, k, if s.calls[k].kind == Queued then Leaving(NoAnswer) else Done(NoAnswer))
    case Respond(k) => s.(network := s.network + {k})
    case Lose(r) => s.(network := s.network - {r})
    case Lookup(r) =>
      s.(hands := s.hands + [if SeqOf(r) in s.pending then Found(r, s.pending[SeqOf(r)]) else Delivered(r)])
    case Put(h) =>
      var x := s.hands[h];
      var c := s.calls[x.slot];
      var kept := if c.slot.Got? then c.slot else Got(x.response);
      s.(calls := s.calls[x.slot := c.(slot := kept)], hands := s.hands[h := Delivered(x.response)])
    case TakeInline(k, h) => Move(s, k, Done(Got(s.hands[h].response))).(hands := s.hands[h := Free])
    case Release(h) => s.(hands := s.hands[h := Free])
    case Get(k) => Move(s, k, Leaving(s.calls[k].slot))
    case TimeOut(k) => Move(s, k, if s.calls[k].kind == Queued then Leaving(NoAnswer) else Done(NoAnswer))
    case Pop(k) => Move(s, k, Done(s.calls[k].phase.result)).(pending := s.pending - {SeqOf(k)})
  }

  /** A run: any actions that can happen, one after another. */
  predicate Steps(states: seq<System>, actions: seq<Action>) {
    |states| == |actions| + 1
    && forall i :: 0 <= i < |actions| ==>
      Enabled(states[i], actions[i]) && states[i + 1] == Apply(states[i], actions[i])
  }

  predicate Run(states: seq<System>, actions: seq<Action>) {
    Steps(states, actions) && states[0] == START
  }

  // ---------- What every run keeps ----------

  predicate Active(c: Call) {
    c.kind == Queued && (c.phase.Registered? || c.phase.Written? || c.phase.Leaving?)
  }

  /** Every pending entry belongs to a call that is still under way and has that number; what
      the link carries answers calls that exist. */
  predicate Inv(s: System) {
    (forall q :: q in s.pending ==>
      s.pending[q] < |s.calls| && SeqOf(s.pending[q]) == q && Active(s.calls[s.pending[q]]))
    && (forall r :: r in s.network ==> r < |s.calls|)
    && forall h :: 0 <= h < |s.hands| ==> HandInv(s, s.hands[h])
  }

  predicate HandInv(s: System, x: Hand) {
    (!x.Free? ==> x.response < |s.calls|)
    && (x.Found? ==> x.slot < |s.calls| && SeqOf(x.slot) == SeqOf(x.response) && s.calls[x.slot].kind == Queued)
  }

  lemma PopKeepsInv(s: System, k: nat)
    requires Inv(s) && Enabled(s, Pop(k))
    ensures Inv(Apply(s, Pop(k)))
  {
    var t := Apply(s, Pop(k));
    forall q | q in t.pending
      ensures t.pending[q] < |t.calls| && SeqOf(t.pending[q]) == q && Active(t.calls[t.pending[q]])
    {
      assert q in s.pending && s.pending[q] != k;
    }
  }

  lemma StepKeepsInv(s: System, a: Action)
    requires Inv(s) && Enabled(s, a)
    ensures Inv(Apply(s, a))
  {
    if a.Pop? {
      PopKeepsInv(s, a.call);
    }
  }

  /** No pending entry outlives its request: once a call is over, whatever else happens, no
      entry refers to it. */
  lemma {:induction false} RunKeepsInv(states: seq<System>, actions: seq<Action>, i: nat)
    requires Run(states, actions) && i < |states|
    ensures Inv(states[i])
  {
    if i > 0 {
      RunKeepsInv(states, actions, i - 1);
      StepKeepsInv(states[i - 1], actions[i - 1]);
    }
  }

  // ---------- Whose response ----------

  /** No answer anywhere that was made for another call. */
  predicate Right(s: System) {
    (forall k :: 0 <= k < |s.calls| ==> RightCall(s.calls[k], k))
    && forall h :: 0 <= h < |s.hands| && s.hands[h].Found? ==> s.hands[h].slot == s.hands[h].response
  }

  predicate RightCall(c: Call, k: nat) {
    (c.slot.Got? ==> c.slot.answers == k)
    && (c.phase.Leaving? || c.phase.Done? ==> c.phase.result.Got? ==> c.phase.result.answers == k)
  }

  /** Allocation `k` and now are fewer than 65535 allocations apart. */
  predicate Recent(s: System, k: nat) {
    |s.calls| - 1 - k < SEQ_SPACE
  }

  /** Every response on the link, and every one in hand, is recent. */
  predicate Young(s: System) {
    (forall r :: r in s.network ==> Recent(s, r))
    && forall h :: 0 <= h < |s.hands| && !s.hands[h].Free? ==> Recent(s, s.hands[h].response)
  }

  /** Every call that waits is recent. */
  predicate Patient(s: System) {
    forall k :: 0 <= k < |s.calls| && s.calls[k].kind != FireAndForget && !s.calls[k].phase.Done? ==> Recent(s, k)
  }

  /** Nothing on the link, and no call that waits, has seen 65535 allocations go by. */
  predicate Calm(s: System) {
    Young(s) && Patient(s)
  }

  lemma LookupRight(s: System, r: nat)
    requires Inv(s) && Calm(s) && r in s.network && SeqOf(r) in s.pending
    ensures s.pending[SeqOf(r)] == r
  {
    var j := s.pending[SeqOf(r)];
    if j <= r { SameSeq(j, r); } else { SameSeq(r, j); }
  }

  lemma InlineRight(s: System, k: nat, h: nat)
    requires Inv(s) && Calm(s) && Enabled(s, TakeInline(k, h))
    ensures s.hands[h].response == k
  {
    assert HandInv(s, s.hands[h]);
    var r := s.hands[h].response;
    if k <= r { SameSeq(k, r); } else { SameSeq(r, k); }
  }

  lemma StepKeepsRight(s: System, a: Action)
    requires Inv(s) && Calm(s) && Right(s) && Enabled(s, a)
    ensures Right(Apply(s, a))
  {
    if a.Lookup? && SeqOf(a.response) in s.pending {
      LookupRight(s, a.response);
    } else if a.TakeInline? {
      InlineRight(s, a.call, a.hand);
    }
  }

  /** Safety: over every run in which no response and no waiting call sees 65535 allocations
      go by, no call ever returns a response that was made for another. */
  lemma {:induction false} RunIsRight(states: seq<System>, actions: seq<Action>, i: nat)
    requires Run(states, actions) && i < |states| && forall j :: 0 <= j < i ==> Calm(states[j])
    ensures Right(states[i])
  {
    if i > 0 {
      RunKeepsInv(states, actions, i - 1);
      RunIsRight(states, actions, i - 1);
      StepKeepsRight(states[i - 1], actions[i - 1]);
    }
  }

  // ---------- Where answers come from ----------

  /** The first `i` actions of a run. */
  function Past(actions: seq<Action>, i: nat): set<Action>
    requires i <= |actions|
  {
    set j | 0 <= j < i :: actions[j]
  }

  /** The device sent response `r`, and its command had been written, if only in part. */
  predicate Answered(done: set<Action>, r: nat) {
    Respond(r) in done && (Write(r) in done || WriteFails(r) in done)
  }

  /** And it has the number of call `k`. */
  predicate AnswerFor(done: set<Action>, r: nat, k: nat) {
    Answered(done, r) && SeqOf(r) == SeqOf(k)
  }

  /** What is on the link, in hand, in a slot or returned was sent by the device, and a slot or a
      result has its call's number; a request without an answer timed out or was not written. */
  ghost predicate Sourced(s: System, done: set<Action>) {
    (forall r :: r in s.network ==> Answered(done, r))
    && (forall h :: 0 <= h < |s.hands| && !s.hands[h].Free? ==> Answered(done, s.hands[h].response))
    && forall k :: 0 <= k < |s.calls| ==> SourcedCall(s.calls[k], k, done)
  }

  predicate SourcedCall(c: Call, k: nat, done: set<Action>) {
    (c.slot.Got? ==> AnswerFor(done, c.slot.answers, k))
    && (c.phase.Numbered? || c.phase.Registered? || Write(k) in done || WriteFails(k) in done)
    && (c.phase.Leaving? || c.phase.Done? ==> SourcedResult(c, k, done))
  }

  predicate SourcedResult(c: Call, k: nat, done: set<Action>)
    requires c.phase.Leaving? || c.phase.Done?
  {
    match c.phase.result
    case Got(r) => AnswerFor(done, r, k)
    case NoAnswer => c.kind == FireAndForget || TimeOut(k) in done || WriteFails(k) in done
  }

  lemma StepKeepsSourced(s: System, a: Action, done: set<Action>)
    requires Inv(s) && Sourced(s, done) && Enabled(s, a)
    ensures Sourced(Apply(s, a), done + {a})
  {
    var t := Apply(s, a);
    forall k | 0 <= k < |t.calls| ensures SourcedCall(t.calls[k], k, done + {a}) {
      if k < |s.calls| {
        assert SourcedCall(s.calls[k], k, done);
      }
      if a.Put? {
        assert HandInv(s, s.hands[a.hand]);
      }
    }
    if a.Respond? {
      assert SourcedCall(s.calls[a.call], a.call, done);
    }
  }

  /** In every interleaving: whatever a request returns is a response the device sent, with that
      request's number; and a request that returns without one timed out or was not written. */
  lemma {:induction false} AnswersAreSourced(states: seq<System>, actions: seq<Action>, i: nat)
    requires Run(states, actions) && i < |states|
    ensures Sourced(states[i], Past(actions, i))
  {
    if i > 0 {
      RunKeepsInv(states, actions, i - 1);
      AnswersAreSourced(states, actions, i - 1);
      StepKeepsSourced(states[i - 1], actions[i - 1], Past(actions, i - 1));
      assert Past(actions, i) == Past(actions, i - 1) + {actions[i - 1]};
    }
  }

  /** The first response put into a slot stays there, and a finished call stays as it is. */
  lemma {:induction false} FirstAnswerStays(states: seq<System>, actions: seq<Action>, i: nat, j: nat, k: nat)
    requires Steps(states, actions) && i <= j < |states| && k < |states[i].calls|
    ensures k < |states[j].calls| && states[j].calls[k].kind == states[i].calls[k].kind
    ensures states[i].calls[k].slot.Got? ==> states[j].calls[k].slot == states[i].calls[k].slot
    ensures states[i].calls[k].phase.Done? ==> states[j].calls[k].phase == states[i].calls[k].phase
  {
    if i < j {
      FirstAnswerStays(states, actions, i, j - 1, k);
    }
  }

  /** How far the handling of a frame has come. */
  function Handled(x: Hand): nat {
    match x
    case Found(_, _) => 0
    case Delivered(_) => 1
    case Free => 2
  }

  /** The frame an action handles. */
  predicate Handles(a: Action, h: nat) {
    (a.Put? || a.TakeInline? || a.Release?) && a.hand == h
  }

  lemma {:induction false} HandlingGoesOn(states: seq<System>, actions: seq<Action>, i: nat, j: nat, h: nat)
    requires Steps(states, actions) && i <= j < |states| && h < |states[i].hands|
    ensures h < |states[j].hands| && Handled(states[i].hands[h]) <= Handled(states[j].hands[h])
  {
    if i < j {
      HandlingGoesOn(states, actions, i, j - 1, h);
    }
  }

  /** A frame is put into a slot at most once, and taken by an inline request or let go at most
      once, so that no two requests take the same frame out of the reader's hand. */
  lemma HandledOnce(states: seq<System>, actions: seq<Action>, i: nat, j: nat, h: nat)
    requires Steps(states, actions) && i < j < |actions| && Handles(actions[i], h) && Handles(actions[j], h)
    ensures actions[i].Put? && !actions[j].Put?
  {
    assert Handled(states[i + 1].hands[h]) == Handled(states[i].hands[h]) + 1;
    HandlingGoesOn(states, actions, i + 1, j, h);
  }

  // ---------- The bound is exact ----------

  function Last(states: seq<System>): System
    requires states != []
  {
    states[|states| - 1]
  }

  /** One run continued by another. */
  lemma Joined(xs: seq<System>, a: seq<Action>, ys: seq<System>, b: seq<Action>)
    requires Steps(xs, a) && Steps(ys, b) && Last(xs) == ys[0]
    ensures Steps(xs + ys[1..], a + b) && (xs + ys[1..])[0] == xs[0] && Last(xs + ys[1..]) == Last(ys)
  {
    var zs, c := xs + ys[1..], a + b;
    forall i | 0 <= i < |c|
      ensures Enabled(zs[i], c[i]) && zs[i + 1] == Apply(zs[i], c[i])
    {
      if i >= |a| {
        assert zs[i] == ys[i - |a|] && c[i] == b[i - |a|] && zs[i + 1] == ys[i - |a| + 1];
      }
    }
  }

  /** All states of a run have a property, and then those of its continuation. */
  lemma JoinedYoung(xs: seq<System>, ys: seq<System>)
    requires xs != [] && ys != [] && (forall i :: 0 <= i < |xs| ==> Young(xs[i]))
    requires forall i :: 0 <= i < |ys| ==> Young(ys[i])
    ensures forall i :: 0 <= i < |xs + ys[1..]| ==> Young((xs + ys[1..])[i])
  {
  }

  lemma JoinedPatient(xs: seq<System>, ys: seq<System>)
    requires xs != [] && ys != [] && (forall i :: 0 <= i < |xs| ==> Patient(xs[i]))
    requires forall i :: 0 <= i < |ys| ==> Patient(ys[i])
    ensures forall i :: 0 <= i < |xs + ys[1..]| ==> Patient((xs + ys[1..])[i])
  {
  }

  /** `t` is `s` with later calls, none of which waits. */
  predicate Grown(s: System, t: System) {
    t == s.(calls := t.calls) && |t.calls| >= |s.calls| && t.calls[..|s.calls|] == s.calls
    && forall k :: |s.calls| <= k < |t.calls| ==> t.calls[k].kind == FireAndForget
  }

  /** Numbers can be used up without anything else changing. */
  lemma {:induction false} UseUp(s: System, n: nat) returns (states: seq<System>, actions: seq<Action>)
    ensures Steps(states, actions) && states[0] == s && |Last(states).calls| == |s.calls| + n
    ensures forall i :: 0 <= i < |states| ==> Grown(s, states[i]) && |states[i].calls| <= |s.calls| + n
  {
    if n == 0 {
      states, actions := [s], [];
    } else {
      var xs, a := UseUp(s, n - 1);
      var t := Last(xs);
      var u := Apply(t, Allocate(FireAndForget));
      OneMoreGrown(s, t, u);
      Joined(xs, a, [t, u], [Allocate(FireAndForget)]);
      states, actions := xs + [t, u][1..], a + [Allocate(FireAndForget)];
    }
  }

  lemma OneMoreGrown(s: System, t: System, u: System)
    requires Grown(s, t) && u == Apply(t, Allocate(FireAndForget))
    ensures Grown(s, u) && |u.calls| == |t.calls| + 1
  {
    assert u.calls[..|s.calls|] == t.calls[..|s.calls|];
  }

  /** The first `n` calls are ones that do not wait. */
  predicate NoneWaits(s: System, n: nat) {
    n <= |s.calls| && forall k :: 0 <= k < n ==> s.calls[k].kind == FireAndForget
  }

  lemma OnlyLastWaits(s: System, k: nat)
    requires NoneWaits(s, k) && |s.calls| <= k + 1
    ensures Patient(s)
  {
  }

  /** A response goes to whoever is pending under its number. */
  lemma Delivery(s: System, r: nat, j: nat) returns (states: seq<System>, actions: seq<Action>)
    requires r in s.network && SeqOf(r) in s.pending && s.pending[SeqOf(r)] == j
    requires Has(s, j, Queued, Written) && s.calls[j].slot == NoAnswer
    ensures Steps(states, actions) && states[0] == s
    ensures Last(states).calls == s.calls[j := Call(Queued, Leaving(Got(r)), Got(r))]
    ensures forall i :: 0 <= i < |states| ==> Delivering(s, r, j, states[i])
  {
    var h := |s.hands|;
    var s1 := Apply(s, Lookup(r));
    var s2 := Apply(s1, Put(h));
    actions := [Lookup(r), Put(h), Get(j)];
    states := [s, s1, s2, Apply(s2, Get(j))];
  }

  /** On the way: the network, all calls but `j` and all other hands are as they were, and at
      most one more hand holds `r`. */
  predicate Delivering(s: System, r: nat, j: nat, t: System) {
    t.network == s.network && |t.calls| == |s.calls|
    && (t.hands == s.hands
        || (|t.hands| == |s.hands| + 1 && t.hands[..|s.hands|] == s.hands
            && !t.hands[|s.hands|].Free? && t.hands[|s.hands|].response == r))
    && forall k :: 0 <= k < |s.calls| && k != j ==> t.calls[k] == s.calls[k]
  }

  predicate Returned(s: System, k: nat, r: nat) {
    k < |s.calls| && s.calls[k].phase == Done(Got(r))
  }

  /** A response reaches the inline request that waits for its number, unless a queued request
      has that number too. */
  lemma InlineAnswered(s: System, k: nat, r: nat) returns (states: seq<System>, actions: seq<Action>)
    requires Has(s, k, Inline, Written) && r in s.network && SeqOf(r) == SeqOf(k) && SeqOf(k) !in s.pending
    ensures Steps(states, actions) && states[0] == s && Returned(Last(states), k, r)
  {
    var h := |s.hands|;
    var s1 := Apply(s, Lookup(r));
    actions := [Lookup(r), TakeInline(k, h)];
    states := [s, s1, Apply(s1, TakeInline(k, h))];
  }

  /** A response reaches the queued request that is pending under its number. */
  lemma QueuedAnswered(s: System, k: nat, r: nat) returns (states: seq<System>, actions: seq<Action>)
    requires Inv(s) && Has(s, k, Queued, Written) && s.calls[k].slot == NoAnswer
    requires r in s.network && SeqOf(r) == SeqOf(k) && SeqOf(k) in s.pending && s.pending[SeqOf(k)] == k
    ensures Steps(states, actions) && states[0] == s && Returned(Last(states), k, r)
    ensures SeqOf(k) !in Last(states).pending
  {
    var xs, a := Delivery(s, r, k);
    var t := Last(xs);
    var u := Apply(t, Pop(k));
    Joined(xs, a, [t, u], [Pop(k)]);
    states, actions := xs + [t, u][1..], a + [Pop(k)];
  }

  /** From every reachable state a new request, of either kind, can be written, answered and
      return the response that was made for it; an inline one unless its number is pending. */
  lemma NewRequestAnswered(s: System, kind: Kind) returns (states: seq<System>, actions: seq<Action>)
    requires Inv(s) && kind != FireAndForget && (kind == Inline ==> SeqOf(|s.calls|) !in s.pending)
    ensures Steps(states, actions) && states[0] == s
    ensures Returned(Last(states), |s.calls|, |s.calls|)
  {
    var k := |s.calls|;
    var xs, a := Issued(s, kind);
    var ys, b: seq<Action>;
    if kind == Queued {
      ys, b := QueuedAnswered(Last(xs), k, k);
    } else {
      ys, b := InlineAnswered(Last(xs), k, k);
    }
    Joined(xs, a, ys, b);
    states, actions := xs + ys[1..], a + b;
  }

  /** Only a queued request registers and leaves; a forgotten command is over once written. */
  predicate InPhase(c: Call) {
    match c.kind
    case Queued => true
    case Inline => c.phase.Numbered? || c.phase.Written? || c.phase.Done?
    case FireAndForget => c.phase.Numbered? || c.phase.Done?
  }

  lemma {:induction false} RunInPhase(states: seq<System>, actions: seq<Action>, i: nat, k: nat)
    requires Run(states, actions) && i < |states| && k < |states[i].calls|
    ensures InPhase(states[i].calls[k])
  {
    if i > 0 && k < |states[i - 1].calls| {
      RunInPhase(states, actions, i - 1, k);
    }
  }

  /** No call is ever stuck: whatever has happened, it can be over in at most three steps of its
      own, without a response. */
  lemma {:induction false} CanFinish(s: System, k: nat) returns (states: seq<System>, actions: seq<Action>)
    requires k < |s.calls| && InPhase(s.calls[k])
    ensures Steps(states, actions) && states[0] == s && |actions| <= 3
    ensures k < |Last(states).calls| && Last(states).calls[k].phase.Done?
  {
    if s.calls[k].phase.Done? {
      states, actions := [s], [];
    } else {
      var a := match s.calls[k].phase
        case Numbered => if s.calls[k].kind == Queued then Register(k) else WriteFails(k)
        case Registered => WriteFails(k)
        case Written => TimeOut(k)
        case Leaving(_) => Pop(k);
      var t := Apply(s, a);
      states, actions := FinishFrom(t, k);
      Joined([s, t], [a], states, actions);
      states, actions := [s, t] + states[1..], [a] + actions;
    }
  }

  lemma FinishFrom(s: System, k: nat) returns (states: seq<System>, actions: seq<Action>)
    requires k < |s.calls| && (s.calls[k].phase.Done? || (s.calls[k].kind == Queued && !s.calls[k].phase.Numbered?))
    ensures Steps(states, actions) && states[0] == s && |actions| <= 2
    ensures k < |Last(states).calls| && Last(states).calls[k].phase.Done?
  {
    if s.calls[k].phase.Done? {
      states, actions := [s], [];
    } else if s.calls[k].phase.Leaving? {
      states, actions := [s, Apply(s, Pop(k))], [Pop(k)];
    } else {
      var a := if s.calls[k].phase.Registered? then WriteFails(k) else TimeOut(k);
      var t := Apply(s, a);
      states, actions := [s, t, Apply(t, Pop(k))], [a, Pop(k)];
    }
  }

  lemma Issued(s: System, kind: Kind) returns (states: seq<System>, actions: seq<Action>)
    requires Inv(s) && kind != FireAndForget
    ensures Steps(states, actions) && states[0] == s && Inv(Last(states))
    ensures var t, k := Last(states), |s.calls|;
            Has(t, k, kind, Written) && t.calls[k].slot == NoAnswer && k in t.network
            && t.pending == if kind == Queued then s.pending[SeqOf(k) := k] else s.pending
  {
    var k := |s.calls|;
    var s1 := Apply(s, Allocate(kind));
    var s2 := if kind == Queued then Apply(s1, Register(k)) else s1;
    var s3 := Apply(s2, Write(k));
    var s4 := Apply(s3, Respond(k));
    StepKeepsInv(s, Allocate(kind));
    if kind == Queued {
      StepKeepsInv(s1, Register(k));
      states, actions := [s, s1, s2, s3, s4], [Allocate(kind), Register(k), Write(k), Respond(k)];
    } else {
      states, actions := [s, s1, s3, s4], [Allocate(kind), Write(k), Respond(k)];
    }
    StepKeepsInv(s2, Write(k));
    StepKeepsInv(s3, Respond(k));
  }

  /** A state in which a response is as old as the next number: one more request, and it takes
      the stale response for its own. */
  lemma StaleResponseTaken(s: System, r: nat) returns (states: seq<System>, actions: seq<Action>)
    requires Inv(s) && r in s.network && |s.calls| == r + SEQ_SPACE
    ensures Steps(states, actions) && states[0] == s
    ensures var t, k := Last(states), |s.calls|;
            |t.calls| == k + 1 && t.calls[k].phase == Leaving(Got(r)) && r != k
    ensures forall i :: 0 <= i < |states| ==> KeepsCalls(s, states[i])
  {
    var k := |s.calls|;
    SameSeq(r, k);
    var s1 := Apply(s, Allocate(Queued));
    var s2 := Apply(s1, Register(k));
    var s3 := Apply(s2, Write(k));
    var first, a := [s, s1, s2, s3], [Allocate(Queued), Register(k), Write(k)];
    var rest, b := Delivery(s3, r, k);
    Joined(first, a, rest, b);
    states, actions := first + rest[1..], a + b;
  }

  /** The calls of `s` are still the first ones of `t`, and at most one was added. */
  predicate KeepsCalls(s: System, t: System) {
    |s.calls| <= |t.calls| <= |s.calls| + 1 && forall k :: 0 <= k < |s.calls| ==> t.calls[k] == s.calls[k]
  }

  lemma KeptPatient(s: System, xs: seq<System>)
    requires NoneWaits(s, |s.calls|) && forall i :: 0 <= i < |xs| ==> KeepsCalls(s, xs[i])
    ensures forall i :: 0 <= i < |xs| ==> Patient(xs[i])
  {
    forall i | 0 <= i < |xs| ensures Patient(xs[i]) {
      OnlyLastWaits(xs[i], |s.calls|);
    }
  }

  /** A fresh response is no protection either: a request that has waited through 65535
      allocations takes the answer to a command that was sent and forgotten. */
  lemma OldWaiterMisled(s: System, j: nat) returns (states: seq<System>, actions: seq<Action>)
    requires Inv(s) && |s.calls| == j + SEQ_SPACE
    requires SeqOf(j) in s.pending && s.pending[SeqOf(j)] == j
    requires s.calls[j].phase == Written && s.calls[j].slot == NoAnswer
    ensures Steps(states, actions) && states[0] == s
    ensures var t, k := Last(states), |s.calls|;
            |t.calls| == k + 1 && t.calls[j].phase == Leaving(Got(k)) && j != k
    ensures s.network == {} && s.hands == [] ==> forall i :: 0 <= i < |states| ==> Young(states[i])
  {
    var k := |s.calls|;
    SameSeq(j, k);
    var s1 := Apply(s, Allocate(FireAndForget));
    var s2 := Apply(s1, Write(k));
    var s3 := Apply(s2, Respond(k));
    var first, a := [s, s1, s2, s3], [Allocate(FireAndForget), Write(k), Respond(k)];
    var rest, b := Delivery(s3, k, j);
    Joined(first, a, rest, b);
    states, actions := first + rest[1..], a + b;
  }

  lemma GrownNoneWaits(s: System, t: System)
    requires Grown(s, t) && NoneWaits(s, |s.calls|)
    ensures NoneWaits(t, |t.calls|)
  {
    assert forall k :: 0 <= k < |s.calls| ==> t.calls[k] == t.calls[..|s.calls|][k];
  }

  lemma GrownPatient(s: System, xs: seq<System>)
    requires NoneWaits(s, |s.calls|) && forall i :: 0 <= i < |xs| ==> Grown(s, xs[i])
    ensures forall i :: 0 <= i < |xs| ==> Patient(xs[i])
  {
    forall i | 0 <= i < |xs| ensures Patient(xs[i]) {
      GrownNoneWaits(s, xs[i]);
    }
  }

  /** Neither half of the bound can be relaxed by one. Here is a run from the start in which
      every waiting call is recent at all times, one response meets the 65535th allocation after
      its own and no later one, and the wrong request returns it. */
  lemma StaleRun() returns (states: seq<System>, actions: seq<Action>)
    ensures Run(states, actions) && !Right(Last(states)) && |Last(states).calls| == SEQ_SPACE + 1
    ensures forall i :: 0 <= i < |states| ==> Patient(states[i])
  {
    var s1 := Apply(START, Allocate(FireAndForget));
    var s2 := Apply(s1, Write(0));
    var s3 := Apply(s2, Respond(0));
    var first, a := [START, s1, s2, s3], [Allocate(FireAndForget), Write(0), Respond(0)];
    var xs, b := UseUp(s3, SEQ_SPACE - 1);
    Joined(first, a, xs, b);
    GrownPatient(s3, xs);
    JoinedPatient(first, xs);
    var t := Last(xs);
    GrownNoneWaits(s3, t);
    var ys, c := StaleResponseTaken(t, 0);
    KeptPatient(t, ys);
    Joined(first + xs[1..], a + b, ys, c);
    JoinedPatient(first + xs[1..], ys);
    states, actions := first + xs[1..] + ys[1..], a + b + c;
    assert !RightCall(Last(states).calls[SEQ_SPACE], SEQ_SPACE);
  }

  /** And here is one in which every response is recent at all times, one request meets the
      65535th allocation after its own and no later one, and it returns the answer to another
      command. */
  lemma OldWaiterRun() returns (states: seq<System>, actions: seq<Action>)
    ensures Run(states, actions) && !Right(Last(states)) && |Last(states).calls| == SEQ_SPACE + 1
    ensures forall i :: 0 <= i < |states| ==> Young(states[i])
  {
    var s1 := Apply(START, Allocate(Queued));
    var s2 := Apply(s1, Register(0));
    var s3 := Apply(s2, Write(0));
    var first, a := [START, s1, s2, s3], [Allocate(Queued), Register(0), Write(0)];
    var xs, b := UseUp(s3, SEQ_SPACE - 1);
    Joined(first, a, xs, b);
    JoinedYoung(first, xs);
    var t := Last(xs);
    assert t.calls[..1][0] == t.calls[0];
    var ys, c := OldWaiterMisled(t, 0);
    Joined(first + xs[1..], a + b, ys, c);
    JoinedYoung(first + xs[1..], ys);
    states, actions := first + xs[1..] + ys[1..], a + b + c;
    assert !RightCall(Last(states).calls[0], 0);
  }
}
