/** Which entry of the retransmission table an acknowledgement finds: entries keep the keys and numbers of
    their frames over any run. */
module ApsKeys {
  import opened Prelude
  import opened ApsFrames
  import opened ApsRetransmission

  /** Keys carry the counter of their frame, and no two entries are the same frame. */
  ghost predicate Numbered(s: State, c0: U8) {
    && s.counter == CounterAt(c0, s.sent)
    && (forall i :: 0 <= i < |s.slots| && s.slots[i].phase != Free ==>
          s.slots[i].number < s.sent && s.slots[i].key.counter == CounterAt(c0, s.slots[i].number))
    && OwnNumbers(s.slots)
  }

  /** Two entries that are the same frame. */
  predicate SameFrame(slots: seq<Slot>, i: nat, j: nat) {
    i < j < |slots| && slots[i].phase != Free && slots[j].phase != Free && slots[i].number == slots[j].number
  }

  ghost predicate OwnNumbers(slots: seq<Slot>) {
    forall i, j :: !SameFrame(slots, i, j)
  }

  /** Entries that come or stay with their numbers stay different frames. */
  lemma NumbersStayOwn(before: seq<Slot>, after: seq<Slot>)
    requires OwnNumbers(before) && |after| == |before|
    requires forall i :: 0 <= i < |after| && after[i].phase != Free ==>
      before[i].phase != Free && before[i].number == after[i].number
    ensures OwnNumbers(after)
  {
    forall i, j ensures !SameFrame(after, i, j) {
      assert !SameFrame(before, i, j);
    }
  }

  lemma NewNumberIsOwn(before: seq<Slot>, i: nat, x: Slot)
    requires OwnNumbers(before) && i < |before|
    requires forall j :: 0 <= j < |before| && before[j].phase != Free ==> before[j].number != x.number
    ensures OwnNumbers(before[i := x])
  {
    var after := before[i := x];
    forall j, k ensures !SameFrame(after, j, k) {
      assert !SameFrame(before, j, k);
    }
  }

  /** Nothing but sending fills a slot or touches its key. */
  ghost predicate KeysStay(s: State, t: State) {
    && t.sent == s.sent && t.counter == s.counter && |t.slots| == |s.slots|
    && forall i :: 0 <= i < |t.slots| && t.slots[i].phase != Free ==>
         s.slots[i].phase != Free && t.slots[i].key == s.slots[i].key && t.slots[i].number == s.slots[i].number
  }

  lemma ConfirmKeepsKeys(s: State, buf: U8)
    requires Inv(s) && buf in s.nwk
    ensures KeysStay(s, Confirm(s, buf))
  {
    ConfirmFindsSlot(s, buf);
    var i := FindBuf(s.slots, buf, 0);
    OneSlotKeepsKeys(s, Confirm(s, buf), i, Confirm(s, buf).slots[i]);
  }

  lemma OneSlotKeepsKeys(s: State, t: State, i: nat, x: Slot)
    requires i < |s.slots| && t.slots == s.slots[i := x] && t.sent == s.sent && t.counter == s.counter
    requires x.phase == Free || (s.slots[i].phase != Free && x.key == s.slots[i].key && x.number == s.slots[i].number)
    ensures KeysStay(s, t)
  {
  }

  lemma AckKeepsKeys(s: State, a: Header)
    ensures KeysStay(s, Ack(s, a))
  {
    var i := FindAck(s.slots, a, 0);
    if i < |s.slots| {
      var t := Ack(s, a);
      assert t.slots[i].key == s.slots[i].key || t.slots[i].phase == Free;
      assert forall j :: 0 <= j < |s.slots| && j != i ==> t.slots[j] == s.slots[j];
    }
  }

  lemma TimerKeepsKeys(s: State, i: nat)
    requires i < |s.slots|
    ensures KeysStay(s, Timer(s, i))
  {
  }

  lemma SendKeepsNumbered(s: State, r: DataReq, buf: U8, c0: U8)
    requires |s.slots| == SLOTS && Numbered(s, c0)
    ensures Numbered(Send(s, r, buf), c0)
  {
    CountersDiffer(c0, s.sent, s.sent);
    var i, t := FirstFree(s.slots, 0), Send(s, r, buf);
    assert forall j :: 0 <= j < SLOTS && j != i ==> t.slots[j] == s.slots[j];
    if i < SLOTS {
      NewNumberIsOwn(s.slots, i, NewSlot(r, t.counter, buf, s.sent));
    }
  }

  lemma KeysKeepNumbered(s: State, t: State, c0: U8)
    requires Numbered(s, c0) && KeysStay(s, t)
    ensures Numbered(t, c0)
  {
    NumbersStayOwn(s.slots, t.slots);
  }

  lemma StepKeepsNumbered(s: State, op: Op, c0: U8)
    requires Inv(s) && Legal(s, op) && Numbered(s, c0)
    ensures Numbered(Step(s, op), c0)
  {
    match op
    case Request(r, buf) => SendKeepsNumbered(s, r, buf, c0);
    case OtherFrame => CountersDiffer(c0, s.sent, s.sent);
    case NwkConfirm(buf) =>
      ConfirmKeepsKeys(s, buf);
      KeysKeepNumbered(s, Step(s, op), c0);
    case AckFrameIn(a) =>
      AckKeepsKeys(s, a);
      KeysKeepNumbered(s, Step(s, op), c0);
    case Alarm(i) =>
      TimerKeepsKeys(s, i);
      KeysKeepNumbered(s, Step(s, op), c0);
  }

  lemma {:induction false} RunKeepsNumbered(s: State, ops: seq<Op>, c0: U8)
    requires Inv(s) && LegalRun(s, ops) && Numbered(s, c0)
    ensures Numbered(Run(s, ops), c0)
    decreases |ops|
  {
    if ops != [] {
      StepKeepsInv(s, ops[0]);
      StepKeepsNumbered(s, ops[0], c0);
      RunKeepsNumbered(Step(s, ops[0]), ops[1..], c0);
    }
  }

  /** Slot i waits for the acknowledgement of a frame of this request, and the oldest entry is of one of the
      last 256 frames. */
  ghost predicate Awaits(s: State, i: nat, r: DataReq) {
    && i < |s.slots| && s.slots[i].phase != Free
    && s.slots[i].key == FrameKey(r.dst, s.slots[i].key.counter, r.cluster, r.srcEndpoint, r.dstEndpoint)
    && forall j :: 0 <= j < |s.slots| && s.slots[j].phase != Free ==> s.sent <= s.slots[j].number + 256
  }

  lemma AckFindsAwaiting(s: State, c0: U8, i: nat, r: DataReq, payload: seq<U8>, junk: Header, junk2: Header, src: U16)
    requires Inv(s) && Numbered(s, c0) && Unicast(r) && Awaits(s, i, r)
    ensures FindAck(s.slots, AckSeen(r, s.slots[i].key.counter, payload, junk, junk2, src), 0) == i
  {
    var a := AckSeen(r, s.slots[i].key.counter, payload, junk, junk2, src);
    forall j | 0 <= j < SLOTS ensures AckMatches(s.slots[j].key, a) <==> i == j {
      AckMatchesIff(r, s.slots[i].key.counter, payload, junk, junk2, src, s.slots[j].key);
      assert SlotOk(s.slots[j]);
      assert !SameFrame(s.slots, i, j) && !SameFrame(s.slots, j, i);
      if s.slots[j].phase != Free {
        CountersDiffer(c0, s.slots[i].number, s.slots[j].number);
      }
    }
  }

  /** End to end: after any run, while fewer than 256 frames were sent since the oldest entry, the
      acknowledgement the receiver builds for the frame in slot i is applied to slot i. */
  lemma AckFindsItsSlot(s0: State, ops: seq<Op>, c0: U8, i: nat, r: DataReq,
                        payload: seq<U8>, junk: Header, junk2: Header, src: U16)
    requires Inv(s0) && Numbered(s0, c0) && LegalRun(s0, ops) && Unicast(r)
    ensures var s := Run(s0, ops);
      Awaits(s, i, r) ==> FindAck(s.slots, AckSeen(r, s.slots[i].key.counter, payload, junk, junk2, src), 0) == i
  {
    RunKeepsInv(s0, ops);
    RunKeepsNumbered(s0, ops, c0);
    if Awaits(Run(s0, ops), i, r) {
      AckFindsAwaiting(Run(s0, ops), c0, i, r, payload, junk, junk2, src);
    }
  }

  /** What a send stores: the frame is with the network layer, under the key of its own acknowledgement,
      with all its tries and no repeat. The entries before the one it takes are in use, and all others
      stay. */
  lemma SendStoresKey(s: State, r: DataReq, buf: U8)
    requires |s.slots| == SLOTS && FirstFree(s.slots, 0) < SLOTS
    ensures var i, t := FirstFree(s.slots, 0), Send(s, r, buf);
      && s.slots[i].phase == Free && (forall j :: 0 <= j < i ==> s.slots[j].phase != Free)
      && t.slots == s.slots[i := Slot(
           Sent, FrameKey(r.dst, s.counter, r.cluster, r.srcEndpoint, r.dstEndpoint), buf, MAX_FRAMES, s.sent, 0)]
  {
    CountersDiffer(s.counter, 0, 0);
    assert CounterAt(s.counter, 0) == s.counter;
  }
}
