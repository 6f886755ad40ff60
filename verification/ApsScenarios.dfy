/** Particular orders of events in the retransmission table: rounds of confirm and alarm, an acknowledgement
    before or after the network confirm, and the cases in which the code goes wrong. */
module ApsScenarios {
  import opened Prelude
  import opened ApsFrames
  import opened ApsRetransmission

  // ---------- Giving up ----------

  /** The network layer confirms the frame of slot i, and then its alarm runs. */
  function OneRound(s: State, i: nat): (t: State)
    requires i < |s.slots|
    ensures |t.slots| == |s.slots|
  {
    Timer(Confirm(s, s.slots[i].buf), i)
  }

  function Rounds(s: State, i: nat, k: nat): State
    requires i < |s.slots|
    decreases k
  {
    if k == 0 then s else Rounds(OneRound(s, i), i, k - 1)
  }

  /** In such rounds, without an acknowledgement, an entry is sent again at every alarm until its tries are
      used up, and then reported exactly once, as not acknowledged. */
  lemma {:induction false} GivesUpAfterRounds(s: State, i: nat, k: nat)
    requires Inv(s) && i < SLOTS && s.slots[i].phase == Sent && 1 <= k <= s.slots[i].retries
    ensures var t := Rounds(s, i, k);
      && Inv(t) && |t.slots| == SLOTS
      && (if k < s.slots[i].retries
          then t.slots[i].phase == Sent && t.slots[i].repeats == s.slots[i].repeats + k && t.log == s.log
          else t.slots[i].phase == Free && t.log == s.log + [Outcome(s.slots[i].number, s.slots[i].buf, NoAck, false)])
    decreases k
  {
    RoundStep(s, i);
    if k > 1 {
      GivesUpAfterRounds(OneRound(s, i), i, k - 1);
    }
  }

  lemma RoundStep(s: State, i: nat)
    requires Inv(s) && i < SLOTS && s.slots[i].phase == Sent && s.slots[i].retries > 0
    ensures var x, t := s.slots[i], OneRound(s, i);
      && Inv(t)
      && (if x.retries > 1
          then t.slots[i] == x.(retries := x.retries - 1, repeats := x.repeats + 1) && t.log == s.log
          else t.slots[i].phase == Free && t.log == s.log + [Outcome(x.number, x.buf, NoAck, false)])
  {
    var x := s.slots[i];
    CountUpdate(s.slots, i, Freed(x), WITH_NWK, x.buf);
    ConfirmKeepsInv(s, x.buf);
    ConfirmOfSent(s, i);
    var t := Confirm(s, x.buf);
    assert t.slots[i] == x.(phase := Confirmed) && t.log == s.log;
    AlarmOfConfirmed(t, i);
  }

  lemma AlarmOfConfirmed(t: State, i: nat)
    requires Inv(t) && i < SLOTS && t.slots[i].phase == Confirmed && t.slots[i].retries > 0
    ensures var x := t.slots[i]; var u := Timer(t, i);
      && Inv(u)
      && (if x.retries > 1
          then u.slots[i] == x.(phase := Sent, retries := x.retries - 1, repeats := x.repeats + 1) && u.log == t.log
          else u.slots[i].phase == Free && u.log == t.log + [Outcome(x.number, x.buf, NoAck, false)])
  {
    assert t.alarms[i] == 1;
    TimerKeepsInv(t, i);
    if t.slots[i].retries > 1 {
      TimerKeepsAlarm(t, i);
    } else {
      TimerGivesUp(t, i);
    }
  }

  lemma ConfirmOfSent(s: State, i: nat)
    requires Inv(s) && i < SLOTS && s.slots[i].phase == Sent && s.slots[i].buf in s.nwk
    ensures Confirm(s, s.slots[i].buf) ==
      s.(nwk := s.nwk - multiset{s.slots[i].buf}, slots := s.slots[i := s.slots[i].(phase := Confirmed)])
  {
    BufFindsSlot(s, i);
  }

  // ---------- Being acknowledged ----------

  /** The search looks at keys only. */
  lemma FindAckByKeys(s: seq<Slot>, t: seq<Slot>, a: Header)
    requires |s| == |t| && forall k :: 0 <= k < |s| ==> s[k].key == t[k].key
    ensures FindAck(s, a, 0) == FindAck(t, a, 0)
  {
    var i, j := FindAck(s, a, 0), FindAck(t, a, 0);
    assert i < |s| ==> s[i].key == t[i].key;
    assert j < |t| ==> s[j].key == t[j].key;
  }

  /** Acknowledged first, confirmed by the network layer later: reported once, as acknowledged. */
  lemma AckThenConfirm(s: State, i: nat, a: Header)
    requires Inv(s) && i < SLOTS && s.slots[i].phase == Sent && FindAck(s.slots, a, 0) == i
    ensures Confirm(Ack(s, a), s.slots[i].buf) ==
      Done(s.(nwk := s.nwk - multiset{s.slots[i].buf}), i, false, Acked)
  {
    var x, t := s.slots[i], Ack(s, a);
    FirstAckKeepsInv(s, i);
    BufFindsSlot(t, i);
    DoneFromAnyPhase(s.slots, i, t.slots[i]);
  }

  /** The other way round: the outcome then depends on the acknowledgement's own format. */
  lemma ConfirmThenAck(s: State, i: nat, a: Header)
    requires Inv(s) && i < SLOTS && s.slots[i].phase == Sent && FindAck(s.slots, a, 0) == i
    ensures Ack(Confirm(s, s.slots[i].buf), a) ==
      Done(s.(nwk := s.nwk - multiset{s.slots[i].buf}), i, AckFormat(a.fc) == 1, Acked)
  {
    var x := s.slots[i];
    CountUpdate(s.slots, i, Freed(x), WITH_NWK, x.buf);
    ConfirmOfSent(s, i);
    var t := Confirm(s, x.buf);
    FindAckByKeys(s.slots, t.slots, a);
    DoneFromAnyPhase(s.slots, i, t.slots[i]);
  }

  /** Exactly when it makes no difference which comes first: the acknowledgement has the full format.
      A short one, as for a command, frees the buffer in one order and confirms it in the other. */
  lemma AckAndConfirmCommuteIff(s: State, i: nat, a: Header)
    requires Inv(s) && i < SLOTS && s.slots[i].phase == Sent && FindAck(s.slots, a, 0) == i
    ensures var buf := s.slots[i].buf;
      Confirm(Ack(s, a), buf) == Ack(Confirm(s, buf), a) <==> AckFormat(a.fc) == 0
  {
    AckThenConfirm(s, i, a);
    ConfirmThenAck(s, i, a);
    var o, p := Outcome(s.slots[i].number, s.slots[i].buf, Acked, false), Outcome(s.slots[i].number, s.slots[i].buf, Acked, AckFormat(a.fc) == 1);
    assert (s.log + [o])[|s.log|] == o && (s.log + [p])[|s.log|] == p;
  }

  // ---------- Where the code departs from the invariant ----------

  /** k requests in a row, with buffers 0, 1, ... */
  function Fill(s: State, r: DataReq, k: nat): (t: State)
    requires |s.slots| == SLOTS && k <= SLOTS
    ensures |t.slots| == SLOTS
  {
    if k == 0 then s else Send(Fill(s, r, k - 1), r, k - 1)
  }

  lemma FirstFreeIs(slots: seq<Slot>, k: nat)
    requires k < |slots| && slots[k].phase == Free && forall j :: 0 <= j < k ==> slots[j].phase != Free
    ensures FirstFree(slots, 0) == k
  {
    var f := FirstFree(slots, 0);
    assert f < |slots| ==> slots[f].phase == Free;
  }

  /** The first k slots are taken by buffers 0, 1, ..., all but the last with an alarm. */
  ghost predicate FilledTo(t: State, k: nat, first: nat) {
    && |t.slots| == SLOTS && t.sent == first + k
    && (forall j :: 0 <= j < SLOTS ==> t.slots[j].phase == if j < k then Sent else Free)
    && (forall j :: 0 <= j < k && j < SLOTS ==> t.slots[j].buf == j)
    && (forall j: nat :: t.alarms[j] == if j < k && j < SLOTS - 1 then 1 else 0)
    && t.log == if k < SLOTS then [] else [Outcome(first + SLOTS - 1, SLOTS - 1, TableFull, false)]
  }

  lemma FillStep(t: State, r: DataReq, k: nat, first: nat)
    requires 0 < k <= SLOTS && FilledTo(t, k - 1, first)
    ensures FilledTo(Send(t, r, k - 1), k, first)
  {
    var u := Send(t, r, k - 1);
    FirstFreeIs(t.slots, k - 1);
    assert u.slots[k - 1].phase == Sent && u.slots[k - 1].buf == k - 1;
  }

  lemma {:induction false} FillTakesSlotsInOrder(s: State, r: DataReq, k: nat)
    requires FilledTo(s, 0, s.sent) && k <= SLOTS
    ensures FilledTo(Fill(s, r, k), k, s.sent)
  {
    if k > 0 {
      FillTakesSlotsInOrder(s, r, k - 1);
      FillStep(Fill(s, r, k - 1), r, k, s.sent);
    }
  }

  /** Starting empty, the request that takes the last slot is refused although it is kept there, without
      an alarm; and the next one is accepted and sent, although no slot remembers it. */
  lemma FullTestIsOneEarly(s: State, r: DataReq)
    requires Initial(s)
    ensures var t := Fill(s, r, SLOTS);
      t.log == [Outcome(s.sent + SLOTS - 1, SLOTS - 1, TableFull, false)] && t.slots[SLOTS - 1].buf == SLOTS - 1 && t.alarms[SLOTS - 1] == 0
    ensures var t := Fill(s, r, SLOTS); var u := Send(t, r, SLOTS);
      u.log == t.log && SLOTS in u.nwk && u.slots == t.slots && u.alarms[0] == 2
  {
    assert forall j: nat :: s.alarms[j] == 0;
    FillTakesSlotsInOrder(s, r, SLOTS);
  }

  /** Starting empty: a request acknowledged twice before the network layer confirms it is finished and
      its buffer confirmed to the application while the network layer holds it. */
  lemma SecondAckFinishesEarly(s: State, r: DataReq, buf: U8, a: Header)
    requires Initial(s) && AckMatches(SavedKey(r, NextCounter(s.counter)), a) && AckFormat(a.fc) == 0
    ensures var t := Ack(Ack(Send(s, r, buf), a), a);
      t.log == [Outcome(s.sent, buf, Acked, false)] && t.slots[0].phase == Free && buf in t.nwk
  {
    assert FirstFree(s.slots, 0) == 0;
    var t := Send(s, r, buf);
    assert FindAck(t.slots, a, 0) == 0;
    var u := Ack(t, a);
    assert FindAck(u.slots, a, 0) == 0;
  }

  /** Starting empty: with a short acknowledgement, as for a command, the buffer of the same frame is
      confirmed to the application if the network confirm comes last, and freed if it came first. */
  lemma ShortAckDependsOnOrder(s: State, r: DataReq, buf: U8, a: Header)
    requires Initial(s) && buf != NO_BUF
    requires AckMatches(SavedKey(r, NextCounter(s.counter)), a) && AckFormat(a.fc) == 1
    ensures var t := Send(s, r, buf);
      && Confirm(Ack(t, a), buf).log == [Outcome(s.sent, buf, Acked, false)]
      && Ack(Confirm(t, buf), a).log == [Outcome(s.sent, buf, Acked, true)]
  {
    FirstSend(s, r, buf);
    var t := Send(s, r, buf);
    assert FindAck(t.slots, a, 0) == 0;
    LogsByOrder(t, 0, a);
  }

  /** Starting empty: the first request takes slot 0. */
  lemma FirstSend(s: State, r: DataReq, buf: U8)
    requires Initial(s) && buf != NO_BUF
    ensures var t := Send(s, r, buf);
      Inv(t) && t.slots[0] == NewSlot(r, NextCounter(s.counter), buf, s.sent) && t.log == []
  {
    InitialInv(s);
    NothingHeld(s.slots, HELD, buf);
    assert FirstFree(s.slots, 0) == 0;
    SendWithRoom(s, r, buf);
  }

  lemma LogsByOrder(t: State, i: nat, a: Header)
    requires Inv(t) && i < SLOTS && t.slots[i].phase == Sent && FindAck(t.slots, a, 0) == i && t.log == []
    ensures var x := t.slots[i];
      && Confirm(Ack(t, a), x.buf).log == [Outcome(x.number, x.buf, Acked, false)]
      && Ack(Confirm(t, x.buf), a).log == [Outcome(x.number, x.buf, Acked, AckFormat(a.fc) == 1)]
  {
    AckThenConfirm(t, i, a);
    ConfirmThenAck(t, i, a);
  }
}
