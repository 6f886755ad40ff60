/** The transitions of the retransmission table, field by field. */
module ApsTransitions {
  import opened Prelude
  import opened ApsFrames
  import opened ApsRetransmission

  /** What a send does besides storing its key: the frame goes to the network layer under an alarm for its
      slot, or for slot 0 if it has none, unless it took the last slot; then the application is told at
      once. */
  lemma SendAsks(s: State, r: DataReq, buf: U8, i: nat)
    requires |s.slots| == SLOTS && i <= SLOTS && (i < SLOTS ==> s.slots[i].phase == Free)
    requires forall j :: 0 <= j < i ==> s.slots[j].phase != Free
    ensures var t := Send(s, r, buf);
      && t.counter == (s.counter + 1) % 256 && t.sent == s.sent + 1 && t.given == s.given + multiset{buf}
      && (i == SLOTS ==> t.slots == s.slots)
      && (if i == SLOTS - 1 then
            t.alarms == s.alarms && t.nwk == s.nwk && t.log == s.log + [Outcome(s.sent, buf, TableFull, false)]
          else
            t.alarms == s.alarms + multiset{if i < SLOTS then i else 0} && t.nwk == s.nwk + multiset{buf} && t.log == s.log)
  {
    assert FirstFree(s.slots, 0) == i;
  }

  /** Slot i is over and reported: it has no address and no buffer, and one alarm less. */
  ghost predicate Over(s: State, t: State, i: nat, status: Status, freed: bool) {
    && i < |s.slots| == |t.slots|
    && t.slots[i].phase == Free && t.slots[i].buf == 0xFF && t.slots[i].key.addr == 0xFFFF
    && (forall j :: 0 <= j < |s.slots| && j != i ==> t.slots[j] == s.slots[j])
    && t.alarms[i] == (if s.alarms[i] > 0 then s.alarms[i] - 1 else 0)
    && (forall j :: j != i ==> t.alarms[j] == s.alarms[j])
    && t.log == s.log + [Outcome(s.slots[i].number, s.slots[i].buf, status, freed)]
  }

  lemma DoneIsOver(s: State, i: nat, freed: bool, status: Status)
    requires i < |s.slots|
    ensures Over(s, Done(s, i, freed, status), i, status, freed)
  {
  }

  /** A network confirm: of a buffer no slot has, it is freed; of an acknowledged frame, the frame is over
      and confirmed to the application; of any other, it is confirmed by the network layer from then on. */
  lemma ConfirmDecides(s: State, buf: U8, i: nat)
    requires i <= |s.slots| && (i < |s.slots| ==> s.slots[i].buf == buf)
    requires forall j :: 0 <= j < i ==> s.slots[j].buf != buf
    ensures var t := Confirm(s, buf);
      && t.nwk == s.nwk - multiset{buf} && t.given == s.given && t.sent == s.sent && t.counter == s.counter
      && (if i == |s.slots| then t.slots == s.slots && t.alarms == s.alarms && t.log == s.log + [StrayFreed(buf)]
          else if s.slots[i].phase == SentAcked then Over(s, t, i, Acked, false)
          else t.slots == s.slots[i := s.slots[i].(phase := Confirmed)] && t.alarms == s.alarms && t.log == s.log)
  {
    assert FindBuf(s.slots, buf, 0) == i;
    if i < |s.slots| {
      DoneIsOver(s.(nwk := s.nwk - multiset{buf}), i, false, Acked);
    }
  }

  /** An acknowledgement: the first entry it matches is marked while the network layer has the frame, and over otherwise; only in
      the short format is the buffer freed at once. */
  lemma AckDecides(s: State, a: Header, i: nat)
    requires i <= |s.slots| && (i < |s.slots| ==> AckMatches(s.slots[i].key, a))
    requires forall j :: 0 <= j < i ==> !AckMatches(s.slots[j].key, a)
    ensures var t := Ack(s, a);
      if i == |s.slots| then t == s
      else
        && t.nwk == s.nwk && t.given == s.given && t.sent == s.sent && t.counter == s.counter
        && (if s.slots[i].phase == Sent then
              t.slots == s.slots[i := s.slots[i].(phase := SentAcked)] && t.alarms == s.alarms && t.log == s.log
            else Over(s, t, i, Acked, a.fc / 16 % 2 == 1))
  {
    assert FindAck(s.slots, a, 0) == i;
    if i < |s.slots| {
      DoneIsOver(s, i, a.fc / 16 % 2 == 1, Acked);
    }
  }
}
