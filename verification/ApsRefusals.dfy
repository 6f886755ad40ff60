/** Retransmission when the scheduler refuses what a transition asks for, which the source does not look at. */
module ApsRefusals {
  import opened Prelude
  import opened ApsFrames
  import opened ApsRetransmission

  /** Whether the alarm and the callback a transition asks for find room. */
  datatype Room = Room(alarm: bool, call: bool)

  /** Send, with what it asks for granted or refused: the alarm, and the callback that hands the frame
      over or reports the full table. */
  function SendIn(s: State, r: DataReq, buf: U8, room: Room): State
    requires |s.slots| == SLOTS
  {
    var t := Send(s, r, buf);
    if FirstFree(s.slots, 0) == SLOTS - 1 then t.(log := if room.call then t.log else s.log)
    else t.(alarms := if room.alarm then t.alarms else s.alarms, nwk := if room.call then t.nwk else s.nwk)
  }

  /** Freeing a buffer asks for nothing, confirming it to the application does. */
  function DoneIn(s: State, i: nat, freed: bool, status: Status, call: bool): State
    requires i < |s.slots|
  {
    var t := Done(s, i, freed, status);
    if freed || call then t else t.(log := s.log)
  }

  function ConfirmIn(s: State, buf: U8, call: bool): State {
    var i := FindBuf(s.slots, buf, 0);
    if i < |s.slots| && s.slots[i].phase == SentAcked && !call then Confirm(s, buf).(log := s.log) else Confirm(s, buf)
  }

  function AckIn(s: State, a: Header, call: bool): State {
    if AckFormat(a.fc) == 0 && !call then Ack(s, a).(log := s.log) else Ack(s, a)
  }

  function TimerIn(s: State, i: nat, room: Room): State
    requires i < |s.slots|
  {
    var x, t := Tick(s.slots[i]), Timer(s, i);
    if x.retries == 0 && x.phase == Confirmed then t.(log := if room.call then t.log else s.log)
    else t.(alarms := if room.alarm then t.alarms else s.alarms - multiset{i}, nwk := if room.call then t.nwk else s.nwk)
  }

  /** The slots and the buffers handed in leave no choice in the rest. */
  lemma SlotsDetermineRest(t: State, u: State, i: nat, b: U8)
    requires Inv(t) && Inv(u) && u.slots == t.slots && u.given == t.given
    ensures u.alarms[i] == t.alarms[i] && u.nwk[b] == t.nwk[b] && Returned(u.log, b) == Returned(t.log, b)
  {
    assert u.nwk[b] == Count(t.slots, WITH_NWK, b);
    assert u.given[b] == Returned(u.log, b) + Count(t.slots, HELD, b);
  }

  /** Exactly when a send that is due a slot keeps the invariant: both find room. */
  lemma SendRoomIff(s: State, r: DataReq, buf: U8, room: Room)
    requires Inv(s) && buf != NO_BUF && Count(s.slots, HELD, buf) == 0 && FirstFree(s.slots, 0) < SLOTS - 1
    ensures Inv(SendIn(s, r, buf, room)) <==> room.alarm && room.call
  {
    SendWithRoom(s, r, buf);
    if Inv(SendIn(s, r, buf, room)) {
      SlotsDetermineRest(Send(s, r, buf), SendIn(s, r, buf, room), FirstFree(s.slots, 0), buf);
    }
  }

  /** A buffer whose report finds no room is lost. */
  lemma UnreportedBreaksInv(t: State, before: seq<Outcome>, o: Outcome)
    requires Inv(t) && t.log == before + [o]
    ensures !Inv(t.(log := before))
  {
    ReturnedOne(before, o, o.buf);
    if Inv(t.(log := before)) {
      SlotsDetermineRest(t, t.(log := before), 0, o.buf);
    }
  }

  /** Exactly when a network confirm does: unless the frame is acknowledged already, nothing is asked for. */
  lemma ConfirmRoomIff(s: State, buf: U8, call: bool)
    requires Inv(s) && buf in s.nwk
    ensures var i := FindBuf(s.slots, buf, 0);
      i < SLOTS && (Inv(ConfirmIn(s, buf, call)) <==> call || s.slots[i].phase != SentAcked)
  {
    ConfirmKeepsInv(s, buf);
    ConfirmFindsSlot(s, buf);
    var i := FindBuf(s.slots, buf, 0);
    if s.slots[i].phase == SentAcked && !call {
      UnreportedBreaksInv(Confirm(s, buf), s.log, Outcome(s.slots[i].number, s.slots[i].buf, Acked, false));
    }
  }

  /** Exactly when an acknowledgement does. */
  lemma AckRoomIff(s: State, a: Header, call: bool)
    requires Inv(s) && Inv(Ack(s, a))
    ensures Inv(AckIn(s, a, call)) <==>
      var i := FindAck(s.slots, a, 0); call || AckFormat(a.fc) == 1 || i == SLOTS || s.slots[i].phase == Sent
  {
    AckKeepsInvIff(s, a);
    var i := FindAck(s.slots, a, 0);
    if i < SLOTS && s.slots[i].phase != Sent && AckFormat(a.fc) == 0 && !call {
      UnreportedBreaksInv(Ack(s, a), s.log, Outcome(s.slots[i].number, s.slots[i].buf, Acked, false));
    }
  }

  /** Exactly when an alarm does: giving up needs the report, going on needs the alarm, and a confirmed
      frame also its hand-over. */
  lemma TimerRoomIff(s: State, i: nat, room: Room)
    requires Inv(s) && i in s.alarms
    ensures i < SLOTS && (Inv(TimerIn(s, i, room)) <==>
      var x := s.slots[i];
      if x.phase == Confirmed && x.retries <= 1 then room.call else room.alarm && (x.phase == Confirmed ==> room.call))
  {
    TimerKeepsInv(s, i);
    assert s.alarms[i] == 1;
    var x := s.slots[i];
    if x.phase == Confirmed && x.retries <= 1 {
      TimerGivesUp(s, i);
      if !room.call {
        UnreportedBreaksInv(Timer(s, i), s.log, Outcome(x.number, x.buf, NoAck, false));
      }
    } else {
      TimerKeepsAlarm(s, i);
      if Inv(TimerIn(s, i, room)) {
        SlotsDetermineRest(Timer(s, i), TimerIn(s, i, room), i, x.buf);
      }
    }
  }

  /** A request that finds no room is left out, and the transition is otherwise the same: the alarm is not
      set, the frame is not handed over, the buffer is not reported. */
  lemma RefusedIsLeftOut(s: State, r: DataReq, buf: U8, room: Room)
    requires |s.slots| == SLOTS
    ensures var t := Send(s, r, buf);
      SendIn(s, r, buf, room) == t.(alarms := if room.alarm then t.alarms else s.alarms,
                                    nwk := if room.call then t.nwk else s.nwk, log := if room.call then t.log else s.log)
  {
  }

  lemma RefusedInTimer(s: State, i: nat, room: Room)
    requires i < |s.slots| && s.alarms[i] == 1
    ensures var t := Timer(s, i);
      TimerIn(s, i, room) == t.(alarms := if room.alarm then t.alarms else s.alarms - multiset{i},
                                nwk := if room.call then t.nwk else s.nwk, log := if room.call then t.log else s.log)
  {
    if s.slots[i].phase == Confirmed && s.slots[i].retries <= 1 {
      TimerGivesUp(s, i);
    }
  }

  /** Freeing a buffer needs no room. */
  lemma RefusedReport(s: State, buf: U8, a: Header, call: bool)
    ensures var t := Confirm(s, buf);
      var stray := forall j :: 0 <= j < |s.slots| ==> s.slots[j].buf != buf;
      ConfirmIn(s, buf, call) == t.(log := if call || stray then t.log else s.log)
    ensures var t := Ack(s, a);
      AckIn(s, a, call) == t.(log := if call || a.fc / 16 % 2 == 1 then t.log else s.log)
  {
  }
}
