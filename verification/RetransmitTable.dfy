/** The retransmission table in memory (aps_main.c), updated in place. */
module RetransmitTables {
  import opened Prelude
  import opened ApsFrames
  import opened ApsRetransmission
  import opened ApsKeys
  import opened ApsRefusals

  /** The table updated in place. Requests to the scheduler and the network layer, and the buffers they
      concern, are collected in the other fields. Whether a request finds room is a parameter. */
  class RetransmitTable {
    const hash: array<Slot>
    var counter: U8
    var alarms: multiset<nat>
    var nwk: multiset<U8>
    var log: seq<Outcome>
    var sent: nat
    ghost var given: multiset<U8>

    ghost predicate Valid()
      reads this, hash
    {
      hash.Length == SLOTS
    }

    ghost function Now(): State
      reads this, hash
    {
      State(hash[..], counter, sent, alarms, nwk, given, log)
    }

    /** zb_aps_init. */
    constructor (random: U8)
      ensures Valid() && fresh(hash) && Initial(Now()) && Numbered(Now(), random)
    {
      hash := new Slot[SLOTS](_ => Slot(Free, FrameKey(NO_ADDR, 0, 0, 0, 0), NO_BUF, 0, 0, 0));
      counter, alarms, nwk, log, sent, given := random, multiset{}, multiset{}, [], 0, multiset{};
      new;
      assert forall i :: 0 <= i < SLOTS ==> hash[..][i].phase == Free;
    }

    /** done_with_this_ack. */
    method Finish(i: nat, freed: bool, status: Status, call: bool)
      requires Valid() && i < SLOTS
      modifies this, hash
      ensures Valid() && Now() == DoneIn(old(Now()), i, freed, status, call)
    {
      if freed || call {
        log := log + [Outcome(hash[i].number, hash[i].buf, status, freed)];
      }
      hash[i] := Freed(hash[i]);
      alarms := alarms - multiset{i};
    }

    /** save_ack_data: ref stays 0 when no slot was free. */
    method SaveAckData(r: DataReq, buf: U8) returns (full: bool, ref: nat)
      requires Valid() && sent > 0
      modifies hash
      ensures var i := FirstFree(old(hash[..]), 0);
        && hash[..] == Save(old(hash[..]), NewSlot(r, counter, buf, sent - 1))
        && full == (i == SLOTS - 1) && ref == if i < SLOTS then i else 0
    {
      var i := 0;
      ref := 0;
      while i < SLOTS
        invariant 0 <= i <= SLOTS && ref == 0 && hash[..] == old(hash[..])
        invariant forall k :: 0 <= k < i ==> hash[k].phase != Free
      {
        if hash[i].phase == Free {
          hash[i] := Slot(Sent, SavedKey(r, counter), buf, MAX_FRAMES, sent - 1, 0);
          ref := i;
          break;
        }
        i := i + 1;
      }
      full := i == SLOTS - 1;
    }

    /** The header is numbered and the frame entered in the table. */
    method Enter(r: DataReq, buf: U8) returns (full: bool, ref: nat)
      requires Valid()
      modifies this, hash
      ensures Valid() && Now() == Entered(old(Now()), r, buf)
      ensures var i := FirstFree(old(hash[..]), 0); full == (i == SLOTS - 1) && ref == if i < SLOTS then i else 0
    {
      counter := NextCounter(counter);
      sent, given := sent + 1, given + multiset{buf};
      full, ref := SaveAckData(r, buf);
    }

    /** The part of zb_apsde_data_request that deals with the acknowledgement. */
    method DataRequest(r: DataReq, buf: U8, room: Room)
      requires Valid()
      modifies this, hash
      ensures Valid() && Now() == SendIn(old(Now()), r, buf, room)
    {
      SendInSteps(Now(), r, buf, room);
      var full, ref := Enter(r, buf);
      HandOver(full, ref, buf, room);
    }

    method HandOver(full: bool, ref: nat, buf: U8, room: Room)
      requires Valid() && sent > 0
      modifies this`log, this`alarms, this`nwk
      ensures Valid() && Now() == HandedOver(old(Now()), full, ref, buf, room)
    {
      if full {
        if room.call {
          log := log + [Outcome(sent - 1, buf, TableFull, false)];
        }
      } else {
        if room.alarm {
          alarms := alarms + multiset{ref};
        }
        if room.call {
          nwk := nwk + multiset{buf};
        }
      }
    }

    /** zb_nlde_data_confirm. */
    method DataConfirm(buf: U8, call: bool)
      requires Valid() && buf in nwk
      modifies this, hash
      ensures Valid() && Now() == ConfirmIn(old(Now()), buf, call)
    {
      nwk := nwk - multiset{buf};
      var i := 0;
      while i < SLOTS && hash[i].buf != buf
        invariant 0 <= i <= SLOTS
        invariant forall k :: 0 <= k < i ==> hash[k].buf != buf
      {
        i := i + 1;
      }
      assert i == FindBuf(hash[..], buf, 0);
      if i == SLOTS {
        log := log + [StrayFreed(buf)];
      } else if hash[i].phase == SentAcked {
        Finish(i, false, Acked, call);
      } else {
        hash[i] := hash[i].(phase := Confirmed);
      }
    }

    /** aps_ack_frame_handle. */
    method AckFrameHandle(a: Header, call: bool)
      requires Valid()
      modifies this, hash
      ensures Valid() && Now() == AckIn(old(Now()), a, call)
    {
      var i := 0;
      while i < SLOTS && !AckMatches(hash[i].key, a)
        invariant 0 <= i <= SLOTS
        invariant forall k :: 0 <= k < i ==> !AckMatches(hash[k].key, a)
      {
        i := i + 1;
      }
      assert i == FindAck(hash[..], a, 0);
      if i < SLOTS {
        if hash[i].phase == Sent {
          hash[i] := hash[i].(phase := SentAcked);
        } else {
          Finish(i, AckFormat(a.fc) == 1, Acked, call);
        }
      }
    }

    /** The entry, whose alarm is off the queue, loses a try, if it has one left. */
    method TakeTry(i: nat)
      requires Valid() && i < SLOTS
      modifies this`alarms, hash
      ensures Valid() && Now() == Ticked(old(Now()), i)
    {
      alarms := alarms - multiset{i};
      if hash[i].retries > 0 {
        hash[i] := hash[i].(retries := hash[i].retries - 1);
      }
      assert hash[..] == old(hash[..])[i := Tick(old(hash[..])[i])];
    }

    /** The alarm is set again, and a confirmed frame goes out again. */
    method SendAgain(i: nat, room: Room)
      requires Valid() && i < SLOTS
      modifies this, hash
      ensures Valid() && Now() == Resent(old(Now()), i, room)
    {
      if room.alarm {
        alarms := alarms + multiset{i};
      }
      if hash[i].phase == Confirmed {
        if room.call {
          nwk := nwk + multiset{hash[i].buf};
        }
        hash[i] := hash[i].(phase := Sent, repeats := hash[i].repeats + 1);
      }
    }

    /** zb_aps_ack_timer_cb, called by the scheduler with its alarm already off the queue. */
    method AckTimer(i: nat, room: Room)
      requires Valid() && i < SLOTS && i in alarms
      modifies this, hash
      ensures Valid() && Now() == TimerIn(old(Now()), i, room)
    {
      TimerInSteps(Now(), i, room);
      TakeTry(i);
      if hash[i].retries == 0 && hash[i].phase == Confirmed {
        Finish(i, false, NoAck, room.call);
      } else {
        SendAgain(i, room);
      }
    }
  }

  /** A frame is numbered and takes the first free slot. */
  function Entered(s: State, r: DataReq, buf: U8): (t: State)
    ensures t.sent > 0
  {
    var c := NextCounter(s.counter);
    s.(slots := Save(s.slots, NewSlot(r, c, buf, s.sent)), counter := c, sent := s.sent + 1, given := s.given + multiset{buf})
  }

  /** The frame sent last is handed over under its alarm, or reported as not sent. */
  function HandedOver(t: State, full: bool, ref: nat, buf: U8, room: Room): State
    requires t.sent > 0
  {
    if full then t.(log := if room.call then t.log + [Outcome(t.sent - 1, buf, TableFull, false)] else t.log)
    else t.(alarms := if room.alarm then t.alarms + multiset{ref} else t.alarms,
            nwk := if room.call then t.nwk + multiset{buf} else t.nwk)
  }

  lemma SendInSteps(s: State, r: DataReq, buf: U8, room: Room)
    requires |s.slots| == SLOTS
    ensures var i := FirstFree(s.slots, 0);
      SendIn(s, r, buf, room) == HandedOver(Entered(s, r, buf), i == SLOTS - 1, if i < SLOTS then i else 0, buf, room)
  {
  }

  function Ticked(s: State, i: nat): (t: State)
    requires i < |s.slots|
    ensures |t.slots| == |s.slots|
  {
    s.(alarms := s.alarms - multiset{i}, slots := s.slots[i := Tick(s.slots[i])])
  }

  function Resent(t: State, i: nat, room: Room): State
    requires i < |t.slots|
  {
    var x := t.slots[i];
    var u := t.(alarms := if room.alarm then t.alarms + multiset{i} else t.alarms);
    if x.phase != Confirmed then u
    else u.(slots := u.slots[i := x.(phase := Sent, repeats := x.repeats + 1)],
            nwk := if room.call then u.nwk + multiset{x.buf} else u.nwk)
  }

  lemma TimerInSteps(s: State, i: nat, room: Room)
    requires i < |s.slots|
    ensures var t := Ticked(s, i);
      TimerIn(s, i, room) ==
        if t.slots[i].retries == 0 && t.slots[i].phase == Confirmed then DoneIn(t, i, false, NoAck, room.call)
        else Resent(t, i, room)
  {
  }
}
