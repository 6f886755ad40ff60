/** APS retransmission (aps_main.c): a table of frames that want an acknowledgement, driven in any order
    by sends, network confirms, acknowledgements and alarms. Transitions are as written, including the
    full test of save_ack_data that looks at the last slot but one step early. */
module ApsRetransmission {
  import opened Prelude
  import opened ApsFrames

  /** ZB_N_APS_RETRANS_ENTRIES and ZB_N_APS_MAX_FRAME_ENTRIES: any values, as far as references of one
      octet, 255 apart, allow. */
  type SlotCount = n: nat | 1 < n < 255 witness 10
  type FrameCount = n: nat | 0 < n witness 3
  const SLOTS: SlotCount
  const MAX_FRAMES: FrameCount

  /** What a free slot holds. */
  const NO_ADDR: U16 := 0xFFFF
  const NO_BUF: U8 := 0xFF

  /** The four slot states: free, with the network layer, with it but already acknowledged, and
      waiting for the acknowledgement. The alarm runs in the last three. */
  datatype Phase = Free | Sent | SentAcked | Confirmed

  /** One entry. `number` and `repeats` are history: which frame of the run it is, and how often it
      was sent again. */
  datatype Slot = Slot(phase: Phase, key: FrameKey, buf: U8, retries: nat, number: nat, repeats: nat)

  datatype Status = Acked | NoAck | TableFull

  /** A buffer leaving the layer: that of a frame, freed or confirmed to the application with a status,
      or one no slot knows. */
  datatype Outcome =
    | Outcome(number: nat, buf: U8, status: Status, freed: bool)
    | StrayFreed(buf: U8)

  /** The table and its surroundings: pending alarms by slot, buffers the network layer holds, every
      buffer handed in, and every buffer handed back. */
  datatype State = State(
    slots: seq<Slot>, counter: U8, sent: nat, alarms: multiset<nat>, nwk: multiset<U8>,
    given: multiset<U8>, log: seq<Outcome>)

  // ---------- Searches ----------

  function FirstFree(slots: seq<Slot>, from: nat): (r: nat)
    requires from <= |slots|
    ensures from <= r <= |slots| && (r < |slots| ==> slots[r].phase == Free)
    ensures forall k :: from <= k < r ==> slots[k].phase != Free
    decreases |slots| - from
  {
    if from == |slots| || slots[from].phase == Free then from else FirstFree(slots, from + 1)
  }

  function FindBuf(slots: seq<Slot>, buf: U8, from: nat): (r: nat)
    requires from <= |slots|
    ensures from <= r <= |slots| && (r < |slots| ==> slots[r].buf == buf)
    ensures forall k :: from <= k < r ==> slots[k].buf != buf
    decreases |slots| - from
  {
    if from == |slots| || slots[from].buf == buf then from else FindBuf(slots, buf, from + 1)
  }

  function FindAck(slots: seq<Slot>, a: Header, from: nat): (r: nat)
    requires from <= |slots|
    ensures from <= r <= |slots| && (r < |slots| ==> AckMatches(slots[r].key, a))
    ensures forall k :: from <= k < r ==> !AckMatches(slots[k].key, a)
    decreases |slots| - from
  {
    if from == |slots| || AckMatches(slots[from].key, a) then from else FindAck(slots, a, from + 1)
  }

  // ---------- Transitions ----------

  function NewSlot(r: DataReq, nextCounter: U8, buf: U8, number: nat): Slot {
    Slot(Sent, SavedKey(r, nextCounter), buf, MAX_FRAMES, number, 0)
  }

  function Freed(x: Slot): Slot {
    x.(phase := Free, key := x.key.(addr := NO_ADDR), buf := NO_BUF)
  }

  /** done_with_this_ack; cancelling takes at most one alarm. */
  function Done(s: State, i: nat, freed: bool, status: Status): State
    requires i < |s.slots|
  {
    s.(slots := s.slots[i := Freed(s.slots[i])],
       alarms := s.alarms - multiset{i},
       log := s.log + [Outcome(s.slots[i].number, s.slots[i].buf, status, freed)])
  }

  /** The first free slot takes x. */
  function Save(slots: seq<Slot>, x: Slot): (r: seq<Slot>)
    ensures |r| == |slots|
  {
    var i := FirstFree(slots, 0);
    if i < |slots| then slots[i := x] else slots
  }

  /** A data request that wants an acknowledgement: fill the header, save_ack_data, then hand over to
      the network layer. The full test compares with the last slot, after it was filled; with no free
      slot at all it passes, and the alarm is set for slot 0. */
  function Send(s: State, r: DataReq, buf: U8): State
    requires |s.slots| == SLOTS
  {
    var counter := NextCounter(s.counter);
    var i := FirstFree(s.slots, 0);
    var t := s.(slots := Save(s.slots, NewSlot(r, counter, buf, s.sent)), counter := counter, sent := s.sent + 1, given := s.given + multiset{buf});
    if i == SLOTS - 1 then t.(log := t.log + [Outcome(s.sent, buf, TableFull, false)])
    else t.(alarms := t.alarms + multiset{if i < SLOTS then i else 0}, nwk := t.nwk + multiset{buf})
  }

  /** Any other frame only moves the counter. */
  function SendOther(s: State): State {
    s.(counter := NextCounter(s.counter), sent := s.sent + 1)
  }

  /** zb_nlde_data_confirm of a frame that asked for an acknowledgement. */
  function Confirm(s: State, buf: U8): (t: State)
    ensures |t.slots| == |s.slots|
  {
    var t := s.(nwk := s.nwk - multiset{buf});
    var i := FindBuf(t.slots, buf, 0);
    if i == |t.slots| then t.(log := t.log + [StrayFreed(buf)])
    else if t.slots[i].phase == SentAcked then Done(t, i, false, Acked)
    else t.(slots := t.slots[i := t.slots[i].(phase := Confirmed)])
  }

  /** aps_ack_frame_handle. */
  function Ack(s: State, a: Header): State {
    var i := FindAck(s.slots, a, 0);
    if i == |s.slots| then s
    else if s.slots[i].phase == Sent then s.(slots := s.slots[i := s.slots[i].(phase := SentAcked)])
    else Done(s, i, AckFormat(a.fc) == 1, Acked)
  }

  function Tick(x: Slot): Slot {
    x.(retries := if x.retries > 0 then x.retries - 1 else 0)
  }

  /** zb_aps_ack_timer_cb of slot i, whose alarm has just been taken off the queue. */
  function Timer(s: State, i: nat): State
    requires i < |s.slots|
  {
    var x := Tick(s.slots[i]);
    var t := s.(alarms := s.alarms - multiset{i}, slots := s.slots[i := x]);
    if x.retries == 0 && x.phase == Confirmed then Done(t, i, false, NoAck)
    else
      var u := t.(alarms := t.alarms + multiset{i});
      if x.phase == Confirmed then
        u.(slots := u.slots[i := x.(phase := Sent, repeats := x.repeats + 1)], nwk := u.nwk + multiset{x.buf})
      else u
  }

  // ---------- The invariant ----------

  const HELD: set<Phase> := {Sent, SentAcked, Confirmed}
  const WITH_NWK: set<Phase> := {Sent, SentAcked}

  /** How many slots in the given phases have buffer b. */
  function Count(slots: seq<Slot>, phases: set<Phase>, b: U8): nat {
    if slots == [] then 0
    else Count(slots[..|slots| - 1], phases, b) + Holds(slots[|slots| - 1], phases, b)
  }

  function Holds(x: Slot, phases: set<Phase>, b: U8): nat {
    if x.phase in phases && x.buf == b then 1 else 0
  }

  /** How often b was handed back. */
  function Returned(log: seq<Outcome>, b: U8): nat {
    if log == [] then 0 else Returned(log[..|log| - 1], b) + if log[|log| - 1].buf == b then 1 else 0
  }

  ghost predicate SlotOk(x: Slot) {
    if x.phase == Free then x.key.addr == NO_ADDR && x.buf == NO_BUF
    else x.buf != NO_BUF && x.repeats < MAX_FRAMES && x.repeats + x.retries <= MAX_FRAMES
  }

  ghost predicate OneAlarmEach(slots: seq<Slot>, alarms: multiset<nat>) {
    forall i: nat {:trigger alarms[i]} :: alarms[i] == if i < |slots| && slots[i].phase != Free then 1 else 0
  }

  /** Two entries with one buffer. */
  predicate Share(slots: seq<Slot>, i: nat, j: nat) {
    i < j < |slots| && slots[i].phase != Free && slots[j].phase != Free && slots[i].buf == slots[j].buf
  }

  ghost predicate OwnBufs(slots: seq<Slot>) {
    forall i, j :: !Share(slots, i, j)
  }

  ghost predicate TableOk(slots: seq<Slot>, alarms: multiset<nat>) {
    && |slots| == SLOTS
    && (forall i :: 0 <= i < |slots| ==> SlotOk(slots[i]))
    && OneAlarmEach(slots, alarms)
    && OwnBufs(slots)
  }

  ghost predicate NwkOk(slots: seq<Slot>, nwk: multiset<U8>) {
    forall b: U8 :: nwk[b] == Count(slots, WITH_NWK, b)
  }

  ghost predicate Conserved(slots: seq<Slot>, given: multiset<U8>, log: seq<Outcome>) {
    forall b: U8 :: given[b] == Returned(log, b) + Count(slots, HELD, b)
  }

  /** Every occupied slot has exactly one alarm; the network layer holds exactly the buffers of the two
      unconfirmed phases, once; a buffer is in one slot at most; and the buffers handed in are those
      handed back, counted with repetition, plus those in slots. */
  ghost predicate Inv(s: State) {
    TableOk(s.slots, s.alarms) && NwkOk(s.slots, s.nwk) && Conserved(s.slots, s.given, s.log)
  }

  lemma {:induction false} CountUpdate(slots: seq<Slot>, i: nat, x: Slot, phases: set<Phase>, b: U8)
    requires i < |slots|
    ensures Count(slots[i := x], phases, b) == Count(slots, phases, b) - Holds(slots[i], phases, b) + Holds(x, phases, b)
  {
    var last := |slots| - 1;
    if i == last {
      assert slots[i := x][..last] == slots[..last];
    } else {
      CountUpdate(slots[..last], i, x, phases, b);
      assert slots[i := x][..last] == slots[..last][i := x];
    }
  }

  lemma {:induction false} CountedSlot(slots: seq<Slot>, b: U8, phases: set<Phase>) returns (i: nat)
    requires Count(slots, phases, b) > 0
    ensures i < |slots| && slots[i].phase in phases && slots[i].buf == b
  {
    var last := |slots| - 1;
    if Holds(slots[last], phases, b) == 1 {
      i := last;
    } else {
      i := CountedSlot(slots[..last], b, phases);
    }
  }

  lemma ReturnedOne(log: seq<Outcome>, o: Outcome, b: U8)
    ensures Returned(log + [o], b) == Returned(log, b) + if o.buf == b then 1 else 0
  {
    assert (log + [o])[..|log|] == log;
  }

  // ---------- Steps ----------

  /** One slot changes to x, and its alarm with it. */
  lemma TableStep(slots: seq<Slot>, alarms: multiset<nat>, i: nat, x: Slot)
    requires TableOk(slots, alarms) && i < SLOTS && SlotOk(x)
    requires x.phase != Free ==>
      forall j :: 0 <= j < SLOTS && j != i && slots[j].phase != Free ==> slots[j].buf != x.buf
    ensures TableOk(slots[i := x], alarms[i := if x.phase == Free then 0 else 1])
  {
    var after := slots[i := x];
    forall a, b ensures !Share(after, a, b) {
      assert !Share(slots, a, b);
    }
  }

  /** One slot changes, but keeps its buffer. */
  lemma TableKeeps(slots: seq<Slot>, alarms: multiset<nat>, i: nat, x: Slot)
    requires TableOk(slots, alarms) && i < SLOTS && SlotOk(x)
    requires slots[i].phase != Free && x.phase != Free && x.buf == slots[i].buf
    ensures TableOk(slots[i := x], alarms)
  {
    var after := slots[i := x];
    forall a, b ensures !Share(after, a, b) {
      assert !Share(slots, a, b);
    }
  }

  /** The network layer gets or returns buffers as the slot enters or leaves the unconfirmed phases. */
  lemma NwkStep(slots: seq<Slot>, nwk: multiset<U8>, after: multiset<U8>, i: nat, x: Slot)
    requires NwkOk(slots, nwk) && i < |slots|
    requires forall b: U8 :: after[b] == nwk[b] - Holds(slots[i], WITH_NWK, b) + Holds(x, WITH_NWK, b)
    ensures NwkOk(slots[i := x], after)
  {
    forall b: U8 ensures after[b] == Count(slots[i := x], WITH_NWK, b) {
      CountUpdate(slots, i, x, WITH_NWK, b);
    }
  }

  /** A slot that keeps its buffer, or stays free. */
  lemma KeepStep(slots: seq<Slot>, given: multiset<U8>, log: seq<Outcome>, i: nat, x: Slot)
    requires Conserved(slots, given, log) && i < |slots|
    requires slots[i].phase != Free && x.phase != Free && x.buf == slots[i].buf
    ensures Conserved(slots[i := x], given, log)
  {
    forall b: U8 ensures given[b] == Returned(log, b) + Count(slots[i := x], HELD, b) {
      CountUpdate(slots, i, x, HELD, b);
    }
  }

  /** A slot that hands its buffer back. */
  lemma HandBackStep(slots: seq<Slot>, given: multiset<U8>, log: seq<Outcome>, i: nat, o: Outcome)
    requires Conserved(slots, given, log) && i < |slots| && slots[i].phase != Free && o.buf == slots[i].buf
    ensures Conserved(slots[i := Freed(slots[i])], given, log + [o])
  {
    forall b: U8 ensures given[b] == Returned(log + [o], b) + Count(slots[i := Freed(slots[i])], HELD, b) {
      CountUpdate(slots, i, Freed(slots[i]), HELD, b);
      ReturnedOne(log, o, b);
    }
  }

  /** A free slot that takes a buffer. */
  lemma TakeStep(slots: seq<Slot>, given: multiset<U8>, log: seq<Outcome>, i: nat, x: Slot)
    requires Conserved(slots, given, log) && i < |slots| && slots[i].phase == Free && x.phase != Free
    ensures Conserved(slots[i := x], given + multiset{x.buf}, log)
  {
    forall b: U8 ensures (given + multiset{x.buf})[b] == Returned(log, b) + Count(slots[i := x], HELD, b) {
      CountUpdate(slots, i, x, HELD, b);
    }
  }

  lemma OneOff(alarms: multiset<nat>, i: nat)
    ensures alarms[i] <= 1 ==> alarms - multiset{i} == alarms[i := 0]
    ensures alarms[i] == 0 ==> alarms + multiset{i} == alarms[i := 1]
  {
  }

  /** Finishing an entry keeps the invariant once the network layer has let go of its buffer. */
  lemma DoneKeepsInv(s: State, i: nat, freed: bool, status: Status)
    requires Inv(s) && i < SLOTS && s.slots[i].phase == Confirmed
    ensures Inv(Done(s, i, freed, status))
  {
    TableStep(s.slots, s.alarms, i, Freed(s.slots[i]));
    OneOff(s.alarms, i);
    NwkStep(s.slots, s.nwk, s.nwk, i, Freed(s.slots[i]));
    HandBackStep(s.slots, s.given, s.log, i, Outcome(s.slots[i].number, s.slots[i].buf, status, freed));
  }

  /** Exactly when a send keeps the invariant: there is a free slot before the last one. With only the
      last slot free, it is filled although the caller is told the table is full; with none free, the
      alarm and the frame go out without an entry. */
  lemma SendKeepsInvIff(s: State, r: DataReq, buf: U8)
    requires Inv(s) && buf != NO_BUF && Count(s.slots, HELD, buf) == 0
    ensures Inv(Send(s, r, buf)) <==> exists k :: 0 <= k < SLOTS - 1 && s.slots[k].phase == Free
  {
    var i := FirstFree(s.slots, 0);
    if i < SLOTS - 1 {
      SendWithRoom(s, r, buf);
    } else if i == SLOTS - 1 {
      var t := Send(s, r, buf);
      assert t.alarms[i] == 0 && t.slots[i].phase == Sent;
    } else {
      assert Send(s, r, buf).alarms[0] == 2;
    }
  }

  lemma SendWithRoom(s: State, r: DataReq, buf: U8)
    requires Inv(s) && buf != NO_BUF && Count(s.slots, HELD, buf) == 0 && FirstFree(s.slots, 0) < SLOTS - 1
    ensures Inv(Send(s, r, buf))
  {
    var t := Send(s, r, buf);
    var i := FirstFree(s.slots, 0);
    var x := NewSlot(r, t.counter, buf, s.sent);
    forall j | 0 <= j < SLOTS && s.slots[j].phase != Free ensures s.slots[j].buf != buf {
      CountUpdate(s.slots, j, Freed(s.slots[j]), HELD, buf);
    }
    TableStep(s.slots, s.alarms, i, x);
    OneOff(s.alarms, i);
    NwkStep(s.slots, s.nwk, t.nwk, i, x);
    TakeStep(s.slots, s.given, s.log, i, x);
  }

  /** A buffer finds the slot that has it. */
  lemma BufFindsSlot(s: State, i: nat)
    requires Inv(s) && i < SLOTS && s.slots[i].phase != Free
    ensures FindBuf(s.slots, s.slots[i].buf, 0) == i
  {
    var k := FindBuf(s.slots, s.slots[i].buf, 0);
    assert SlotOk(s.slots[i]) && SlotOk(s.slots[k]);
    assert !Share(s.slots, k, i);
  }

  /** The buffer of a network confirm is found in its own slot, in one of the unconfirmed phases. */
  lemma ConfirmFindsSlot(s: State, buf: U8)
    requires Inv(s) && buf in s.nwk
    ensures var i := FindBuf(s.slots, buf, 0); i < SLOTS && s.slots[i].phase in WITH_NWK && s.slots[i].buf == buf
  {
    var k := CountedSlot(s.slots, buf, WITH_NWK);
    BufFindsSlot(s, k);
  }

  lemma ConfirmedStep(s: State, i: nat, x: Slot)
    requires Inv(s) && i < SLOTS && s.slots[i].phase in WITH_NWK && x == s.slots[i].(phase := Confirmed)
    ensures Inv(s.(nwk := s.nwk - multiset{x.buf}, slots := s.slots[i := x]))
  {
    CountUpdate(s.slots, i, x, WITH_NWK, x.buf);
    TableKeeps(s.slots, s.alarms, i, x);
    NwkStep(s.slots, s.nwk, s.nwk - multiset{x.buf}, i, x);
    KeepStep(s.slots, s.given, s.log, i, x);
  }

  lemma ConfirmKeepsInv(s: State, buf: U8)
    requires Inv(s) && buf in s.nwk
    ensures Inv(Confirm(s, buf))
  {
    ConfirmFindsSlot(s, buf);
    var i := FindBuf(s.slots, buf, 0);
    var x := s.slots[i].(phase := Confirmed);
    ConfirmedStep(s, i, x);
    if s.slots[i].phase == SentAcked {
      var t := s.(nwk := s.nwk - multiset{buf}, slots := s.slots[i := x]);
      DoneKeepsInv(t, i, false, Acked);
      DoneFromAnyPhase(s.slots, i, x);
    }
  }

  /** Freeing a slot forgets its phase. */
  lemma DoneFromAnyPhase(slots: seq<Slot>, i: nat, x: Slot)
    requires i < |slots| && x.key == slots[i].key && x == slots[i].(phase := x.phase)
    ensures slots[i := x][i := Freed(x)] == slots[i := Freed(slots[i])]
  {
  }

  /** Exactly when an acknowledgement keeps the invariant: it matches no entry, or the first it matches
      is neither free nor already acknowledged. A second acknowledgement before the network confirm
      finishes the entry while the network layer still holds its buffer. */
  lemma AckKeepsInvIff(s: State, a: Header)
    requires Inv(s)
    ensures Inv(Ack(s, a)) <==>
      var i := FindAck(s.slots, a, 0); i == SLOTS || s.slots[i].phase in {Sent, Confirmed}
  {
    var i := FindAck(s.slots, a, 0);
    if i < SLOTS {
      if s.slots[i].phase == Sent {
        FirstAckKeepsInv(s, i);
      } else if s.slots[i].phase == Confirmed {
        DoneKeepsInv(s, i, AckFormat(a.fc) == 1, Acked);
      } else {
        EarlyDoneBreaksInv(s, i, AckFormat(a.fc) == 1);
      }
    }
  }

  lemma FirstAckKeepsInv(s: State, i: nat)
    requires Inv(s) && i < SLOTS && s.slots[i].phase == Sent
    ensures Inv(s.(slots := s.slots[i := s.slots[i].(phase := SentAcked)]))
  {
    var x := s.slots[i].(phase := SentAcked);
    TableKeeps(s.slots, s.alarms, i, x);
    NwkStep(s.slots, s.nwk, s.nwk, i, x);
    KeepStep(s.slots, s.given, s.log, i, x);
  }

  lemma EarlyDoneBreaksInv(s: State, i: nat, freed: bool)
    requires Inv(s) && i < SLOTS && s.slots[i].phase in {Free, SentAcked}
    ensures !Inv(Done(s, i, freed, Acked))
  {
    var x, buf := Freed(s.slots[i]), s.slots[i].buf;
    var t := Done(s, i, freed, Acked);
    if s.slots[i].phase == SentAcked {
      CountUpdate(s.slots, i, x, WITH_NWK, buf);
      assert t.nwk[buf] != Count(t.slots, WITH_NWK, buf);
    } else {
      CountUpdate(s.slots, i, x, HELD, buf);
      ReturnedOne(s.log, Outcome(s.slots[i].number, buf, Acked, freed), buf);
      assert t.given[buf] != Returned(t.log, buf) + Count(t.slots, HELD, buf);
    }
  }

  lemma TimerKeepsInv(s: State, i: nat)
    requires Inv(s) && i in s.alarms
    ensures i < SLOTS && Inv(Timer(s, i))
  {
    var x := Tick(s.slots[i]);
    var t := s.(slots := s.slots[i := x]);
    TableKeeps(s.slots, s.alarms, i, x);
    NwkStep(s.slots, s.nwk, s.nwk, i, x);
    KeepStep(s.slots, s.given, s.log, i, x);
    if x.phase == Confirmed && x.retries == 0 {
      DoneKeepsInv(t, i, false, NoAck);
      TimerGivesUp(s, i);
    } else {
      TimerKeepsAlarm(s, i);
      if x.phase == Confirmed {
        RepeatStep(t, i, AfterAlarm(s.slots[i]));
        TwiceUpdated(s.slots, i, x, AfterAlarm(s.slots[i]));
      }
    }
  }

  lemma TwiceUpdated(slots: seq<Slot>, i: nat, x: Slot, y: Slot)
    requires i < |slots|
    ensures slots[i := x][i := y] == slots[i := y]
  {
  }

  /** An entry after an alarm that does not end it: a confirmed frame goes out again. */
  function AfterAlarm(x: Slot): Slot {
    Tick(x).(phase := if x.phase == Confirmed then Sent else x.phase,
             repeats := x.repeats + if x.phase == Confirmed then 1 else 0)
  }

  lemma TimerGivesUp(s: State, i: nat)
    requires i < |s.slots| && s.alarms[i] == 1 && s.slots[i].phase == Confirmed && s.slots[i].retries <= 1
    ensures Timer(s, i) == Done(s.(slots := s.slots[i := Tick(s.slots[i])]), i, false, NoAck)
  {
    assert s.alarms - multiset{i} - multiset{i} == s.alarms - multiset{i};
  }

  /** Otherwise the alarm is set again, and a confirmed frame goes out again. */
  lemma TimerKeepsAlarm(s: State, i: nat)
    requires i < |s.slots| && s.alarms[i] == 1 && !(s.slots[i].phase == Confirmed && s.slots[i].retries <= 1)
    ensures var x := s.slots[i];
      Timer(s, i) == s.(slots := s.slots[i := AfterAlarm(x)],
                        nwk := if x.phase == Confirmed then s.nwk + multiset{x.buf} else s.nwk)
  {
    var x := s.slots[i];
    assert s.alarms - multiset{i} + multiset{i} == s.alarms;
    if x.phase == Confirmed { TwiceUpdated(s.slots, i, Tick(x), AfterAlarm(x)); }
  }

  lemma RepeatStep(t: State, i: nat, y: Slot)
    requires Inv(t) && i < SLOTS && t.slots[i].phase == Confirmed && SlotOk(y)
    requires y == t.slots[i].(phase := Sent, repeats := y.repeats)
    ensures Inv(t.(slots := t.slots[i := y], nwk := t.nwk + multiset{y.buf}))
  {
    TableKeeps(t.slots, t.alarms, i, y);
    NwkStep(t.slots, t.nwk, t.nwk + multiset{y.buf}, i, y);
    KeepStep(t.slots, t.given, t.log, i, y);
  }

  // ---------- Runs ----------

  datatype Op =
    | Request(r: DataReq, buf: U8)
    | OtherFrame
    | NwkConfirm(buf: U8)
    | AckFrameIn(a: Header)
    | Alarm(i: nat)

  /** What the environment may do: hand in a buffer it owns while there is room before the last slot,
      confirm what the network layer holds, run a pending alarm, and deliver acknowledgements, but not
      a second one to an entry the network layer still holds. */
  ghost predicate Legal(s: State, op: Op)
    requires |s.slots| == SLOTS
  {
    match op
    case Request(r, buf) =>
      Recorded(r) && buf != NO_BUF && Count(s.slots, HELD, buf) == 0
      && exists k :: 0 <= k < SLOTS - 1 && s.slots[k].phase == Free
    case OtherFrame => true
    case NwkConfirm(buf) => buf in s.nwk
    case AckFrameIn(a) => var i := FindAck(s.slots, a, 0); i == SLOTS || s.slots[i].phase in {Sent, Confirmed}
    case Alarm(i) => i < SLOTS && i in s.alarms
  }

  ghost function Step(s: State, op: Op): (t: State)
    requires |s.slots| == SLOTS && Legal(s, op)
    ensures |t.slots| == SLOTS
  {
    match op
    case Request(r, buf) => Send(s, r, buf)
    case OtherFrame => SendOther(s)
    case NwkConfirm(buf) => Confirm(s, buf)
    case AckFrameIn(a) => Ack(s, a)
    case Alarm(i) => Timer(s, i)
  }

  ghost predicate LegalRun(s: State, ops: seq<Op>)
    requires |s.slots| == SLOTS
    decreases |ops|
  {
    ops != [] ==> Legal(s, ops[0]) && LegalRun(Step(s, ops[0]), ops[1..])
  }

  ghost function Run(s: State, ops: seq<Op>): (t: State)
    requires |s.slots| == SLOTS && LegalRun(s, ops)
    ensures |t.slots| == SLOTS
    decreases |ops|
  {
    if ops == [] then s else Run(Step(s, ops[0]), ops[1..])
  }

  lemma StepKeepsInv(s: State, op: Op)
    requires Inv(s) && Legal(s, op)
    ensures Inv(Step(s, op))
  {
    match op
    case Request(r, buf) => SendKeepsInvIff(s, r, buf);
    case OtherFrame =>
    case NwkConfirm(buf) => ConfirmKeepsInv(s, buf);
    case AckFrameIn(a) => AckKeepsInvIff(s, a);
    case Alarm(i) => TimerKeepsInv(s, i);
  }

  /** Over any interleaving: one alarm per occupied slot, the network layer holding exactly the
      unconfirmed buffers, at most MAX_FRAMES - 1 repeats, and no buffer lost or returned twice. */
  lemma {:induction false} RunKeepsInv(s: State, ops: seq<Op>)
    requires Inv(s) && LegalRun(s, ops)
    ensures Inv(Run(s, ops))
    decreases |ops|
  {
    if ops != [] {
      StepKeepsInv(s, ops[0]);
      RunKeepsInv(Step(s, ops[0]), ops[1..]);
    }
  }

  /** The table zb_aps_init leaves. */
  ghost predicate Initial(s: State) {
    && |s.slots| == SLOTS && (forall i :: 0 <= i < SLOTS ==> s.slots[i].phase == Free && SlotOk(s.slots[i]))
    && s.alarms == multiset{} && s.nwk == multiset{} && s.given == multiset{} && s.log == []
  }

  lemma {:induction false} NothingHeld(slots: seq<Slot>, phases: set<Phase>, b: U8)
    requires Free !in phases && forall i :: 0 <= i < |slots| ==> slots[i].phase == Free
    ensures Count(slots, phases, b) == 0
  {
    if slots != [] {
      NothingHeld(slots[..|slots| - 1], phases, b);
    }
  }

  lemma InitialInv(s: State)
    requires Initial(s)
    ensures Inv(s)
  {
    forall b: U8 ensures Count(s.slots, HELD, b) == 0 && Count(s.slots, WITH_NWK, b) == 0 {
      NothingHeld(s.slots, HELD, b);
      NothingHeld(s.slots, WITH_NWK, b);
    }
  }

  /** Whenever every slot is free again, each buffer has come back exactly as often as it was handed in,
      no alarm is pending and the network layer holds nothing. */
  lemma QuietMeansAllReturned(s0: State, ops: seq<Op>)
    requires Initial(s0) && LegalRun(s0, ops)
    ensures var s := Run(s0, ops);
      (forall i :: 0 <= i < SLOTS ==> s.slots[i].phase == Free) ==>
        s.nwk == multiset{} && s.alarms == multiset{} && forall b: U8 :: s.given[b] == Returned(s.log, b)
  {
    InitialInv(s0);
    RunKeepsInv(s0, ops);
    if forall i :: 0 <= i < SLOTS ==> Run(s0, ops).slots[i].phase == Free {
      AllFreeIsQuiet(Run(s0, ops));
    }
  }

  lemma AllFreeIsQuiet(s: State)
    requires Inv(s) && forall i :: 0 <= i < SLOTS ==> s.slots[i].phase == Free
    ensures s.nwk == multiset{} && s.alarms == multiset{} && forall b: U8 :: s.given[b] == Returned(s.log, b)
  {
    forall b: U8 ensures s.nwk[b] == 0 && s.given[b] == Returned(s.log, b) {
      NothingHeld(s.slots, HELD, b);
      NothingHeld(s.slots, WITH_NWK, b);
    }
    forall i: nat ensures s.alarms[i] == 0 {
    }
  }

  /** What each step hands to, or takes back from, the network layer. */
  lemma NwkAfter(s: State, op: Op)
    requires |s.slots| == SLOTS && Legal(s, op)
    ensures Step(s, op).nwk ==
      match op
      case Request(r, buf) => s.nwk + multiset{buf}
      case OtherFrame => s.nwk
      case NwkConfirm(buf) => s.nwk - multiset{buf}
      case AckFrameIn(a) => s.nwk
      case Alarm(i) =>
        if s.slots[i].phase == Confirmed && s.slots[i].retries > 1 then s.nwk + multiset{s.slots[i].buf} else s.nwk
  {
    if op.Request? {
      assert FirstFree(s.slots, 0) < SLOTS - 1;
    }
  }

  /** The network layer is handed a buffer only by a send, or by the alarm of a confirmed entry with
      tries left; so it never gets one it already holds. */
  lemma HandOverOnlyWhenConfirmed(s: State, op: Op, b: U8)
    requires Inv(s) && Legal(s, op)
    ensures Step(s, op).nwk[b] > s.nwk[b] ==>
      && s.nwk[b] == 0
      && ((op.Request? && op.buf == b)
          || (op.Alarm? && s.slots[op.i].phase == Confirmed && s.slots[op.i].retries > 1 && s.slots[op.i].buf == b))
  {
    StepKeepsInv(s, op);
    AtMostOne(Step(s, op), b);
    NwkAfter(s, op);
  }

  lemma AtMostOne(s: State, b: U8)
    requires Inv(s)
    ensures s.nwk[b] <= 1
  {
    if s.nwk[b] > 1 {
      var i := CountedSlot(s.slots, b, WITH_NWK);
      var rest := s.slots[i := Freed(s.slots[i])];
      CountUpdate(s.slots, i, Freed(s.slots[i]), WITH_NWK, b);
      var j := CountedSlot(rest, b, WITH_NWK);
      BufFindsSlot(s, i);
      BufFindsSlot(s, j);
      assert false;
    }
  }
}
