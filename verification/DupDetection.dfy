/** APS duplicate rejection (aps_dups.c): each known source has its latest counter and a clock that
    a self-rescheduling alarm ages. */
module DupDetection {
  import opened Prelude
  import opened AddressModel
  import opened AddressTables

  /** `alarms` counts pending activations of the ageing alarm. */
  datatype DupState = DupState(m: seq<Entry>, running: bool, alarms: nat)

  datatype Check = Check(state: DupState, isDup: bool)

  const DUP_TICKS: DupClock := 3

  /** aps_check_dups. */
  function CheckDups(s: DupState, hand: nat, src: U16, counter: U8): (r: Check)
    requires |s.m| > 0 && hand <= |s.m|
    ensures |r.state.m| == |s.m|
  {
    var found := ByShort(s.m, hand, src, true);
    if found.ref.None? then Check(s.(m := found.map'), false)
    else
      var i := found.ref.value;
      var e := found.map'[i];
      Check(DupState(found.map'[i := e.(dupCounter := counter, dupClock := DUP_TICKS)],
                     true,
                     if s.running then s.alarms else s.alarms + 1),
            e.dupClock != 0 && e.dupCounter == counter)
  }

  function Aged(e: Entry): Entry {
    if e.used && e.dupClock > 0 then e.(dupClock := e.dupClock - 1) else e
  }

  predicate Ticking(e: Entry) {
    e.used && e.dupClock > 0
  }

  function AgeAll(m: seq<Entry>): (m': seq<Entry>)
    ensures |m'| == |m|
  {
    seq(|m|, i requires 0 <= i < |m| => Aged(m[i]))
  }

  predicate AnyTicking(m: seq<Entry>) {
    exists i :: 0 <= i < |m| && Ticking(m[i])
  }

  /** zb_aps_check_timer_cb: the pending alarm is consumed, and re-armed if a clock is still on. */
  function Fire(s: DupState): (s': DupState)
    requires s.alarms > 0
    ensures |s'.m| == |s.m|
  {
    var on := AnyTicking(AgeAll(s.m));
    DupState(AgeAll(s.m), on, s.alarms - 1 + (if on then 1 else 0))
  }

  /** The alarm is pending, once, exactly while some source's clock is on. */
  ghost predicate Inv(s: DupState) {
    && |s.m| > 0
    && (s.running <==> AnyTicking(s.m))
    && s.alarms == (if s.running then 1 else 0)
    && (forall i :: 0 <= i < |s.m| && !s.m[i].used ==> s.m[i].dupClock == 0)
  }

  // ---------- Runs that delete only entries whose clock is off ----------

  datatype DupOp =
    | Packet(src: U16, counter: U8, hand: nat)
    | AlarmFires
    | Other(op: Op)

  /** If the operation deletes an address, or evicts one in an update, that one's clock is off. */
  predicate Harmless(m: seq<Entry>, op: Op)
    requires |m| > 0
  {
    match op
    case OpDelete(ref) => ref < |m| ==> m[ref].dupClock == 0
    case OpUpdate(c, a, _) => var loser := Loser(m, c, a); loser.Some? ==> m[loser.value].dupClock == 0
    case _ => true
  }

  predicate Allowed(s: DupState, op: DupOp)
    requires |s.m| > 0
  {
    match op
    case Packet(_, _, hand) => hand <= |s.m|
    case AlarmFires => s.alarms > 0
    case Other(op) => Legal(s.m, op) && Harmless(s.m, op)
  }

  function Perform(s: DupState, op: DupOp): (s': DupState)
    requires |s.m| > 0 && Allowed(s, op)
    ensures |s'.m| == |s.m|
  {
    match op
    case Packet(src, counter, hand) => CheckDups(s, hand, src, counter).state
    case AlarmFires => Fire(s)
    case Other(op) => s.(m := Step(s.m, op))
  }

  predicate AllowedRun(s: DupState, ops: seq<DupOp>)
    requires |s.m| > 0
    decreases |ops|
  {
    ops != [] ==> Allowed(s, ops[0]) && AllowedRun(Perform(s, ops[0]), ops[1..])
  }

  function PerformAll(s: DupState, ops: seq<DupOp>): (s': DupState)
    requires |s.m| > 0 && AllowedRun(s, ops)
    ensures |s'.m| == |s.m|
    decreases |ops|
  {
    if ops == [] then s else PerformAll(Perform(s, ops[0]), ops[1..])
  }

  function Fires(ops: seq<DupOp>): (n: nat) {
    if ops == [] then 0 else (if ops[0].AlarmFires? then 1 else 0) + Fires(ops[1..])
  }

  /** Address bookkeeping leaves the duplicate clocks and counters alone, and no entry with its clock
      on goes out of use. */
  lemma StepKeepsClocks(m: seq<Entry>, op: Op)
    requires |m| > 0 && Legal(m, op) && Harmless(m, op)
    ensures forall i :: 0 <= i < |m| ==> KeepsClock(m[i], Step(m, op)[i])
  {
    match op
    case OpByIeee(c, create, hand) => AddKeepsClocks(m, hand, Some(c), NO_SHORT);
    case OpByShort(a, create, hand) => AddKeepsClocks(m, hand, None, a);
    case OpUpdate(c, a, hand) => UpdateKeepsClocks(m, hand, c, a);
    case OpDelete(ref) =>
    case OpLock(ref) =>
    case OpUnlock(ref) =>
  }

  /** What stays of the entry's duplicate bookkeeping. */
  ghost predicate KeepsClock(e: Entry, f: Entry) {
    f.dupClock == e.dupClock && f.dupCounter == e.dupCounter && (Ticking(e) ==> f.used)
  }

  lemma UpdateKeepsClocks(m: seq<Entry>, hand: nat, c: Compressed, a: U16)
    requires hand <= |m| && |m| > 0 && Harmless(m, OpUpdate(c, a, hand))
    ensures forall i :: 0 <= i < |m| ==> KeepsClock(m[i], Update(m, hand, c, a).map'[i])
  {
    if FindShort(m, a).Some? || FindLong(m, c).Some? {
      assert forall i :: 0 <= i < |m| ==> KeepsClock(m[i], Evicted(m, c, a)[i]);
    } else {
      AddKeepsClocks(m, hand, Some(c), a);
    }
  }

  lemma AddKeepsClocks(m: seq<Entry>, hand: nat, c: Option<Compressed>, a: U16)
    requires hand <= |m| && |m| > 0
    ensures forall i :: 0 <= i < |m| ==> KeepsClock(m[i], Add(m, hand, c, a).map'[i])
  {
    TickKeepsKeys(m, hand);
  }

  lemma PacketKeepsInv(s: DupState, hand: nat, src: U16, counter: U8)
    requires Inv(s) && hand <= |s.m|
    ensures Inv(CheckDups(s, hand, src, counter).state)
  {
    var found := ByShort(s.m, hand, src, true);
    StepKeepsClocks(s.m, OpByShort(src, true, hand));
    var t := CheckDups(s, hand, src, counter).state;
    if found.ref.Some? {
      assert Ticking(t.m[found.ref.value]);
    }
  }

  lemma OtherKeepsInv(s: DupState, op: Op)
    requires Inv(s) && Legal(s.m, op) && Harmless(s.m, op)
    ensures Inv(s.(m := Step(s.m, op)))
  {
    StepKeepsClocks(s.m, op);
    var m' := Step(s.m, op);
    if AnyTicking(s.m) {
      var i :| 0 <= i < |s.m| && Ticking(s.m[i]);
      assert Ticking(m'[i]);
    }
  }

  lemma PerformKeepsInv(s: DupState, op: DupOp)
    requires Inv(s) && Allowed(s, op)
    ensures Inv(Perform(s, op))
  {
    match op
    case Packet(src, counter, hand) => PacketKeepsInv(s, hand, src, counter);
    case AlarmFires =>
    case Other(op) => OtherKeepsInv(s, op);
  }

  /** In every run that deletes and evicts only entries whose clock is off, the ageing alarm is
      pending iff some used entry's clock is on. */
  lemma {:induction false} RunKeepsInv(s: DupState, ops: seq<DupOp>)
    requires Inv(s) && AllowedRun(s, ops)
    ensures Inv(PerformAll(s, ops))
    decreases |ops|
  {
    if ops != [] {
      PerformKeepsInv(s, ops[0]);
      RunKeepsInv(Perform(s, ops[0]), ops[1..]);
    }
  }

  // ---------- The duplicate window ----------

  /** Throughout the run entry r stays the holder of src, and no further packet of src comes in. */
  predicate SourceQuiet(s: DupState, ops: seq<DupOp>, src: U16, r: nat)
    requires |s.m| > 0 && r < |s.m| && AllowedRun(s, ops)
    decreases |ops|
  {
    && FindShort(s.m, src) == Some(r)
    && (ops != [] ==>
          && !(ops[0].Packet? && ops[0].src == src)
          && SourceQuiet(Perform(s, ops[0]), ops[1..], src, r))
  }

  function Minus(clock: int, ticks: nat): nat {
    if clock >= ticks then clock - ticks else 0
  }

  /** Packets of other sources do not touch this source's clock. */
  lemma OtherPacketKeepsClock(s: DupState, hand: nat, src: U16, counter: U8, r: nat)
    requires |s.m| > 0 && hand <= |s.m| && r < |s.m|
    requires s.m[r].used && (s.m[r].addr != src || src == NO_SHORT)
    ensures var t := CheckDups(s, hand, src, counter).state;
            t.m[r].dupClock == s.m[r].dupClock && t.m[r].dupCounter == s.m[r].dupCounter
  {
    StepKeepsClocks(s.m, OpByShort(src, true, hand));
  }

  lemma {:induction false} ClockRunsDown(s: DupState, ops: seq<DupOp>, src: U16, r: nat)
    requires |s.m| > 0 && r < |s.m| && AllowedRun(s, ops) && SourceQuiet(s, ops, src, r)
    ensures var t := PerformAll(s, ops);
            && FindShort(t.m, src) == Some(r)
            && t.m[r].dupClock == Minus(s.m[r].dupClock, Fires(ops))
            && t.m[r].dupCounter == s.m[r].dupCounter
    decreases |ops|
  {
    if ops != [] {
      match ops[0] {
        case Packet(other, counter, hand) => OtherPacketKeepsClock(s, hand, other, counter, r);
        case AlarmFires =>
        case Other(op) => StepKeepsClocks(s.m, op);
      }
      ClockRunsDown(Perform(s, ops[0]), ops[1..], src, r);
    }
  }

  /** The whole rule of duplicate rejection: after a packet from src, and any run in which src stays
      known and sends nothing, its next packet is a duplicate iff it repeats the counter before
      the alarm has fired three times. */
  lemma RepeatIsDupIff(s: DupState, hand: nat, src: U16, c1: U8, ops: seq<DupOp>, hand2: nat, c2: U8, r: nat)
    requires |s.m| > 0 && hand <= |s.m| && hand2 <= |s.m| && r < |s.m|
    requires ByShort(s.m, hand, src, true).ref == Some(r)
    requires var s1 := CheckDups(s, hand, src, c1).state;
             AllowedRun(s1, ops) && SourceQuiet(s1, ops, src, r)
    ensures var s2 := PerformAll(CheckDups(s, hand, src, c1).state, ops);
            CheckDups(s2, hand2, src, c2).isDup <==> c1 == c2 && Fires(ops) < 3
  {
    var s1 := CheckDups(s, hand, src, c1).state;
    assert s1.m[r].dupClock == DUP_TICKS && s1.m[r].dupCounter == c1;
    ClockRunsDown(s1, ops, src, r);
  }

  /** One packet: its source, known or entered now, has its counter and three ticks from then on, and nobody
      else's are touched; it is a duplicate when the source had that counter with a tick left. With an
      unknown source and no free slot nothing changes. */
  lemma PacketChecked(s: DupState, hand: nat, src: U16, counter: U8)
    requires |s.m| > 0 && hand <= |s.m|
    ensures var r, ref := CheckDups(s, hand, src, counter), ByShort(s.m, hand, src, true).ref;
      if FindShort(s.m, src).None? && AllUsed(s.m) then r == Check(s, false)
      else
        && ref.Some? && (FindShort(s.m, src).Some? ==> ref == FindShort(s.m, src))
        && var i, e := ref.value, s.m[ref.value];
        && (r.isDup <==> e.dupClock != 0 && e.dupCounter == counter)
        && r.state.m[i].used && r.state.m[i].addr == src && r.state.m[i].dupCounter == counter && r.state.m[i].dupClock == 3
        && (src != 0xFFFF ==> FindShort(r.state.m, src) == ref)
        && r.state.running && r.state.alarms == (if s.running then s.alarms else s.alarms + 1)
        && forall j :: 0 <= j < |s.m| && j != i ==>
             r.state.m[j].dupCounter == s.m[j].dupCounter && r.state.m[j].dupClock == s.m[j].dupClock
  {
    ByShortLooksUp(s.m, hand, src, true, false);
    StepKeepsClocks(s.m, OpByShort(src, true, hand));
    var found, t := ByShort(s.m, hand, src, true), CheckDups(s, hand, src, counter).state;
    SameShortFound(found.map', t.m, src, 0);
    if FindShort(s.m, src).Some? {
      SameShortFound(s.m, found.map', src, 0);
    }
  }

  /** So a packet that follows another one of the same source is a duplicate exactly when the counters are
      equal, whether or not the source was known before. */
  lemma NextIsDupIff(s: DupState, hand: nat, src: U16, c1: U8, hand2: nat, c2: U8)
    requires |s.m| > 0 && hand <= |s.m| && hand2 <= |s.m| && src != NO_SHORT
    requires FindShort(s.m, src).Some? || !AllUsed(s.m)
    ensures CheckDups(CheckDups(s, hand, src, c1).state, hand2, src, c2).isDup <==> c1 == c2
  {
    PacketChecked(s, hand, src, c1);
    PacketChecked(CheckDups(s, hand, src, c1).state, hand2, src, c2);
  }

  /** A source never heard of before is not mistaken for a duplicate. The address 0xFFFF, which means
      that there is none, is such a source every time. */
  lemma FirstPacketIsNotDup(s: DupState, hand: nat, src: U16, counter: U8)
    requires Inv(s) && hand <= |s.m| && FindShort(s.m, src).None?
    ensures !CheckDups(s, hand, src, counter).isDup
  {
    TickKeepsKeys(s.m, hand);
  }

  /** Packets from 0xFFFF are therefore never found to repeat, and each of them takes a slot of the
      address table while there is one. */
  lemma NoShortNeverRepeats(s: DupState, hand: nat, counter: U8)
    requires Inv(s) && hand <= |s.m|
    ensures var r := CheckDups(s, hand, NO_SHORT, counter);
      !r.isDup && |UsedSlots(r.state.m)| == |UsedSlots(s.m)| + if FirstFree(s.m, 0).Some? then 1 else 0
  {
    assert FindShort(s.m, NO_SHORT).None?;
    FirstPacketIsNotDup(s, hand, NO_SHORT, counter);
    var a := Add(s.m, hand, None, NO_SHORT);
    if a.ref.Some? {
      AddUsesOneMore(s.m, hand, None, NO_SHORT);
      UsedUnchanged(a.map', CheckDups(s, hand, NO_SHORT, counter).state.m);
    }
  }

  /** Without the invariant, which deletion of an address can break, a new source inherits whatever the
      reused slot still held: exactly then is its first packet dropped. */
  lemma FirstPacketIsDupIff(s: DupState, hand: nat, src: U16, counter: U8, slot: nat)
    requires |s.m| > 0 && hand <= |s.m| && FindShort(s.m, src).None?
    requires FirstFree(s.m, 0) == Some(slot)
    ensures CheckDups(s, hand, src, counter).isDup <==>
            s.m[slot].dupClock != 0 && s.m[slot].dupCounter == counter
  {
    TickKeepsKeys(s.m, hand);
  }

  /** Deleting an address keeps the invariant iff its clock was off. */
  lemma DeletionKeepsInvIff(s: DupState, r: nat)
    requires Inv(s) && r < |s.m| && s.m[r].used
    ensures Inv(s.(m := Delete(s.m, r))) <==> s.m[r].dupClock == 0
  {
    var m' := Delete(s.m, r);
    assert m'[r].dupClock == s.m[r].dupClock;
    if s.m[r].dupClock == 0 && AnyTicking(s.m) {
      var i :| 0 <= i < |s.m| && Ticking(s.m[i]);
      assert Ticking(m'[i]);
    }
  }

  /** An update keeps the invariant iff it evicts no entry whose clock is on. */
  lemma UpdateKeepsInvIff(s: DupState, c: Compressed, a: U16, hand: nat)
    requires Inv(s) && Legal(s.m, OpUpdate(c, a, hand))
    ensures Inv(s.(m := Step(s.m, OpUpdate(c, a, hand)))) <==> Harmless(s.m, OpUpdate(c, a, hand))
  {
    var op := OpUpdate(c, a, hand);
    if Harmless(s.m, op) {
      OtherKeepsInv(s, op);
    } else {
      var i := Loser(s.m, c, a).value;
      var m' := Step(s.m, op);
      assert i != Kept(s.m, c, a);
      assert !m'[i].used && m'[i].dupClock == s.m[i].dupClock;
    }
  }

  /** A concrete run: 5 sends counter 7, its address is deleted, and the very first packet of 9,
      which happens to carry counter 7, is dropped. */
  lemma ReusedSlotDropsNewSource()
    ensures var s0 := DupState([FREE_ENTRY], false, 0);
            var s1 := CheckDups(s0, 0, 5, 7).state;
            s1.m[0].used && CheckDups(s1.(m := Delete(s1.m, 0)), 0, 9, 7).isDup
  {
    var s0 := DupState([FREE_ENTRY], false, 0);
    assert FindShort(s0.m, 5).None? && FirstFree(s0.m, 0) == Some(0);
    TickKeepsKeys(s0.m, 0);
    var s1 := CheckDups(s0, 0, 5, 7).state;
    var s2 := s1.(m := Delete(s1.m, 0));
    assert FindShort(s2.m, 9).None? && FirstFree(s2.m, 0) == Some(0);
    FirstPacketIsDupIff(s2, 0, 9, 7, 0);
  }

  // ---------- Quiet runs stop the alarm ----------

  predicate AnyPacket(ops: seq<DupOp>) {
    exists k :: 0 <= k < |ops| && ops[k].Packet?
  }

  ghost predicate ClocksAtMost(m: seq<Entry>, n: nat) {
    forall i :: 0 <= i < |m| ==> m[i].dupClock <= n
  }

  lemma {:induction false} QuietClocks(s: DupState, ops: seq<DupOp>, n: nat)
    requires Inv(s) && AllowedRun(s, ops) && !AnyPacket(ops) && ClocksAtMost(s.m, n)
    ensures Fires(ops) <= n
    ensures ClocksAtMost(PerformAll(s, ops).m, n - Fires(ops))
    decreases |ops|
  {
    if ops != [] {
      PerformKeepsInv(s, ops[0]);
      var t := Perform(s, ops[0]);
      match ops[0] {
        case AlarmFires =>
          assert n > 0 by {
            var i :| 0 <= i < |s.m| && Ticking(s.m[i]);
          }
          assert ClocksAtMost(t.m, n - 1);
        case Other(op) => StepKeepsClocks(s.m, op);
      }
      assert !AnyPacket(ops[1..]) by {
        assert forall k :: 0 <= k < |ops[1..]| ==> ops[1..][k] == ops[k + 1];
      }
      QuietClocks(t, ops[1..], if ops[0].AlarmFires? then n - 1 else n);
    }
  }

  /** With no packets coming in, the alarm fires at most three times more; by the third all clocks
      are off and no alarm is left pending. */
  lemma QuietRunStops(s: DupState, ops: seq<DupOp>)
    requires Inv(s) && AllowedRun(s, ops) && !AnyPacket(ops)
    ensures Fires(ops) <= 3
    ensures Fires(ops) == 3 ==>
              var t := PerformAll(s, ops);
              ClocksAtMost(t.m, 0) && !t.running && t.alarms == 0
  {
    assert ClocksAtMost(s.m, DUP_TICKS);
    QuietClocks(s, ops, DUP_TICKS);
    RunKeepsInv(s, ops);
  }

  // ---------- The callbacks, in place ----------

  /** The first i entries aged. */
  function AgedUpTo(m: seq<Entry>, i: nat): (m': seq<Entry>)
    ensures |m'| == |m|
  {
    seq(|m|, j requires 0 <= j < |m| => if j < i then Aged(m[j]) else m[j])
  }

  /** Is any of the first i entries still ticking after being aged? */
  predicate StillOn(m: seq<Entry>, i: nat)
    requires i <= |m|
  {
    exists j :: 0 <= j < i && Ticking(Aged(m[j]))
  }

  lemma AgeStep(m: seq<Entry>, i: nat)
    requires i < |m|
    ensures AgedUpTo(m, i)[i] == m[i]
    ensures AgedUpTo(m, i + 1) == AgedUpTo(m, i)[i := Aged(m[i])]
    ensures StillOn(m, i + 1) <==> StillOn(m, i) || Ticking(Aged(m[i]))
  {
  }

  /** A scan that has met all used entries has aged everything there is to age. */
  lemma AgedAll(m: seq<Entry>, i: nat)
    requires i <= |m| && |UsedBetween(m, 0, i)| >= |UsedSlots(m)|
    ensures AgedUpTo(m, i) == AgeAll(m)
    ensures AnyTicking(AgeAll(m)) <==> StillOn(m, i)
  {
    AllUsedSeen(m, UsedBetween(m, 0, i));
    forall j: nat | i <= j < |m| ensures !m[j].used {
      assert j !in UsedBetween(m, 0, i);
    }
    assert forall j :: 0 <= j < |m| ==> AgeAll(m)[j] == Aged(m[j]);
  }

  lemma ScanInBounds(m: seq<Entry>, i: nat)
    requires i <= |m| && |UsedBetween(m, 0, i)| < |UsedSlots(m)|
    ensures i < |m|
  {
    assert UsedBetween(m, 0, |m|) == UsedSlots(m);
  }

  lemma AgeingKeepsTable(m: seq<Entry>, s: seq<nat>)
    requires Indexed(m, s) && UniqueKeys(m)
    ensures Indexed(AgeAll(m), s) && UniqueKeys(AgeAll(m))
    ensures UsedSlots(AgeAll(m)) == UsedSlots(m)
  {
    OrderKept(m, AgeAll(m), s);
    OneChangeKeepsUnique(m, AgeAll(m), |m|);
  }

  /** dups_alarm_running with the table it guards. */
  class DupDetector {
    const table: AddressTable
    var running: bool
    var alarms: nat

    ghost predicate Valid()
      reads this, table, table.entries, table.sorted
    {
      table.Valid()
    }

    ghost function State(): DupState
      reads this, table, table.entries
    {
      DupState(table.Map(), running, alarms)
    }

    constructor (t: AddressTable)
      requires t.Valid()
      ensures Valid() && table == t && State() == DupState(t.Map(), false, 0)
    {
      table, running, alarms := t, false, 0;
    }

    /** The entry of a source, made if there is none; it is not locked. */
    method SourceEntry(src: U16) returns (ref: Option<nat>)
      requires Valid()
      modifies table, table.entries, table.sorted
      ensures Valid() && AddResult(table.Map(), ref) == ByShort(old(table.Map()), old(table.clockI), src, true)
    {
      ref := table.ByShortAddr(src, true, false);
    }

    /** aps_check_dups. */
    method CheckPacket(src: U16, counter: U8) returns (isDup: bool)
      requires Valid()
      modifies this, table, table.entries, table.sorted
      ensures Valid()
      ensures Check(State(), isDup) == CheckDups(old(State()), old(table.clockI), src, counter)
    {
      isDup := false;
      var ref := SourceEntry(src);
      if ref.Some? {
        var e := table.entries[ref.value];
        isDup := e.dupClock != 0 && e.dupCounter == counter;
        table.SetBookkeeping(ref.value, e.(dupCounter := counter, dupClock := DUP_TICKS));
        if !running {
          running := true;
          alarms := alarms + 1;
        }
      }
    }

    /** One entry: an active clock loses a tick. */
    method AgeEntry(i: nat) returns (used: bool, ticking: bool)
      requires i < table.entries.Length
      modifies table.entries
      ensures table.Map() == old(table.Map())[i := Aged(old(table.Map())[i])]
      ensures used == old(table.Map())[i].used && ticking == Ticking(table.Map()[i])
    {
      assert table.entries[i] == table.Map()[i];
      used, ticking := table.entries[i].used, false;
      if used && table.entries[i].dupClock > 0 {
        table.entries[i] := table.entries[i].(dupClock := table.entries[i].dupClock - 1);
        ticking := table.entries[i].dupClock != 0;
      }
      assert table.entries[i] == Aged(old(table.Map())[i]);
    }

    /** The loop of the timer callback: it counts used entries up to n_elements with no bound on
        the index, which stays in the table because n_elements is the number of used slots. */
    method AgeLoop() returns (on: bool)
      requires table.size == table.entries.Length && table.nElements == |UsedSlots(table.Map())|
      modifies table.entries
      ensures table.Map() == AgeAll(old(table.Map())) && (on <==> AnyTicking(table.Map()))
    {
      ghost var m := table.Map();
      on := false;
      var i, n := 0, 0;
      while n < table.nElements
        invariant i <= table.size == |m|
        invariant n == |UsedBetween(m, 0, i)|
        invariant table.Map() == AgedUpTo(m, i)
        invariant on <==> StillOn(m, i)
        decreases table.size - i
      {
        ScanInBounds(m, i);
        UsedBetweenStep(m, 0, i);
        AgeStep(m, i);
        var used, ticking := AgeEntry(i);
        n := if used then n + 1 else n;
        on := on || ticking;
        i := i + 1;
      }
      AgedAll(m, i);
    }

    /** The table stays valid under it. */
    method AgeEntries() returns (on: bool)
      requires Valid()
      modifies table.entries
      ensures Valid() && table.Map() == AgeAll(old(table.Map()))
      ensures on <==> AnyTicking(table.Map())
    {
      AgeingKeepsTable(table.Map(), table.Index());
      on := AgeLoop();
    }

    /** zb_aps_check_timer_cb. */
    method TimerCallback()
      requires Valid() && alarms > 0
      modifies this, table.entries
      ensures Valid() && State() == Fire(old(State()))
    {
      alarms := alarms - 1;
      running := AgeEntries();
      if running {
        alarms := alarms + 1;
      }
    }
  }
}
