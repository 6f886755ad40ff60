/** What becomes of each frame of a retransmission run: it is in one slot or was reported once, and
    without an acknowledgement it is given up at a definite alarm, whatever else goes on. */
module ApsOutcomes {
  import opened Prelude
  import opened ApsFrames
  import opened ApsRetransmission
  import opened ApsKeys

  // ---------- What a step finishes ----------

  datatype End = End(slot: nat, status: Status, freed: bool)

  /** The slot a step finishes, if it finishes one. */
  ghost function Ends(s: State, op: Op): (e: Option<End>)
    requires |s.slots| == SLOTS && Legal(s, op)
    ensures e.Some? ==> e.value.slot < SLOTS
  {
    match op
    case NwkConfirm(buf) =>
      var i := FindBuf(s.slots, buf, 0);
      if i < SLOTS && s.slots[i].phase == SentAcked then Some(End(i, Acked, false)) else None
    case AckFrameIn(a) =>
      var i := FindAck(s.slots, a, 0);
      if i < SLOTS && s.slots[i].phase == Confirmed then Some(End(i, Acked, AckFormat(a.fc) == 1)) else None
    case Alarm(i) =>
      if s.slots[i].phase == Confirmed && s.slots[i].retries <= 1 then Some(End(i, NoAck, false)) else None
    case _ => None
  }

  /** The slot x becomes y without changing hands. */
  ghost predicate Stays(x: Slot, y: Slot) {
    (x.phase == Free <==> y.phase == Free) && (x.phase != Free ==> y.number == x.number && y.buf == x.buf)
  }

  /** From s to t, slot `filled` (if any) took a new frame, slot `e` (if any) ended and was logged, and the
      others kept what they had. */
  ghost predicate Moved(s: State, t: State, filled: Option<nat>, e: Option<End>) {
    && |t.slots| == |s.slots|
    && (e.Some? ==> e.value.slot < |s.slots| && s.slots[e.value.slot].phase != Free)
    && (forall j :: 0 <= j < |s.slots| ==>
          if e.Some? && j == e.value.slot then t.slots[j].phase == Free
          else if filled == Some(j) then s.slots[j].phase == Free && t.slots[j].phase == Sent && t.slots[j].number == s.sent
          else Stays(s.slots[j], t.slots[j]))
    && t.log == s.log + if e.Some? then [Logged(s, e.value)] else []
  }

  ghost function Logged(s: State, e: End): Outcome
    requires e.slot < |s.slots|
  {
    Outcome(s.slots[e.slot].number, s.slots[e.slot].buf, e.status, e.freed)
  }

  ghost function Filled(s: State, op: Op): Option<nat>
    requires |s.slots| == SLOTS && Legal(s, op)
  {
    if op.Request? then Some(FirstFree(s.slots, 0)) else None
  }

  lemma SendMoves(s: State, r: DataReq, buf: U8)
    requires Inv(s) && Legal(s, Request(r, buf))
    ensures Moved(s, Send(s, r, buf), Some(FirstFree(s.slots, 0)), None) && Send(s, r, buf).sent == s.sent + 1
  {
    assert FirstFree(s.slots, 0) < SLOTS - 1;
  }

  lemma SlotEnds(s: State, t: State, e: End, x: Slot)
    requires e.slot < |s.slots| && s.slots[e.slot].phase != Free && x.phase == Free
    requires t.slots == s.slots[e.slot := x] && t.log == s.log + [Logged(s, e)]
    ensures Moved(s, t, None, Some(e))
  {
  }

  lemma SlotKeeps(s: State, t: State, i: nat, x: Slot)
    requires i < |s.slots| && Stays(s.slots[i], x) && t.slots == s.slots[i := x] && t.log == s.log
    ensures Moved(s, t, None, None)
  {
    assert s.log + [] == s.log;
  }

  lemma ConfirmMoves(s: State, buf: U8)
    requires Inv(s) && Legal(s, NwkConfirm(buf))
    ensures Moved(s, Confirm(s, buf), None, Ends(s, NwkConfirm(buf))) && Confirm(s, buf).sent == s.sent
  {
    ConfirmFindsSlot(s, buf);
    var i := FindBuf(s.slots, buf, 0);
    if s.slots[i].phase == SentAcked {
      SlotEnds(s, Confirm(s, buf), End(i, Acked, false), Freed(s.slots[i]));
    } else {
      SlotKeeps(s, Confirm(s, buf), i, s.slots[i].(phase := Confirmed));
    }
  }

  lemma AckMoves(s: State, a: Header)
    requires Inv(s) && Legal(s, AckFrameIn(a))
    ensures Moved(s, Ack(s, a), None, Ends(s, AckFrameIn(a))) && Ack(s, a).sent == s.sent
  {
    var i := FindAck(s.slots, a, 0);
    if i == |s.slots| {
      assert s.log + [] == s.log;
    } else if s.slots[i].phase == Sent {
      SlotKeeps(s, Ack(s, a), i, s.slots[i].(phase := SentAcked));
    } else {
      SlotEnds(s, Ack(s, a), End(i, Acked, AckFormat(a.fc) == 1), Freed(s.slots[i]));
    }
  }

  lemma TimerMoves(s: State, i: nat)
    requires Inv(s) && Legal(s, Alarm(i))
    ensures Moved(s, Timer(s, i), None, Ends(s, Alarm(i))) && Timer(s, i).sent == s.sent
  {
    assert s.alarms[i] == 1;
    var x := s.slots[i];
    if x.phase == Confirmed && x.retries <= 1 {
      TimerGivesUp(s, i);
      TwiceUpdated(s.slots, i, Tick(x), Freed(Tick(x)));
      SlotEnds(s, Timer(s, i), End(i, NoAck, false), Freed(Tick(x)));
    } else {
      TimerKeepsAlarm(s, i);
      SlotKeeps(s, Timer(s, i), i, AfterAlarm(x));
    }
  }

  /** Every step fills at most one slot, with the next frame, ends at most one, with one entry in the
      log, and leaves all others to their frames. */
  lemma StepMoves(s: State, op: Op)
    requires Inv(s) && Legal(s, op)
    ensures Moved(s, Step(s, op), Filled(s, op), Ends(s, op))
    ensures Step(s, op).sent == s.sent + if op.Request? || op.OtherFrame? then 1 else 0
  {
    match op
    case Request(r, buf) => SendMoves(s, r, buf);
    case OtherFrame =>
    case NwkConfirm(buf) => ConfirmMoves(s, buf);
    case AckFrameIn(a) => AckMoves(s, a);
    case Alarm(i) => TimerMoves(s, i);
  }

  // ---------- Once each ----------

  /** The log entries of frame n. */
  function Reports(log: seq<Outcome>, n: nat): seq<Outcome> {
    if log == [] then []
    else
      var o := log[|log| - 1];
      Reports(log[..|log| - 1], n) + if o.Outcome? && o.number == n then [o] else []
  }

  lemma ReportsOne(log: seq<Outcome>, o: Outcome, n: nat)
    ensures Reports(log + [o], n) == Reports(log, n) + if o.Outcome? && o.number == n then [o] else []
  {
    assert (log + [o])[..|log|] == log;
  }

  ghost predicate Holds(s: State, i: nat, n: nat) {
    i < |s.slots| && s.slots[i].phase != Free && s.slots[i].number == n
  }

  ghost predicate InASlot(s: State, n: nat) {
    exists i :: Holds(s, i, n)
  }

  /** Of the frames that asked for an acknowledgement, each is in one slot and not reported, or in none
      and reported once; and of other frames there is no trace. */
  ghost predicate Accounted(s: State, frames: set<nat>) {
    && (forall n :: n in frames ==> n < s.sent)
    && (forall i :: 0 <= i < |s.slots| && s.slots[i].phase != Free ==> s.slots[i].number in frames)
    && OwnNumbers(s.slots)
    && forall n: nat :: |Reports(s.log, n)| == if n in frames && !InASlot(s, n) then 1 else 0
  }

  /** Who is in a slot after the step: those who were, less the one that ended, and the new one. */
  lemma WhoIsIn(s: State, t: State, filled: Option<nat>, e: Option<End>, n: nat)
    requires Moved(s, t, filled, e) && OwnNumbers(s.slots)
    requires filled.Some? ==> filled.value < |s.slots| && e.None?
    ensures InASlot(t, n) <==>
      (InASlot(s, n) && !(e.Some? && s.slots[e.value.slot].number == n)) || (filled.Some? && n == s.sent)
  {
    if i: nat :| Holds(t, i, n) {
      if filled != Some(i) {
        assert Holds(s, i, n);
        assert e.Some? ==> !SameFrame(s.slots, i, e.value.slot) && !SameFrame(s.slots, e.value.slot, i);
      }
    }
    if i: nat :| Holds(s, i, n) && !(e.Some? && s.slots[e.value.slot].number == n) {
      assert Holds(t, i, n);
    }
    if filled.Some? && n == s.sent {
      assert Holds(t, filled.value, n);
    }
  }

  lemma StepAccounts(s: State, op: Op, frames: set<nat>)
    requires Inv(s) && Legal(s, op) && Accounted(s, frames)
    ensures Accounted(Step(s, op), if op.Request? then frames + {s.sent} else frames)
  {
    StepMoves(s, op);
    MovedAccounts(s, Step(s, op), Filled(s, op), Ends(s, op), frames);
  }

  lemma MovedKeepsNumbers(s: State, t: State, filled: Option<nat>, e: Option<End>)
    requires OwnNumbers(s.slots) && Moved(s, t, filled, e)
    requires forall i :: 0 <= i < |s.slots| && s.slots[i].phase != Free ==> s.slots[i].number < s.sent
    ensures OwnNumbers(t.slots)
  {
    forall i, j ensures !SameFrame(t.slots, i, j) {
      assert !SameFrame(s.slots, i, j);
    }
  }

  lemma MovedAccounts(s: State, t: State, filled: Option<nat>, e: Option<End>, frames: set<nat>)
    requires Accounted(s, frames) && Moved(s, t, filled, e) && t.sent >= s.sent
    requires filled.Some? ==> filled.value < |s.slots| && e.None? && t.sent == s.sent + 1
    ensures Accounted(t, if filled.Some? then frames + {s.sent} else frames)
  {
    var frames' := if filled.Some? then frames + {s.sent} else frames;
    MovedKeepsNumbers(s, t, filled, e);
    forall n: nat ensures |Reports(t.log, n)| == if n in frames' && !InASlot(t, n) then 1 else 0 {
      WhoIsIn(s, t, filled, e, n);
      if e.Some? {
        ReportsOne(s.log, Logged(s, e.value), n);
        assert s.slots[e.value.slot].number == n ==> Holds(s, e.value.slot, n);
      } else {
        assert s.log + [] == s.log;
      }
    }
  }

  /** The numbers of the frames requested in a run. */
  ghost function Requested(s: State, ops: seq<Op>): set<nat>
    requires |s.slots| == SLOTS && LegalRun(s, ops)
    decreases |ops|
  {
    if ops == [] then {}
    else (if ops[0].Request? then {s.sent} else {}) + Requested(Step(s, ops[0]), ops[1..])
  }

  lemma {:induction false} RunAccounts(s: State, ops: seq<Op>, frames: set<nat>)
    requires Inv(s) && LegalRun(s, ops) && Accounted(s, frames)
    ensures Accounted(Run(s, ops), frames + Requested(s, ops))
    decreases |ops|
  {
    if ops == [] {
      assert frames + Requested(s, ops) == frames;
    } else {
      StepKeepsInv(s, ops[0]);
      StepAccounts(s, ops[0], frames);
      RunAccounts(Step(s, ops[0]), ops[1..], if ops[0].Request? then frames + {s.sent} else frames);
      RequestedFirst(s, ops, frames);
    }
  }

  lemma RequestedFirst(s: State, ops: seq<Op>, frames: set<nat>)
    requires |s.slots| == SLOTS && ops != [] && Legal(s, ops[0]) && LegalRun(Step(s, ops[0]), ops[1..])
    ensures frames + Requested(s, ops)
         == (if ops[0].Request? then frames + {s.sent} else frames) + Requested(Step(s, ops[0]), ops[1..])
  {
  }

  /** Each occupancy finishes exactly once: in every legal run from the initial table, a requested frame
      is in one slot or in the log, there once, and no other frame is in either. */
  lemma OnceEach(s0: State, ops: seq<Op>, n: nat)
    requires Initial(s0) && LegalRun(s0, ops)
    ensures var s := Run(s0, ops);
      && OwnNumbers(s.slots)
      && (InASlot(s, n) ==> n in Requested(s0, ops))
      && |Reports(s.log, n)| == if n in Requested(s0, ops) && !InASlot(s, n) then 1 else 0
  {
    InitialInv(s0);
    assert Accounted(s0, {});
    RunAccounts(s0, ops, {});
    assert {} + Requested(s0, ops) == Requested(s0, ops);
  }

  // ---------- Giving up, whatever else goes on ----------

  /** No acknowledgement in the run is applied to slot i while it holds frame n. */
  ghost predicate Unacked(s: State, ops: seq<Op>, i: nat, n: nat)
    requires |s.slots| == SLOTS && LegalRun(s, ops)
    decreases |ops|
  {
    ops != [] ==>
      && !(ops[0].AckFrameIn? && Holds(s, i, n) && FindAck(s.slots, ops[0].a, 0) == i)
      && Unacked(Step(s, ops[0]), ops[1..], i, n)
  }

  /** The alarm of slot i finds frame n there, confirmed by the network layer. */
  ghost predicate FindsConfirmed(s: State, op: Op, i: nat, n: nat) {
    op == Alarm(i) && Holds(s, i, n) && s.slots[i].phase == Confirmed
  }

  /** How many alarms of the run do. */
  ghost function ConfirmedAlarms(s: State, ops: seq<Op>, i: nat, n: nat): nat
    requires |s.slots| == SLOTS && LegalRun(s, ops)
    decreases |ops|
  {
    if ops == [] then 0
    else (if FindsConfirmed(s, ops[0], i, n) then 1 else 0) + ConfirmedAlarms(Step(s, ops[0]), ops[1..], i, n)
  }

  /** The alarm of slot i finds frame n there. */
  ghost predicate FindsFrame(s: State, op: Op, i: nat, n: nat) {
    op == Alarm(i) && Holds(s, i, n)
  }

  /** How many alarms of the run find frame n in slot i but not confirmed, and take one of several tries
      away from it; `tries` counts those left. The last try is never lost like that. */
  ghost function Wasted(s: State, ops: seq<Op>, i: nat, n: nat, tries: nat): nat
    requires |s.slots| == SLOTS && LegalRun(s, ops)
    decreases |ops|
  {
    if ops == [] then 0
    else
      (if FindsFrame(s, ops[0], i, n) && s.slots[i].phase != Confirmed && tries > 1 then 1 else 0)
      + Wasted(Step(s, ops[0]), ops[1..], i, n, if FindsFrame(s, ops[0], i, n) && tries > 0 then tries - 1 else tries)
  }

  ghost predicate Waits(x: Slot) {
    x.phase == Sent || x.phase == Confirmed
  }

  /** y is x, possibly confirmed meanwhile. */
  ghost predicate StillWaits(x: Slot, y: Slot) {
    y == x || y == x.(phase := Confirmed)
  }

  lemma SlotAfterConfirm(s: State, buf: U8, i: nat)
    requires Inv(s) && buf in s.nwk && i < SLOTS && Waits(s.slots[i])
    ensures StillWaits(s.slots[i], Confirm(s, buf).slots[i])
  {
    ConfirmFindsSlot(s, buf);
  }

  lemma SlotAfterAck(s: State, a: Header, i: nat)
    requires i < |s.slots| && FindAck(s.slots, a, 0) != i
    ensures Ack(s, a).slots[i] == s.slots[i]
  {
  }

  /** Everything but its own alarm and acknowledgement leaves a waiting frame as it is. */
  lemma OtherStepsWait(s: State, op: Op, i: nat)
    requires Inv(s) && Legal(s, op) && i < SLOTS && Waits(s.slots[i])
    requires op != Alarm(i) && !(op.AckFrameIn? && FindAck(s.slots, op.a, 0) == i)
    ensures StillWaits(s.slots[i], Step(s, op).slots[i])
  {
    match op
    case Request(r, buf) => assert FirstFree(s.slots, 0) != i;
    case OtherFrame =>
    case NwkConfirm(buf) => SlotAfterConfirm(s, buf, i);
    case AckFrameIn(a) => SlotAfterAck(s, a, i);
    case Alarm(j) =>
  }

  /** Its own alarm takes one try, and sends it again if it was confirmed; with the last try gone, the
      frame is given up. */
  lemma OwnAlarm(s: State, i: nat)
    requires Inv(s) && Legal(s, Alarm(i)) && Waits(s.slots[i])
    ensures var x, t := s.slots[i], Timer(s, i);
      if x.phase == Confirmed && x.retries <= 1 then
        t.slots[i].phase == Free && t.log == s.log + [Outcome(x.number, x.buf, NoAck, false)]
      else
        var again := x.phase == Confirmed;
        t.slots[i] == Slot(Sent, x.key, x.buf, if x.retries > 0 then x.retries - 1 else 0, x.number,
                           if again then x.repeats + 1 else x.repeats)
  {
    assert s.alarms[i] == 1;
    if s.slots[i].phase == Confirmed && s.slots[i].retries <= 1 {
      TimerGivesUp(s, i);
    } else {
      TimerKeepsAlarm(s, i);
    }
  }

  /** A frame that is in no slot any more stays as it was reported. */
  lemma {:induction false} GoneStaysGone(s: State, ops: seq<Op>, i: nat, n: nat, frames: set<nat>, tries: nat)
    requires Inv(s) && LegalRun(s, ops) && Accounted(s, frames) && n in frames && !InASlot(s, n)
    ensures !InASlot(Run(s, ops), n) && Reports(Run(s, ops).log, n) == Reports(s.log, n)
    ensures ConfirmedAlarms(s, ops, i, n) == 0 && Wasted(s, ops, i, n, tries) == 0
    decreases |ops|
  {
    if ops != [] {
      var op := ops[0];
      StepKeepsInv(s, op);
      StepAccounts(s, op, frames);
      GoneStep(s, op, n, frames);
      GoneStaysGone(Step(s, op), ops[1..], i, n, if op.Request? then frames + {s.sent} else frames, tries);
      assert !Holds(s, i, n);
    }
  }

  lemma GoneStep(s: State, op: Op, n: nat, frames: set<nat>)
    requires Inv(s) && Legal(s, op) && Accounted(s, frames) && n in frames && !InASlot(s, n)
    ensures !InASlot(Step(s, op), n) && Reports(Step(s, op).log, n) == Reports(s.log, n)
  {
    StepMoves(s, op);
    var e := Ends(s, op);
    assert e.Some? ==> !Holds(s, e.value.slot, n);
    WhoIsIn(s, Step(s, op), Filled(s, op), e, n);
    OthersReports(s, Step(s, op), Filled(s, op), e, n);
  }

  lemma OthersReports(s: State, t: State, filled: Option<nat>, e: Option<End>, n: nat)
    requires Moved(s, t, filled, e) && !(e.Some? && s.slots[e.value.slot].number == n)
    ensures Reports(t.log, n) == Reports(s.log, n)
  {
    if e.Some? {
      ReportsOne(s.log, Logged(s, e.value), n);
    } else {
      assert s.log + [] == s.log;
    }
  }

  /** Of the tries of x, `found` were used by alarms that found it confirmed and `wasted` lost; while some
      are left it is in slot i of t, sent again at each of the former and unreported, else it was reported
      once, as not acknowledged. */
  ghost predicate TriesAddUp(x: Slot, t: State, i: nat, found: nat, wasted: nat) {
    && found + wasted <= AtLeastOne(x.retries)
    && (if found + wasted < AtLeastOne(x.retries)
        then Holds(t, i, x.number) && t.slots[i].repeats == x.repeats + found
             && Waits(t.slots[i]) && Reports(t.log, x.number) == []
        else !InASlot(t, x.number) && found > 0
             && Reports(t.log, x.number) == [Outcome(x.number, x.buf, NoAck, false)])
  }

  lemma CountsFirst(s: State, ops: seq<Op>, i: nat, n: nat, tries: nat)
    requires |s.slots| == SLOTS && ops != [] && Legal(s, ops[0]) && LegalRun(Step(s, ops[0]), ops[1..])
    ensures var op, t, found := ops[0], Step(s, ops[0]), FindsFrame(s, ops[0], i, n);
      && ConfirmedAlarms(s, ops, i, n)
         == ConfirmedAlarms(t, ops[1..], i, n) + (if FindsConfirmed(s, op, i, n) then 1 else 0)
      && Wasted(s, ops, i, n, tries)
         == Wasted(t, ops[1..], i, n, if found && tries > 0 then tries - 1 else tries)
            + if found && !FindsConfirmed(s, op, i, n) && tries > 1 then 1 else 0
  {
  }

  /** The first step gives it up. */
  lemma GivenUpAddsUp(s: State, ops: seq<Op>, i: nat, frames: set<nat>)
    requires Inv(s) && LegalRun(s, ops) && Accounted(s, frames) && i < SLOTS && Waits(s.slots[i])
    requires ops != [] && FindsConfirmed(s, ops[0], i, s.slots[i].number) && s.slots[i].retries <= 1
    ensures var x := s.slots[i];
      TriesAddUp(x, Run(s, ops), i, ConfirmedAlarms(s, ops, i, x.number), Wasted(s, ops, i, x.number, x.retries))
  {
    var x, t := s.slots[i], Step(s, ops[0]);
    StepKeepsInv(s, ops[0]);
    StepAccounts(s, ops[0], frames);
    GivenUp(s, ops[0], i, frames);
    CountsFirst(s, ops, i, x.number, x.retries);
    GoneStaysGone(t, ops[1..], i, x.number, frames, if x.retries > 0 then x.retries - 1 else 0);
  }

  /** The first step leaves it waiting. */
  lemma LaterAddsUp(s: State, ops: seq<Op>, i: nat)
    requires Inv(s) && LegalRun(s, ops) && i < SLOTS && Waits(s.slots[i])
    requires ops != [] && !(ops[0].AckFrameIn? && FindAck(s.slots, ops[0].a, 0) == i)
    requires !(FindsConfirmed(s, ops[0], i, s.slots[i].number) && s.slots[i].retries <= 1)
    requires var t := Step(s, ops[0]); var y := t.slots[i];
      TriesAddUp(y, Run(t, ops[1..]), i, ConfirmedAlarms(t, ops[1..], i, y.number), Wasted(t, ops[1..], i, y.number, y.retries))
    ensures var x := s.slots[i];
      TriesAddUp(x, Run(s, ops), i, ConfirmedAlarms(s, ops, i, x.number), Wasted(s, ops, i, x.number, x.retries))
  {
    var x, t := s.slots[i], Step(s, ops[0]);
    var y := t.slots[i];
    assert FindsFrame(s, ops[0], i, x.number) == (ops[0] == Alarm(i)) by {
      assert Holds(s, i, x.number);
    }
    WaitsOn(s, ops[0], i);
    CountsFirst(s, ops, i, x.number, x.retries);
    OneMoreTry(x, y, Run(t, ops[1..]), i, ConfirmedAlarms(t, ops[1..], i, x.number),
               Wasted(t, ops[1..], i, x.number, y.retries), ops[0] == Alarm(i), FindsConfirmed(s, ops[0], i, x.number));
  }

  /** x lost a try if its alarm ran, and became y. */
  lemma OneMoreTry(x: Slot, y: Slot, t: State, i: nat, found: nat, wasted: nat, ran: bool, again: bool)
    requires TriesAddUp(y, t, i, found, wasted) && y.number == x.number && y.buf == x.buf
    requires y.retries == if ran && x.retries > 0 then x.retries - 1 else x.retries
    requires (again ==> ran && x.retries > 1) && y.repeats == x.repeats + if again then 1 else 0
    ensures TriesAddUp(x, t, i, found + if again then 1 else 0,
                       wasted + if ran && !again && x.retries > 1 then 1 else 0)
  {
  }

  /** Giving up, in any run: as long as no acknowledgement is applied to it, a frame is sent again at every
      alarm that finds it confirmed, and each of those takes a try, as does each but the last that finds it
      not confirmed. The alarm that takes the last one reports it. */
  lemma {:induction false} GivesUpInAnyRun(s: State, ops: seq<Op>, i: nat, frames: set<nat>)
    requires Inv(s) && LegalRun(s, ops) && Accounted(s, frames) && i < SLOTS && Waits(s.slots[i])
    requires Unacked(s, ops, i, s.slots[i].number)
    ensures var x := s.slots[i];
      TriesAddUp(x, Run(s, ops), i, ConfirmedAlarms(s, ops, i, x.number), Wasted(s, ops, i, x.number, x.retries))
    decreases |ops|
  {
    var x := s.slots[i];
    assert Holds(s, i, x.number);
    if ops == [] {
      assert Reports(s.log, x.number) == [];
    } else if FindsConfirmed(s, ops[0], i, x.number) && x.retries <= 1 {
      GivenUpAddsUp(s, ops, i, frames);
    } else {
      StepKeepsInv(s, ops[0]);
      StepAccounts(s, ops[0], frames);
      WaitsOn(s, ops[0], i);
      GivesUpInAnyRun(Step(s, ops[0]), ops[1..], i, if ops[0].Request? then frames + {s.sent} else frames);
      LaterAddsUp(s, ops, i);
    }
  }

  /** From its request on: a frame has MAX_FRAMES tries. With w of them lost to alarms before the network
      confirm, it goes out MAX_FRAMES - 1 - w times more, and the alarm that finds it confirmed for the
      (MAX_FRAMES - w)-th time gives it up. */
  lemma SentFrameGivesUp(s: State, r: DataReq, buf: U8, ops: seq<Op>, frames: set<nat>)
    requires Inv(s) && Accounted(s, frames) && Legal(s, Request(r, buf)) && LegalRun(Send(s, r, buf), ops)
    requires Unacked(Send(s, r, buf), ops, FirstFree(s.slots, 0), s.sent)
    ensures var i, u := FirstFree(s.slots, 0), Send(s, r, buf);
      var t, found, wasted := Run(u, ops), ConfirmedAlarms(u, ops, i, s.sent), Wasted(u, ops, i, s.sent, MAX_FRAMES);
      && found + wasted <= MAX_FRAMES
      && (found + wasted < MAX_FRAMES ==>
            Holds(t, i, s.sent) && t.slots[i].repeats == found && Reports(t.log, s.sent) == [])
      && (found + wasted == MAX_FRAMES ==>
            !InASlot(t, s.sent) && Reports(t.log, s.sent) == [Outcome(s.sent, buf, NoAck, false)])
  {
    var i, op := FirstFree(s.slots, 0), Request(r, buf);
    assert i < SLOTS - 1;
    SendStoresKey(s, r, buf);
    StepKeepsInv(s, op);
    StepAccounts(s, op, frames);
    GivesUpInAnyRun(Send(s, r, buf), ops, i, frames + {s.sent});
  }

  /** Such a loss: the first alarm comes before the network confirm. A try is gone, and nothing was sent
      again. */
  lemma EarlyAlarmWastesTry(s: State, r: DataReq, buf: U8)
    requires Inv(s) && Legal(s, Request(r, buf)) && MAX_FRAMES > 1
    ensures var i, u := FirstFree(s.slots, 0), Send(s, r, buf);
      && Legal(u, Alarm(i)) && Wasted(u, [Alarm(i)], i, s.sent, MAX_FRAMES) == 1
      && Timer(u, i).slots[i].retries == MAX_FRAMES - 1 && Timer(u, i).slots[i].repeats == 0
      && Timer(u, i).nwk == u.nwk
  {
    var i, op, u := FirstFree(s.slots, 0), Request(r, buf), Send(s, r, buf);
    assert i < SLOTS - 1;
    SendStoresKey(s, r, buf);
    StepKeepsInv(s, op);
    assert u.alarms[i] == 1;
    OwnAlarm(u, i);
    TimerKeepsAlarm(u, i);
    assert [Alarm(i)][1..] == [];
    assert Holds(u, i, s.sent);
  }

  /** Any other step: the frame waits on, sent again if an alarm found it confirmed, with one try less
      if its alarm ran. */
  lemma WaitsOn(s: State, op: Op, i: nat)
    requires Inv(s) && Legal(s, op) && i < SLOTS && Waits(s.slots[i])
    requires !(op.AckFrameIn? && FindAck(s.slots, op.a, 0) == i)
    requires !(FindsConfirmed(s, op, i, s.slots[i].number) && s.slots[i].retries <= 1)
    ensures var x, y := s.slots[i], Step(s, op).slots[i];
      && Waits(y) && y.number == x.number && y.buf == x.buf
      && y.repeats == x.repeats + (if FindsConfirmed(s, op, i, x.number) then 1 else 0)
      && y.retries == if op == Alarm(i) && x.retries > 0 then x.retries - 1 else x.retries
  {
    assert Holds(s, i, s.slots[i].number);
    if op == Alarm(i) { OwnAlarm(s, i); } else { OtherStepsWait(s, op, i); }
  }

  /** The alarm that uses up the last try. */
  lemma GivenUp(s: State, op: Op, i: nat, frames: set<nat>)
    requires Inv(s) && Legal(s, op) && Accounted(s, frames) && i < SLOTS
    requires op == Alarm(i) && s.slots[i].phase == Confirmed && s.slots[i].retries <= 1
    ensures var x, t := s.slots[i], Step(s, op);
      !InASlot(t, x.number) && Reports(t.log, x.number) == [Outcome(x.number, x.buf, NoAck, false)]
  {
    StepMoves(s, op);
    EndReported(s, Step(s, op), End(i, NoAck, false), frames);
  }

  lemma EndReported(s: State, t: State, e: End, frames: set<nat>)
    requires Accounted(s, frames) && Moved(s, t, None, Some(e))
    ensures var n := s.slots[e.slot].number; !InASlot(t, n) && Reports(t.log, n) == [Logged(s, e)]
  {
    var n := s.slots[e.slot].number;
    assert Holds(s, e.slot, n);
    WhoIsIn(s, t, None, Some(e), n);
    ReportsOne(s.log, Logged(s, e), n);
  }

  // ---------- Without an alarm ----------

  /** An entry whose alarm was refused is there for good: over any run that applies no acknowledgement
      to it, it is neither given up nor sent again. */
  lemma {:induction false} StuckForGood(s: State, ops: seq<Op>, i: nat)
    requires |s.slots| == SLOTS && i < SLOTS && Waits(s.slots[i]) && s.alarms[i] == 0
    requires LegalRun(s, ops) && Unacked(s, ops, i, s.slots[i].number)
    ensures var t := Run(s, ops); t.alarms[i] == 0 && StillWaits(s.slots[i], t.slots[i])
    decreases |ops|
  {
    if ops != [] {
      StuckStep(s, ops[0], i);
      StuckForGood(Step(s, ops[0]), ops[1..], i);
    }
  }

  lemma StuckStep(s: State, op: Op, i: nat)
    requires |s.slots| == SLOTS && i < SLOTS && Waits(s.slots[i]) && s.alarms[i] == 0 && Legal(s, op)
    requires !(op.AckFrameIn? && FindAck(s.slots, op.a, 0) == i)
    ensures var t := Step(s, op); t.alarms[i] == 0 && StillWaits(s.slots[i], t.slots[i])
  {
    match op
    case Request(r, buf) => assert FirstFree(s.slots, 0) < SLOTS - 1;
    case OtherFrame =>
    case NwkConfirm(buf) => StuckConfirm(s, buf, i);
    case AckFrameIn(a) => SlotAfterAck(s, a, i);
    case Alarm(j) => StuckTimer(s, j, i);
  }

  lemma StuckConfirm(s: State, buf: U8, i: nat)
    requires i < |s.slots| && Waits(s.slots[i]) && s.alarms[i] == 0
    ensures Confirm(s, buf).alarms[i] == 0 && StillWaits(s.slots[i], Confirm(s, buf).slots[i])
  {
    var k := FindBuf(s.slots, buf, 0);
    if k < |s.slots| && s.slots[k].phase == SentAcked {
      assert k != i;
    }
  }

  lemma StuckTimer(s: State, j: nat, i: nat)
    requires i < |s.slots| && j < |s.slots| && i != j && s.alarms[i] == 0
    ensures Timer(s, j).alarms[i] == 0 && Timer(s, j).slots[i] == s.slots[i]
  {
  }
}
