/** What the scheduler means: a sequence of pending alarms, a queue of immediate callbacks, and
    callbacks that may schedule and cancel while they run. */
module ScheduleModel {
  import opened Prelude
  import opened ZbTime

  datatype Alarm = Alarm(func: nat, param: U8, time: U16)

  datatype Call = Call(func: nat, param: U8)

  const ANY_PARAM: U8 := 255
  const ALL_CB: U8 := 254

  // ---------- Where an alarm goes ----------

  /** First position from i on whose time the new time is not at or after. */
  function FirstLater(s: seq<Alarm>, t: U16, i: nat): (k: nat)
    requires i <= |s|
    ensures i <= k <= |s|
    decreases |s| - i
  {
    if i == |s| || !Ge(t, s[i].time) then i else FirstLater(s, t, i + 1)
  }

  lemma {:induction false} FirstLaterFound(s: seq<Alarm>, t: U16, i: nat)
    requires i <= |s|
    ensures var k := FirstLater(s, t, i);
      (forall j :: i <= j < k ==> Ge(t, s[j].time)) && (k < |s| ==> !Ge(t, s[k].time))
    decreases |s| - i
  {
    if i < |s| && Ge(t, s[i].time) {
      FirstLaterFound(s, t, i + 1);
    }
  }

  /** The position zb_schedule_alarm inserts at. An alarm comparable with the head in neither
      direction ends up last: the predecessor of the head is the tail. */
  function Place(s: seq<Alarm>, t: U16): (k: nat)
    ensures k <= |s|
  {
    if s == [] || Ge(s[0].time, t) then 0
    else
      var k := FirstLater(s, t, 0);
      if k == 0 then |s| else k
  }

  function Insert(s: seq<Alarm>, a: Alarm): (r: seq<Alarm>)
    ensures |r| == |s| + 1
  {
    var k := Place(s, a.time);
    Spliced(s, k, a)
  }

  // ---------- Cancelling ----------

  predicate Hit(a: Alarm, func: nat, param: U8) {
    a.func == func && (param == ANY_PARAM || param == ALL_CB || param == a.param)
  }

  /** zb_schedule_alarm_cancel: the first hit goes, or with ALL_CB every hit. */
  function Cancelled(s: seq<Alarm>, func: nat, param: U8): (r: seq<Alarm>)
    ensures |r| <= |s|
  {
    if s == [] then []
    else if Hit(s[0], func, param) then
      (if param == ALL_CB then Cancelled(s[1..], func, param) else s[1..])
    else [s[0]] + Cancelled(s[1..], func, param)
  }

  /** The queue position of the first hit, or the length. */
  function FirstHit(s: seq<Alarm>, func: nat, param: U8): (i: nat)
    ensures i <= |s| && (i < |s| ==> Hit(s[i], func, param))
    ensures forall j :: 0 <= j < i ==> !Hit(s[j], func, param)
  {
    if s == [] || Hit(s[0], func, param) then 0 else 1 + FirstHit(s[1..], func, param)
  }

  /** Other than with ALL_CB, exactly the earliest match goes. */
  lemma {:induction false} CancelTakesFirst(s: seq<Alarm>, func: nat, param: U8)
    requires param != ALL_CB
    ensures var i := FirstHit(s, func, param);
            Cancelled(s, func, param) == if i == |s| then s else s[..i] + s[i + 1..]
  {
    if s != [] && !Hit(s[0], func, param) {
      CancelTakesFirst(s[1..], func, param);
      assert s == [s[0]] + s[1..];
      var i := FirstHit(s[1..], func, param);
      if i < |s| - 1 {
        WithoutBehindHead(s, i);
      }
    }
  }

  lemma WithoutBehindHead(s: seq<Alarm>, i: nat)
    requires i + 1 < |s|
    ensures [s[0]] + (s[1..][..i] + s[1..][i + 1..]) == s[..i + 1] + s[i + 2..]
  {
  }

  /** In the alarm's own fields: a parameter below 254 asks for that very parameter, 255 for any, and the
      first alarm of the function that has it goes. */
  lemma CancelRemovesFirst(s: seq<Alarm>, func: nat, param: U8, i: nat)
    requires param != 254 && i < |s| && s[i].func == func && (param == 255 || s[i].param == param)
    requires forall j :: 0 <= j < i ==> s[j].func != func || (param != 255 && s[j].param != param)
    ensures Cancelled(s, func, param) == s[..i] + s[i + 1..]
  {
    CancelTakesFirst(s, func, param);
  }

  lemma CancelMissesOthers(s: seq<Alarm>, func: nat, param: U8)
    requires forall j :: 0 <= j < |s| ==> s[j].func != func || (param < 254 && s[j].param != param)
    ensures Cancelled(s, func, param) == s
  {
    if param != ALL_CB {
      CancelTakesFirst(s, func, param);
    } else {
      NoneOfFunction(s, func);
    }
  }

  lemma {:induction false} NoneOfFunction(s: seq<Alarm>, func: nat)
    requires forall j :: 0 <= j < |s| ==> s[j].func != func
    ensures Cancelled(s, func, ALL_CB) == s
  {
    if s != [] {
      NoneOfFunction(s[1..], func);
      assert s == [s[0]] + s[1..];
    }
  }

  /** With 254 each alarm is looked at by itself, in order. */
  lemma {:induction false} CancelAllByParts(s: seq<Alarm>, rest: seq<Alarm>, func: nat)
    ensures Cancelled(s + rest, func, 254) == Cancelled(s, func, 254) + Cancelled(rest, func, 254)
    ensures |s| == 1 ==> Cancelled(s, func, 254) == if s[0].func == func then [] else s
  {
    if s == [] {
      assert s + rest == rest;
    } else {
      assert (s + rest)[1..] == s[1..] + rest;
      CancelAllByParts(s[1..], rest, func);
    }
  }

  lemma {:induction false} CancelledAreThere(s: seq<Alarm>, func: nat, param: U8)
    ensures multiset(Cancelled(s, func, param)) <= multiset(s)
  {
    if s != [] {
      assert s == [s[0]] + s[1..];
      CancelledAreThere(s[1..], func, param);
    }
  }

  /** With ALL_CB every match goes, and every other alarm stays, as often as it was there. */
  lemma {:induction false} CancelTakesAll(s: seq<Alarm>, func: nat, a: Alarm)
    ensures multiset(Cancelled(s, func, ALL_CB))[a] == if a.func == func then 0 else multiset(s)[a]
  {
    if s != [] {
      assert s == [s[0]] + s[1..];
      CancelTakesAll(s[1..], func, a);
    }
  }

  // ---------- The scheduler's state and what a callback may do to it ----------

  datatype State = State(alarms: seq<Alarm>, free: nat, calls: seq<Call>, now: U16)

  datatype Op =
    | DoCall(func: nat, param: U8)
    | SetAlarm(func: nat, param: U8, delay: U16)
    | Cancel(func: nat, param: U8)
    | Tick(delta: U16)

  /** Overflow of either queue drops the request. */
  function Apply(s: State, cap: nat, op: Op): State {
    match op
    case DoCall(f, p) => if |s.calls| >= cap then s else s.(calls := s.calls + [Call(f, p)])
    case SetAlarm(f, p, d) =>
      if s.free == 0 then s
      else s.(alarms := Insert(s.alarms, Alarm(f, p, Add(s.now, d))), free := s.free - 1)
    case Cancel(f, p) =>
      var r := Cancelled(s.alarms, f, p);
      s.(alarms := r, free := s.free + (|s.alarms| - |r|))
    case Tick(d) => s.(now := Add(s.now, d))
  }

  /** a is new, and all others keep their order. */
  ghost predicate PutIn(before: seq<Alarm>, after: seq<Alarm>, a: Alarm) {
    && (exists k :: 0 <= k <= |before| && after == Spliced(before, k, a))
    && multiset(after) == multiset(before) + multiset{a}
  }

  lemma SplicedIsPutIn(q: seq<Alarm>, k: nat, a: Alarm)
    requires k <= |q|
    ensures PutIn(q, Spliced(q, k, a), a)
  {
    SplicedIs(q, k, a);
    assert q == q[..k] + q[k..];
  }

  /** Setting an alarm queues that very function and parameter for so many ticks from now, in 16-bit time,
      while there is a free entry. */
  lemma SetAlarmQueues(s: State, cap: nat, f: nat, p: U8, d: U16)
    ensures var a, r := Alarm(f, p, (s.now + d) % 0x1_0000), Apply(s, cap, SetAlarm(f, p, d));
      if s.free == 0 then r == s
      else PutIn(s.alarms, r.alarms, a) && r == s.(alarms := r.alarms, free := s.free - 1)
  {
    if s.free > 0 {
      SplicedIsPutIn(s.alarms, Place(s.alarms, Add(s.now, d)), Alarm(f, p, Add(s.now, d)));
    }
  }

  function ApplyAll(s: State, cap: nat, ops: seq<Op>): State
    decreases |ops|
  {
    if ops == [] then s else ApplyAll(Apply(s, cap, ops[0]), cap, ops[1..])
  }

  /** Entries of the alarm pool are never lost or invented. */
  lemma {:induction false} ApplyConservesPool(s: State, cap: nat, ops: seq<Op>)
    ensures var r := ApplyAll(s, cap, ops); |r.alarms| + r.free == |s.alarms| + s.free
    decreases |ops|
  {
    if ops != [] {
      ApplyConservesPool(Apply(s, cap, ops[0]), cap, ops[1..]);
    }
  }

  // ---------- Immediate callbacks: the first loop ----------

  datatype CallRun = CallRun(state: State, ran: seq<Call>, accepted: seq<Call>)

  /** The calls among a callback's operations that find room, in order. */
  function Accepted(s: State, cap: nat, ops: seq<Op>): seq<Call>
    decreases |ops|
  {
    if ops == [] then []
    else
      var s' := Apply(s, cap, ops[0]);
      (if ops[0].DoCall? && |s.calls| < cap then [Call(ops[0].func, ops[0].param)] else [])
      + Accepted(s', cap, ops[1..])
  }

  /** The head is run before it is taken off, so it still counts while its own operations are
      applied. `env` gives what each callback run does; when it is used up the interrupt test
      has broken the loop. */
  function RunCalls(s: State, cap: nat, env: seq<seq<Op>>): CallRun
    decreases |env|
  {
    if env == [] || s.calls == [] then CallRun(s, [], [])
    else
      var s' := ApplyAll(s, cap, env[0]);
      var r := RunCalls(s'.(calls := if s'.calls == [] then [] else s'.calls[1..]), cap, env[1..]);
      CallRun(r.state, [s.calls[0]] + r.ran, Accepted(s, cap, env[0]) + r.accepted)
  }

  lemma {:induction false} ApplyAppendsCalls(s: State, cap: nat, ops: seq<Op>)
    ensures ApplyAll(s, cap, ops).calls == s.calls + Accepted(s, cap, ops)
    ensures |s.calls| <= cap ==> |ApplyAll(s, cap, ops).calls| <= cap
    decreases |ops|
  {
    if ops != [] {
      ApplyAppendsCalls(Apply(s, cap, ops[0]), cap, ops[1..]);
    }
  }

  lemma Regroup<T>(q: seq<T>, acc: seq<T>, ran: seq<T>, left: seq<T>, later: seq<T>)
    requires q != [] && ran + left == q[1..] + acc + later
    ensures [q[0]] + ran + left == q + (acc + later)
  {
    assert [q[0]] + ran + left == [q[0]] + (ran + left);
    assert q == [q[0]] + q[1..];
  }

  /** Callbacks run in the order they were scheduled, whatever running callbacks schedule meanwhile:
      what has run followed by what is still queued is what was queued followed by what was accepted. */
  lemma {:induction false} CallsRunInOrder(s: State, cap: nat, env: seq<seq<Op>>)
    ensures var r := RunCalls(s, cap, env);
            r.ran + r.state.calls == s.calls + r.accepted
    decreases |env|
  {
    if env != [] && s.calls != [] {
      ApplyAppendsCalls(s, cap, env[0]);
      var s' := ApplyAll(s, cap, env[0]);
      var s'' := s'.(calls := s'.calls[1..]);
      var r := RunCalls(s'', cap, env[1..]);
      CallsRunInOrder(s'', cap, env[1..]);
      var acc := Accepted(s, cap, env[0]);
      assert s''.calls == s.calls[1..] + acc;
      Regroup(s.calls, acc, r.ran, r.state.calls, r.accepted);
    }
  }

  // ---------- Due alarms: the second loop ----------

  datatype AlarmRun = AlarmRun(state: State, ran: seq<Alarm>)

  /** Run alarms due at time t: the head is cut, runs, and only then goes back to the free list. */
  function RunDue(s: State, cap: nat, t: U16, env: seq<seq<Op>>): AlarmRun
    decreases |env|
  {
    if env == [] || s.alarms == [] || !Ge(t, s.alarms[0].time) then AlarmRun(s, [])
    else
      var s' := ApplyAll(s.(alarms := s.alarms[1..]), cap, env[0]);
      var r := RunDue(s'.(free := s'.free + 1), cap, t, env[1..]);
      AlarmRun(r.state, [s.alarms[0]] + r.ran)
  }

  lemma {:induction false} RunConservesPool(s: State, cap: nat, t: U16, env: seq<seq<Op>>)
    ensures var r := RunDue(s, cap, t, env).state; |r.alarms| + r.free == |s.alarms| + s.free
    decreases |env|
  {
    if env != [] && s.alarms != [] && Ge(t, s.alarms[0].time) {
      var s1 := s.(alarms := s.alarms[1..]);
      ApplyConservesPool(s1, cap, env[0]);
      var s2 := ApplyAll(s1, cap, env[0]);
      RunConservesPool(s2.(free := s2.free + 1), cap, t, env[1..]);
    }
  }

  /** How often an operation sets alarm x, and how often it cancels it. */
  function SetByOne(s: State, op: Op, x: Alarm): nat {
    if op.SetAlarm? && s.free > 0 && x == Alarm(op.func, op.param, (s.now + op.delay) % 0x1_0000) then 1 else 0
  }

  function CancelledByOne(s: State, op: Op, x: Alarm): nat {
    if op.Cancel? then
      CancelledAreThere(s.alarms, op.func, op.param);
      multiset(s.alarms)[x] - multiset(Cancelled(s.alarms, op.func, op.param))[x]
    else 0
  }

  /** How often the operations of a callback do. */
  function SetBy(s: State, cap: nat, ops: seq<Op>, x: Alarm): nat
    decreases |ops|
  {
    if ops == [] then 0 else SetByOne(s, ops[0], x) + SetBy(Apply(s, cap, ops[0]), cap, ops[1..], x)
  }

  function CancelledBy(s: State, cap: nat, ops: seq<Op>, x: Alarm): nat
    decreases |ops|
  {
    if ops == [] then 0 else CancelledByOne(s, ops[0], x) + CancelledBy(Apply(s, cap, ops[0]), cap, ops[1..], x)
  }

  lemma OneAddsUp(s: State, cap: nat, op: Op, x: Alarm)
    ensures multiset(Apply(s, cap, op).alarms)[x] + CancelledByOne(s, op, x) == multiset(s.alarms)[x] + SetByOne(s, op, x)
  {
    if op.SetAlarm? {
      SetAlarmQueues(s, cap, op.func, op.param, op.delay);
    }
  }

  lemma {:induction false} ApplyAddsUp(s: State, cap: nat, ops: seq<Op>, x: Alarm)
    ensures multiset(ApplyAll(s, cap, ops).alarms)[x] + CancelledBy(s, cap, ops, x) == multiset(s.alarms)[x] + SetBy(s, cap, ops, x)
    decreases |ops|
  {
    if ops != [] {
      OneAddsUp(s, cap, ops[0], x);
      ApplyAddsUp(Apply(s, cap, ops[0]), cap, ops[1..], x);
    }
  }

  /** The same over the due-alarm loop. */
  function SetInRun(s: State, cap: nat, t: U16, env: seq<seq<Op>>, x: Alarm): nat
    decreases |env|
  {
    if env == [] || s.alarms == [] || !Ge(t, s.alarms[0].time) then 0
    else
      var s' := s.(alarms := s.alarms[1..]);
      var s'' := ApplyAll(s', cap, env[0]);
      SetBy(s', cap, env[0], x) + SetInRun(s''.(free := s''.free + 1), cap, t, env[1..], x)
  }

  function CancelledInRun(s: State, cap: nat, t: U16, env: seq<seq<Op>>, x: Alarm): nat
    decreases |env|
  {
    if env == [] || s.alarms == [] || !Ge(t, s.alarms[0].time) then 0
    else
      var s' := s.(alarms := s.alarms[1..]);
      var s'' := ApplyAll(s', cap, env[0]);
      CancelledBy(s', cap, env[0], x) + CancelledInRun(s''.(free := s''.free + 1), cap, t, env[1..], x)
  }

  lemma CountBehindHead(q: seq<Alarm>, x: Alarm)
    requires q != []
    ensures multiset(q)[x] == multiset(q[1..])[x] + if q[0] == x then 1 else 0
  {
    assert q == [q[0]] + q[1..];
  }

  /** Each alarm that was queued, or set by a running callback, has run, was cancelled or is still queued,
      once each time, with the function, parameter and time it was set with. */
  lemma {:induction false} RunAddsUp(s: State, cap: nat, t: U16, env: seq<seq<Op>>, x: Alarm)
    ensures var r := RunDue(s, cap, t, env);
      multiset(r.ran)[x] + multiset(r.state.alarms)[x] + CancelledInRun(s, cap, t, env, x)
      == multiset(s.alarms)[x] + SetInRun(s, cap, t, env, x)
    decreases |env|
  {
    if env != [] && s.alarms != [] && Ge(t, s.alarms[0].time) {
      var s1 := s.(alarms := s.alarms[1..]);
      ApplyAddsUp(s1, cap, env[0], x);
      var s2 := ApplyAll(s1, cap, env[0]);
      RunAddsUp(s2.(free := s2.free + 1), cap, t, env[1..], x);
      CountBehindHead(s.alarms, x);
    }
  }

  /** In a run of at most n turns the due alarms at the front of the queue ran, in its order, and nothing
      else has happened but that their entries are free again. */
  ghost predicate RanPrefix(s: State, t: U16, n: nat, r: AlarmRun) {
    var left := r.state.alarms;
    && r.ran + left == s.alarms && r.state == s.(alarms := left, free := s.free + |r.ran|)
    && (forall i :: 0 <= i < |r.ran| ==> Ge(t, r.ran[i].time))
    && (|r.ran| < n && left != [] ==> !Ge(t, left[0].time))
  }

  lemma OneMoreInPrefix(s: State, t: U16, n: nat, r: AlarmRun)
    requires s.alarms != [] && Ge(t, s.alarms[0].time)
    requires RanPrefix(s.(alarms := s.alarms[1..], free := s.free + 1), t, n, r)
    ensures RanPrefix(s, t, n + 1, AlarmRun(r.state, [s.alarms[0]] + r.ran))
  {
    Reassociate([s.alarms[0]], r.ran, r.state.alarms);
  }

  /** So it is when callbacks leave the scheduler alone. */
  lemma {:induction false} QuietRunIsPrefix(s: State, cap: nat, t: U16, env: seq<seq<Op>>)
    requires forall k :: 0 <= k < |env| ==> env[k] == []
    ensures RanPrefix(s, t, |env|, RunDue(s, cap, t, env))
    decreases |env|
  {
    if env == [] || s.alarms == [] || !Ge(t, s.alarms[0].time) {
      assert [] + s.alarms == s.alarms;
    } else {
      var s3 := s.(alarms := s.alarms[1..], free := s.free + 1);
      assert env[0] == [];
      QuietRunIsPrefix(s3, cap, t, env[1..]);
      OneMoreInPrefix(s, t, |env| - 1, RunDue(s3, cap, t, env[1..]));
    }
  }

  // ---------- True time ----------

  /** ts are the unwrapped times of the alarms. */
  ghost predicate Tracks(s: seq<Alarm>, ts: seq<int>) {
    |s| == |ts| && forall i :: 0 <= i < |s| ==> s[i].time == Wrap(ts[i])
  }

  ghost predicate Ascending(ts: seq<int>) {
    forall i, j :: 0 <= i < j < |ts| ==> ts[i] <= ts[j]
  }

  ghost predicate Within(ts: seq<int>, lo: int, hi: int) {
    forall i :: 0 <= i < |ts| ==> lo <= ts[i] <= hi
  }

  /** If all times, the new one included, span at most MAX_SPAN ticks, the queue stays in true time
      order; the new alarm goes after every alarm not later than it, except that it goes before a
      head of the very same time. */
  lemma InsertKeepsTrueOrder(s: seq<Alarm>, ts: seq<int>, a: Alarm, t: int, lo: int)
    requires Tracks(s, ts) && Ascending(ts) && a.time == Wrap(t)
    requires Within(ts, lo, lo + MAX_SPAN) && lo <= t <= lo + MAX_SPAN
    ensures var k := Place(s, a.time);
      && Tracks(Insert(s, a), Spliced(ts, k, t))
      && Ascending(Spliced(ts, k, t))
      && (forall i :: k <= i < |ts| ==> t <= ts[i])
      && (forall i :: 0 <= i < k ==> ts[i] <= t)
      && (k > 0 ==> ts[0] < t && forall i :: k <= i < |ts| ==> t < ts[i])
  {
    PlaceIsTrue(s, ts, a.time, t, lo);
    SplicedInOrder(s, ts, Place(s, a.time), a, t);
  }

  lemma PlaceIsTrue(s: seq<Alarm>, ts: seq<int>, time: U16, t: int, lo: int)
    requires Tracks(s, ts) && Ascending(ts) && time == Wrap(t)
    requires Within(ts, lo, lo + MAX_SPAN) && lo <= t <= lo + MAX_SPAN
    ensures var k := Place(s, time);
      && (forall i :: k <= i < |ts| ==> t <= ts[i])
      && (forall i :: 0 <= i < k ==> ts[i] <= t)
      && (k > 0 ==> ts[0] < t && forall i :: k <= i < |ts| ==> t < ts[i])
  {
    forall i | 0 <= i < |s|
      ensures Ge(time, s[i].time) <==> t >= ts[i]
      ensures Ge(s[i].time, time) <==> ts[i] >= t
    {
      GeIsTrueOrder(t, ts[i]);
      GeIsTrueOrder(ts[i], t);
    }
    FirstLaterFound(s, time, 0);
  }

  lemma SplicedInOrder(s: seq<Alarm>, ts: seq<int>, k: nat, a: Alarm, t: int)
    requires Tracks(s, ts) && Ascending(ts) && k <= |s| && a.time == Wrap(t)
    requires (forall i :: k <= i < |ts| ==> t <= ts[i]) && forall i :: 0 <= i < k ==> ts[i] <= t
    ensures Tracks(Spliced(s, k, a), Spliced(ts, k, t)) && Ascending(Spliced(ts, k, t))
  {
  }

  /** The bound is tight: one tick more and an earlier alarm is queued behind a later one. */
  lemma SpanBoundIsTight()
    ensures var later, earlier := Alarm(0, 0, Wrap(MAX_SPAN + 1)), Alarm(1, 0, Wrap(0));
            Insert([later], earlier) == [later, earlier]
  {
    GeFailsBeyondSpan();
    var later := Alarm(0, 0, Wrap(MAX_SPAN + 1));
    assert FirstLater([later], Wrap(0), 0) == 0;
    assert Place([later], Wrap(0)) == 1;
  }

  /** What keeps the due-alarm loop finite: starting at true time now >= t, new alarms have a positive
      delay and all times stay within one span. */
  predicate Behaved(ops: seq<Op>, now: int, t: int, lo: int)
    decreases |ops|
  {
    ops != [] ==>
      match ops[0]
      case SetAlarm(_, _, d) => d > 0 && lo <= now + d <= lo + MAX_SPAN && Behaved(ops[1..], now, t, lo)
      case Tick(d) => Behaved(ops[1..], now + d, t, lo)
      case _ => Behaved(ops[1..], now, t, lo)
  }

  /** True time after one operation. */
  function NowAfter(op: Op, now: int): (r: int)
    ensures r >= now
  {
    if op.Tick? then now + op.delta else now
  }

  /** True time after the operations. */
  function Elapsed(ops: seq<Op>, now: int): (r: int)
    ensures r >= now
    decreases |ops|
  {
    if ops == [] then now else Elapsed(ops[1..], NowAfter(ops[0], now))
  }

  ghost predicate AllBehaved(env: seq<seq<Op>>, now: int, t: int, lo: int)
    decreases |env|
  {
    env != [] ==> Behaved(env[0], now, t, lo) && AllBehaved(env[1..], Elapsed(env[0], now), t, lo)
  }

  /** How many of the times are due at t. */
  function Due(ts: seq<int>, t: int): (n: nat) {
    if ts == [] then 0 else (if ts[0] <= t then 1 else 0) + Due(ts[1..], t)
  }

  lemma {:induction false} DueSplits(a: seq<int>, b: seq<int>, t: int)
    ensures Due(a + b, t) == Due(a, t) + Due(b, t)
    decreases |a|
  {
    if a == [] {
      assert a + b == b;
    } else {
      assert (a + b)[1..] == a[1..] + b;
      DueSplits(a[1..], b, t);
    }
  }

  /** The true times of the alarms a cancellation leaves. */
  function CancelledTimes(s: seq<Alarm>, ts: seq<int>, func: nat, param: U8): (r: seq<int>)
    requires |s| == |ts|
    ensures |r| == |Cancelled(s, func, param)|
  {
    if s == [] then []
    else if Hit(s[0], func, param) then
      (if param == ALL_CB then CancelledTimes(s[1..], ts[1..], func, param) else ts[1..])
    else [ts[0]] + CancelledTimes(s[1..], ts[1..], func, param)
  }

  /** Cancelling drops entries and their true times together, keeps the order of the rest, and makes
      nothing more due. */
  lemma {:induction false} CancelNotMoreDue(s: seq<Alarm>, ts: seq<int>, func: nat, param: U8, t: int, floor: int, ceil: int)
    requires Tracks(s, ts) && Ascending(ts) && Within(ts, floor, ceil)
    ensures var ts' := CancelledTimes(s, ts, func, param);
      && Tracks(Cancelled(s, func, param), ts') && Ascending(ts') && Within(ts', floor, ceil)
      && Due(ts', t) <= Due(ts, t)
  {
    if s != [] && !(Hit(s[0], func, param) && param != ALL_CB) {
      CancelNotMoreDue(s[1..], ts[1..], func, param, t, ts[0], ceil);
      var rest := CancelledTimes(s[1..], ts[1..], func, param);
      if !Hit(s[0], func, param) {
        assert ([ts[0]] + rest)[1..] == rest;
      }
    }
  }

  /** The true times of the alarms after one operation at true time `now`: a new alarm is for so many ticks
      later. */
  function TimesAfterOne(s: State, op: Op, ts: seq<int>, now: int): seq<int>
    requires |ts| == |s.alarms|
  {
    match op
    case SetAlarm(_, _, d) => if s.free == 0 then ts else Spliced(ts, Place(s.alarms, Add(s.now, d)), now + d)
    case Cancel(f, p) => CancelledTimes(s.alarms, ts, f, p)
    case _ => ts
  }

  function TimesAfter(s: State, cap: nat, ops: seq<Op>, ts: seq<int>, now: int): (r: seq<int>)
    requires |ts| == |s.alarms|
    ensures |r| == |ApplyAll(s, cap, ops).alarms|
    decreases |ops|
  {
    if ops == [] then ts
    else TimesAfter(Apply(s, cap, ops[0]), cap, ops[1..], TimesAfterOne(s, ops[0], ts, now), NowAfter(ops[0], now))
  }

  /** A well-behaved callback run at true time `now` keeps the queue in true order, each alarm it sets being
      for its delay after the time it is set; it adds nothing that is due at t, and nothing earlier than
      `floor`, the alarm being run. */
  lemma {:induction false} ApplyKeepsTrueOrder(s: State, cap: nat, ops: seq<Op>, ts: seq<int>,
                                               now: int, t: int, lo: int, floor: int)
    requires s.now == Wrap(now) && lo <= floor <= t <= now
    requires Tracks(s.alarms, ts) && Ascending(ts) && Within(ts, floor, lo + MAX_SPAN)
    requires Behaved(ops, now, t, lo)
    ensures var r, ts' := ApplyAll(s, cap, ops), TimesAfter(s, cap, ops, ts, now);
      && r.now == Wrap(Elapsed(ops, now))
      && Tracks(r.alarms, ts') && Ascending(ts') && Within(ts', floor, lo + MAX_SPAN)
      && Due(ts', t) <= Due(ts, t)
    decreases |ops|
  {
    if ops != [] {
      OneKeepsTrueOrder(s, cap, ops[0], ts, now, t, lo, floor);
      ApplyKeepsTrueOrder(Apply(s, cap, ops[0]), cap, ops[1..], TimesAfterOne(s, ops[0], ts, now),
                          NowAfter(ops[0], now), t, lo, floor);
    }
  }

  lemma SetKeepsTrueOrder(s: State, cap: nat, f: nat, p: U8, d: U16, ts: seq<int>, now: int, t: int, lo: int, floor: int)
    requires s.now == Wrap(now) && lo <= floor <= t <= now
    requires Tracks(s.alarms, ts) && Ascending(ts) && Within(ts, floor, lo + MAX_SPAN)
    requires d > 0 && lo <= now + d <= lo + MAX_SPAN
    ensures var op := SetAlarm(f, p, d); var r, ts' := Apply(s, cap, op), TimesAfterOne(s, op, ts, now);
      && r.now == Wrap(now)
      && Tracks(r.alarms, ts') && Ascending(ts') && Within(ts', floor, lo + MAX_SPAN)
      && Due(ts', t) <= Due(ts, t)
  {
    if s.free > 0 {
      AddWraps(now, d);
      InsertNotDue(s.alarms, ts, Alarm(f, p, Add(s.now, d)), now + d, t, lo, floor);
    }
  }

  lemma OneKeepsTrueOrder(s: State, cap: nat, op: Op, ts: seq<int>, now: int, t: int, lo: int, floor: int)
    requires s.now == Wrap(now) && lo <= floor <= t <= now
    requires Tracks(s.alarms, ts) && Ascending(ts) && Within(ts, floor, lo + MAX_SPAN)
    requires op.SetAlarm? ==> op.delay > 0 && lo <= now + op.delay <= lo + MAX_SPAN
    ensures var r, ts' := Apply(s, cap, op), TimesAfterOne(s, op, ts, now);
      && r.now == Wrap(NowAfter(op, now))
      && Tracks(r.alarms, ts') && Ascending(ts') && Within(ts', floor, lo + MAX_SPAN)
      && Due(ts', t) <= Due(ts, t)
  {
    match op
    case SetAlarm(f, p, d) => SetKeepsTrueOrder(s, cap, f, p, d, ts, now, t, lo, floor);
    case Cancel(f, p) => CancelNotMoreDue(s.alarms, ts, f, p, t, floor, lo + MAX_SPAN);
    case Tick(d) => AddWraps(now, d);
    case DoCall(_, _) =>
  }

  lemma InsertNotDue(s: seq<Alarm>, ts: seq<int>, a: Alarm, due: int, t: int, lo: int, floor: int)
    requires Tracks(s, ts) && Ascending(ts) && Within(ts, floor, lo + MAX_SPAN) && lo <= floor <= t < due
    requires a.time == Wrap(due) && due <= lo + MAX_SPAN
    ensures var ts' := Spliced(ts, Place(s, a.time), due);
      && Tracks(Insert(s, a), ts') && Ascending(ts') && Within(ts', floor, lo + MAX_SPAN)
      && Due(ts', t) == Due(ts, t)
  {
    var k := Place(s, a.time);
    InsertKeepsTrueOrder(s, ts, a, due, lo);
    LaterAddsNothing(ts, k, due, t);
    WithinSpliced(ts, k, due, floor, lo + MAX_SPAN);
  }

  lemma WithinSpliced(ts: seq<int>, k: nat, x: int, lo: int, hi: int)
    requires k <= |ts| && Within(ts, lo, hi) && lo <= x <= hi
    ensures Within(Spliced(ts, k, x), lo, hi)
  {
  }

  lemma LaterAddsNothing(ts: seq<int>, k: nat, due: int, t: int)
    requires k <= |ts| && due > t
    ensures Due(Spliced(ts, k, due), t) == Due(ts, t)
  {
    SplicedIs(ts, k, due);
    assert ts == ts[..k] + ts[k..];
    DueSplits(ts[..k], ts[k..], t);
    DueSplits(ts[..k] + [due], ts[k..], t);
    DueSplits(ts[..k], [due], t);
    assert [due][1..] == [];
  }

  /** What the due-alarm loop promises: with `due` alarms due at first and n turns allowed, the alarms
      it ran were due at the times ranAt, and those it left are for the times left. */
  ghost predicate RanInOrder(r: AlarmRun, n: nat, ranAt: seq<int>, left: seq<int>, due: nat, t: int, floor: int, ceil: int) {
    && Tracks(r.ran, ranAt) && Ascending(ranAt) && Within(ranAt, floor, t)
    && |r.ran| + Due(left, t) <= due
    && Tracks(r.state.alarms, left) && Ascending(left) && Within(left, floor, ceil)
    && (|r.ran| < n ==> forall i :: 0 <= i < |left| ==> left[i] > t)
  }

  lemma NothingDue(s: State, n: nat, ts: seq<int>, t: int, floor: int, ceil: int)
    requires Tracks(s.alarms, ts) && Ascending(ts) && Within(ts, floor, ceil)
    requires n == 0 || ts == [] || ts[0] > t
    ensures RanInOrder(AlarmRun(s, []), n, [], ts, Due(ts, t), t, floor, ceil)
  {
  }

  lemma OneMoreRan(r: AlarmRun, n: nat, ranAt: seq<int>, left: seq<int>, due: nat, a: Alarm, at: int, t: int, floor: int, ceil: int)
    requires RanInOrder(r, n, ranAt, left, due, t, at, ceil) && floor <= at <= t && a.time == Wrap(at)
    ensures RanInOrder(AlarmRun(r.state, [a] + r.ran), n + 1, [at] + ranAt, left, due + 1, t, floor, ceil)
  {
  }

  /** The true times of the alarms the due loop runs, and of those it leaves. */
  function RanTimes(s: State, cap: nat, t: U16, env: seq<seq<Op>>, ts: seq<int>, now: int): seq<int>
    requires |ts| == |s.alarms|
    decreases |env|
  {
    if env == [] || s.alarms == [] || !Ge(t, s.alarms[0].time) then []
    else
      var s' := s.(alarms := s.alarms[1..]);
      var s'' := ApplyAll(s', cap, env[0]);
      [ts[0]] + RanTimes(s''.(free := s''.free + 1), cap, t, env[1..], TimesAfter(s', cap, env[0], ts[1..], now), Elapsed(env[0], now))
  }

  function LeftTimes(s: State, cap: nat, t: U16, env: seq<seq<Op>>, ts: seq<int>, now: int): seq<int>
    requires |ts| == |s.alarms|
    decreases |env|
  {
    if env == [] || s.alarms == [] || !Ge(t, s.alarms[0].time) then ts
    else
      var s' := s.(alarms := s.alarms[1..]);
      var s'' := ApplyAll(s', cap, env[0]);
      LeftTimes(s''.(free := s''.free + 1), cap, t, env[1..], TimesAfter(s', cap, env[0], ts[1..], now), Elapsed(env[0], now))
  }

  /** The due-alarm loop is finite and in order. With well-behaved callbacks, it runs at most as many
      alarms as were due when it started, in non-decreasing true time, each due at t; and unless the
      interrupt test cut it short, every alarm left in the queue is later than t. */
  lemma {:induction false} DueLoopIsFiniteAndOrdered(s: State, cap: nat, env: seq<seq<Op>>, ts: seq<int>,
                                                     now: int, t: int, lo: int, floor: int)
    requires s.now == Wrap(now) && lo <= floor <= t <= now && t <= lo + MAX_SPAN
    requires Tracks(s.alarms, ts) && Ascending(ts) && Within(ts, floor, lo + MAX_SPAN)
    requires AllBehaved(env, now, t, lo)
    ensures RanInOrder(RunDue(s, cap, Wrap(t), env), |env|, RanTimes(s, cap, Wrap(t), env, ts, now),
                       LeftTimes(s, cap, Wrap(t), env, ts, now), Due(ts, t), t, floor, lo + MAX_SPAN)
    decreases |env|
  {
    if s.alarms != [] {
      GeIsTrueOrder(t, ts[0]);
    }
    if env == [] || s.alarms == [] || !Ge(Wrap(t), s.alarms[0].time) {
      NothingDue(s, |env|, ts, t, floor, lo + MAX_SPAN);
    } else {
      var s1, t' := s.(alarms := s.alarms[1..]), Elapsed(env[0], now);
      ApplyKeepsTrueOrder(s1, cap, env[0], ts[1..], now, t, lo, ts[0]);
      var s2, ts2 := ApplyAll(s1, cap, env[0]), TimesAfter(s1, cap, env[0], ts[1..], now);
      var s3 := s2.(free := s2.free + 1);
      DueLoopIsFiniteAndOrdered(s3, cap, env[1..], ts2, t', t, lo, ts[0]);
      var r, ranAt, left := RunDue(s3, cap, Wrap(t), env[1..]), RanTimes(s3, cap, Wrap(t), env[1..], ts2, t'),
                            LeftTimes(s3, cap, Wrap(t), env[1..], ts2, t');
      assert Due(ts, t) == 1 + Due(ts[1..], t);
      OneMoreRan(r, |env| - 1, ranAt, left, Due(ts2, t), s.alarms[0], ts[0], t, floor, lo + MAX_SPAN);
    }
  }

  /** So a supply of callbacks longer than the number of due alarms is never exhausted. */
  lemma DueLoopStops(s: State, cap: nat, env: seq<seq<Op>>, ts: seq<int>, now: int, t: int, lo: int)
    requires s.now == Wrap(now) && lo <= t <= now && t <= lo + MAX_SPAN
    requires Tracks(s.alarms, ts) && Ascending(ts) && Within(ts, lo, lo + MAX_SPAN)
    requires AllBehaved(env, now, t, lo) && |env| > Due(ts, t)
    ensures var r := RunDue(s, cap, Wrap(t), env);
            |r.ran| <= Due(ts, t) && (r.state.alarms == [] || !Ge(Wrap(t), r.state.alarms[0].time))
  {
    DueLoopIsFiniteAndOrdered(s, cap, env, ts, now, t, lo, lo);
    var left := LeftTimes(s, cap, Wrap(t), env, ts, now);
    if left != [] {
      GeIsTrueOrder(t, left[0]);
    }
  }

  /** Without a positive delay the loop need not stop: an alarm that re-schedules itself for now runs
      as often as the environment lets it. */
  lemma {:induction false} ZeroDelayNeverStops(n: nat)
    ensures |RunDue(State([Alarm(0, 0, 5)], 1, [], 5), 1, 5, seq(n, _ => [SetAlarm(0, 0, 0)])).ran| == n
  {
    var env := seq(n, _ => [SetAlarm(0, 0, 0)]);
    if n > 0 {
      var s := State([Alarm(0, 0, 5)], 1, [], 5);
      var s1 := State([], 1, [], 5);
      assert Add(5, 0) == 5;
      assert env[0] == [SetAlarm(0, 0, 0)] && env[0][1..] == [];
      assert Apply(s1, 1, env[0][0]) == State([Alarm(0, 0, 5)], 0, [], 5);
      assert ApplyAll(s1, 1, env[0]) == State([Alarm(0, 0, 5)], 0, [], 5);
      assert env[1..] == seq(n - 1, _ => [SetAlarm(0, 0, 0)]);
      assert s.alarms[1..] == [];
      ZeroDelayNeverStops(n - 1);
    }
  }
}
