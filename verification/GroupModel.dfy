/** The group table (aps_bind.c) and the passing up of group-addressed messages (aps_main.c): one copy of
    a message for every endpoint of its group, made one at a time by a self-rescheduling callback. */
module GroupModel {
  import opened Prelude

  /** ZB_APS_GROUP_TABLE_SIZE, ZB_APS_ENDPOINTS_IN_GROUP_TABLE and ZB_APS_GROUP_UP_Q_SIZE, of any size. */
  type Capacity = n: nat | 0 < n witness 8
  const GROUPS: Capacity
  const ENDPOINTS: Capacity
  const QUEUE: Capacity

  datatype Group = Group(addr: U16, endpoints: seq<U8>)

  // ---------- The group table ----------

  function FindGroup(groups: seq<Group>, addr: U16, from: nat): (g: nat)
    requires from <= |groups|
    ensures from <= g <= |groups| && (g < |groups| ==> groups[g].addr == addr)
    ensures forall k :: from <= k < g ==> groups[k].addr != addr
    decreases |groups| - from
  {
    if from == |groups| || groups[from].addr == addr then from else FindGroup(groups, addr, from + 1)
  }

  /** The endpoints a message to addr is for, in table order. */
  function EndpointsOf(groups: seq<Group>, addr: U16): seq<U8> {
    var g := FindGroup(groups, addr, 0);
    if g < |groups| then groups[g].endpoints else []
  }

  datatype AddStatus = Added | TableFull

  /** zb_apsme_add_group_request. */
  function AddGroup(groups: seq<Group>, addr: U16, endpoint: U8): (seq<Group>, AddStatus) {
    var g := FindGroup(groups, addr, 0);
    if g < |groups| then
      if endpoint in groups[g].endpoints then (groups, Added)
      else if |groups[g].endpoints| < ENDPOINTS then
        (groups[g := groups[g].(endpoints := groups[g].endpoints + [endpoint])], Added)
      else (groups, TableFull)
    else if |groups| < GROUPS then (groups + [Group(addr, [endpoint])], Added)
    else (groups, TableFull)
  }

  ghost predicate GroupOk(g: Group) {
    0 < |g.endpoints| <= ENDPOINTS && Distinct(g.endpoints)
  }

  /** Two entries of one group. */
  predicate SameGroup(groups: seq<Group>, g: nat, h: nat) {
    g < h < |groups| && groups[g].addr == groups[h].addr
  }

  ghost predicate TableOk(groups: seq<Group>) {
    && |groups| <= GROUPS
    && (forall g {:trigger GroupOk(groups[g])} :: 0 <= g < |groups| ==> GroupOk(groups[g]))
    && (forall g, h :: !SameGroup(groups, g, h))
  }

  /** Adding an endpoint puts it at the end of its own group's list, unless it is there already or there
      is no room, and leaves every other group alone. */
  lemma AddGroupSpec(groups: seq<Group>, addr: U16, endpoint: U8, other: U16)
    requires TableOk(groups)
    ensures var (after, status) := AddGroup(groups, addr, endpoint);
            var before := EndpointsOf(groups, addr);
      && TableOk(after)
      && (status == TableFull <==>
            endpoint !in before && (|before| == ENDPOINTS || (before == [] && |groups| == GROUPS)))
      && (status == TableFull ==> after == groups)
      && EndpointsOf(after, other) ==
           EndpointsOf(groups, other) + if other == addr && status == Added && endpoint !in before then [endpoint] else []
  {
    var (after, status) := AddGroup(groups, addr, endpoint);
    var g := FindGroup(groups, addr, 0);
    if g < |groups| {
      assert GroupOk(groups[g]);
    }
    if after != groups {
      var x := if g < |groups| then groups[g].(endpoints := groups[g].endpoints + [endpoint]) else Group(addr, [endpoint]);
      AddedKeepsTable(groups, after, g, x);
      AddedLookup(groups, after, g, addr, endpoint, other);
    }
  }

  /** An entry with an address of its own is changed or added. */
  lemma AddedKeepsTable(groups: seq<Group>, after: seq<Group>, g: nat, x: Group)
    requires TableOk(groups) && GroupOk(x) && g <= |groups| && g == FindGroup(groups, x.addr, 0)
    requires after == if g < |groups| then groups[g := x] else groups + [x]
    requires |after| <= GROUPS
    ensures TableOk(after)
  {
    forall i | 0 <= i < |after| ensures GroupOk(after[i]) {
      assert i < |groups| ==> GroupOk(groups[i]);
    }
    forall i, j ensures !SameGroup(after, i, j) {
      assert !SameGroup(groups, i, j);
    }
  }

  lemma AddedLookup(groups: seq<Group>, after: seq<Group>, g: nat, addr: U16, endpoint: U8, other: U16)
    requires TableOk(groups) && g == FindGroup(groups, addr, 0)
    requires after == if g < |groups| then groups[g := groups[g].(endpoints := groups[g].endpoints + [endpoint])]
                      else groups + [Group(addr, [endpoint])]
    ensures EndpointsOf(after, other) == EndpointsOf(groups, other) + if other == addr then [endpoint] else []
  {
    var h, k := FindGroup(after, other, 0), FindGroup(groups, other, 0);
    assert forall j :: 0 <= j < |groups| ==> after[j].addr == groups[j].addr;
    if k < |groups| {
      assert after[k].addr == other;
      assert h <= k;
      assert groups[h].addr == other;
      assert h == k;
    } else if other == addr {
      assert after[|groups|].addr == other;
      assert h == |groups|;
    } else {
      assert h == |after|;
    }
  }

  // ---------- Passing messages up ----------

  datatype Msg = Msg(id: nat, addr: U16)

  /** A message that is through, with the endpoints its group had by then. */
  datatype Passed = Passed(msg: Msg, endpoints: seq<U8>)

  /** `handle` is the next endpoint of the active message; `activations` counts the pending calls of the
      callback, scheduled or waiting for a buffer. The last four fields record the run. */
  datatype State = State(
    groups: seq<Group>, active: Option<Msg>, handle: nat, queue: seq<Msg>, activations: nat,
    delivered: seq<(Msg, U8)>, accepted: seq<Msg>, passed: seq<Passed>, dropped: seq<Msg>)

  /** zb_aps_pass_up_group_buf. `granted` says whether the request for the first activation finds a
      buffer or a place to wait; the source does not look. */
  function Arrive(s: State, m: Msg, granted: bool): State {
    if |s.queue| >= QUEUE then s.(dropped := s.dropped + [m])
    else
      var t := s.(accepted := s.accepted + [m]);
      if s.active.None? then t.(active := Some(m), handle := 0, activations := s.activations + if granted then 1 else 0)
      else t.(queue := s.queue + [m])
  }

  /** zb_aps_pass_group_msg_up, one call of it, which unless there is nothing more to do asks for the
      next one; again the source does not look whether that is granted. */
  function PassUp(s: State, granted: bool): State
    requires s.active.Some? && s.activations > 0
  {
    var m := s.active.value;
    var left := s.activations - if granted then 0 else 1;
    var endpoints := EndpointsOf(s.groups, m.addr);
    if s.handle >= |endpoints| then
      var t := s.(passed := s.passed + [Passed(m, endpoints)]);
      if s.queue != [] then t.(active := Some(s.queue[0]), handle := 0, queue := s.queue[1..], activations := left)
      else t.(active := None, activations := s.activations - 1)
    else s.(delivered := s.delivered + [(m, endpoints[s.handle])], handle := s.handle + 1, activations := left)
  }

  /** The group table may grow meanwhile; nothing ever leaves it. */
  function Add(s: State, addr: U16, endpoint: U8): State {
    s.(groups := AddGroup(s.groups, addr, endpoint).0)
  }

  /** One copy of m for each endpoint, in order. */
  function Copies(m: Msg, endpoints: seq<U8>): (r: seq<(Msg, U8)>)
    ensures |r| == |endpoints|
  {
    if endpoints == [] then [] else Copies(m, endpoints[..|endpoints| - 1]) + [(m, endpoints[|endpoints| - 1])]
  }

  function AllCopies(passed: seq<Passed>): seq<(Msg, U8)> {
    if passed == [] then []
    else AllCopies(passed[..|passed| - 1]) + Copies(passed[|passed| - 1].msg, passed[|passed| - 1].endpoints)
  }

  function Msgs(passed: seq<Passed>): (r: seq<Msg>)
    ensures |r| == |passed| && forall k :: 0 <= k < |r| ==> r[k] == passed[k].msg
  {
    seq(|passed|, i requires 0 <= i < |passed| => passed[i].msg)
  }

  /** The active message and those queued behind it. */
  function Pending(s: State): seq<Msg> {
    (if s.active.Some? then [s.active.value] else []) + s.queue
  }

  /** What the active message has delivered so far. */
  function Started(s: State): seq<(Msg, U8)>
    requires s.active.Some? ==> s.handle <= |EndpointsOf(s.groups, s.active.value.addr)|
  {
    if s.active.Some? then Copies(s.active.value, EndpointsOf(s.groups, s.active.value.addr)[..s.handle]) else []
  }

  /** Every accepted message is through or pending, in order of arrival; what was delivered is exactly
      one copy per endpoint of the messages that are through, plus the part of the active one; there is
      at most one activation, and only for an active message; and without one nothing is queued. */
  ghost predicate Inv(s: State) {
    && TableOk(s.groups)
    && s.accepted == Msgs(s.passed) + Pending(s)
    && (s.active.Some? ==> s.handle <= |EndpointsOf(s.groups, s.active.value.addr)|)
    && s.delivered == AllCopies(s.passed) + Started(s)
    && s.activations <= (if s.active.Some? then 1 else 0)
    && (s.active.None? ==> s.queue == [])
    && |s.queue| <= QUEUE
  }

  /** An active message has its next activation pending. */
  predicate Going(s: State) {
    s.active.Some? ==> s.activations == 1
  }

  /** What an arriving message does, field by field: while the queue has room it is accepted, to become
      active if nothing is and else the last in the queue; otherwise it is dropped. */
  ghost predicate Arrived(s: State, m: Msg, granted: bool, t: State) {
    && t.groups == s.groups && t.delivered == s.delivered && t.passed == s.passed
    && (if |s.queue| < QUEUE then t.accepted == s.accepted + [m] && t.dropped == s.dropped
        else t.accepted == s.accepted && t.dropped == s.dropped + [m])
    && (if s.active == None && |s.queue| < QUEUE then
          t.active == Some(m) && t.handle == 0 && t.queue == s.queue
          && t.activations == if granted then s.activations + 1 else s.activations
        else
          t.active == s.active && t.handle == s.handle && t.activations == s.activations
          && t.queue == if |s.queue| < QUEUE then s.queue + [m] else s.queue)
  }

  lemma ArriveArrives(s: State, m: Msg, granted: bool)
    ensures Arrived(s, m, granted, Arrive(s, m, granted))
  {
  }

  /** An invariant state stays so. */
  lemma ArriveKeepsInv(s: State, m: Msg, granted: bool)
    requires Inv(s)
    ensures Inv(Arrive(s, m, granted))
    ensures Going(s) ==> (Going(Arrive(s, m, granted)) <==> s.active.Some? || granted)
  {
    var t := Arrive(s, m, granted);
    if |s.queue| < QUEUE {
      assert t.accepted == Msgs(t.passed) + Pending(t);
      assert s.active.None? ==> Started(t) == [];
    }
  }

  lemma PassUpKeepsInv(s: State, granted: bool)
    requires Inv(s) && s.activations > 0
    ensures Inv(PassUp(s, granted))
  {
    if s.handle >= |EndpointsOf(s.groups, s.active.value.addr)| {
      FinishingKeepsInv(s, granted);
    } else {
      DeliveringKeepsInv(s, granted);
    }
  }

  /** Exactly when the passing up goes on: the request is granted, or there was nothing more to do. */
  lemma KeepsGoingIff(s: State, granted: bool)
    requires Inv(s) && s.activations > 0
    ensures Going(PassUp(s, granted)) <==>
      granted || (s.queue == [] && s.handle >= |EndpointsOf(s.groups, s.active.value.addr)|)
  {
  }

  /** The call that finishes a message, over the records only: its copies are complete. */
  lemma Finished(passed: seq<Passed>, m: Msg, endpoints: seq<U8>)
    ensures AllCopies(passed + [Passed(m, endpoints)]) == AllCopies(passed) + Copies(m, endpoints)
    ensures Msgs(passed + [Passed(m, endpoints)]) == Msgs(passed) + [m]
  {
    assert (passed + [Passed(m, endpoints)])[..|passed|] == passed;
  }

  lemma FinishingKeepsInv(s: State, granted: bool)
    requires Inv(s) && s.activations > 0 && s.handle >= |EndpointsOf(s.groups, s.active.value.addr)|
    ensures Inv(PassUp(s, granted))
  {
    var t, m := PassUp(s, granted), s.active.value;
    var endpoints := EndpointsOf(s.groups, m.addr);
    assert endpoints[..s.handle] == endpoints;
    Finished(s.passed, m, endpoints);
    assert Started(t) == [];
    NextPending(Msgs(s.passed), m, s.queue, Pending(t));
  }

  lemma NextPending(before: seq<Msg>, m: Msg, queue: seq<Msg>, pending: seq<Msg>)
    requires pending == queue
    ensures before + ([m] + queue) == (before + [m]) + pending
  {
  }

  /** One more copy of a message. */
  lemma OneMoreCopy(m: Msg, endpoints: seq<U8>, k: nat)
    requires k < |endpoints|
    ensures Copies(m, endpoints[..k + 1]) == Copies(m, endpoints[..k]) + [(m, endpoints[k])]
  {
    assert endpoints[..k + 1][..k] == endpoints[..k];
  }

  lemma DeliveringKeepsInv(s: State, granted: bool)
    requires Inv(s) && s.activations > 0 && s.handle < |EndpointsOf(s.groups, s.active.value.addr)|
    ensures Inv(PassUp(s, granted))
  {
    OneMoreCopy(s.active.value, EndpointsOf(s.groups, s.active.value.addr), s.handle);
    Reassociate(AllCopies(s.passed), Started(s), [(s.active.value, EndpointsOf(s.groups, s.active.value.addr)[s.handle])]);
  }

  lemma AddKeepsInv(s: State, addr: U16, endpoint: U8)
    requires Inv(s)
    ensures Inv(Add(s, addr, endpoint))
  {
    AddGroupSpec(s.groups, addr, endpoint, addr);
    if s.active.Some? {
      var m, t := s.active.value, Add(s, addr, endpoint);
      AddGroupSpec(s.groups, addr, endpoint, m.addr);
      assert EndpointsOf(t.groups, m.addr)[..s.handle] == EndpointsOf(s.groups, m.addr)[..s.handle];
    }
  }

  // ---------- Runs ----------

  datatype Op = Message(m: Msg, granted: bool) | Activation(granted: bool) | NewMember(addr: U16, endpoint: U8)

  predicate Legal(s: State, op: Op) {
    op.Activation? ==> s.activations > 0 && s.active.Some?
  }

  function Step(s: State, op: Op): State
    requires Legal(s, op)
  {
    match op
    case Message(m, granted) => Arrive(s, m, granted)
    case Activation(granted) => PassUp(s, granted)
    case NewMember(addr, endpoint) => Add(s, addr, endpoint)
  }

  predicate LegalRun(s: State, ops: seq<Op>)
    decreases |ops|
  {
    ops != [] ==> Legal(s, ops[0]) && LegalRun(Step(s, ops[0]), ops[1..])
  }

  function Run(s: State, ops: seq<Op>): State
    requires LegalRun(s, ops)
    decreases |ops|
  {
    if ops == [] then s else Run(Step(s, ops[0]), ops[1..])
  }

  lemma StepKeepsInv(s: State, op: Op)
    requires Inv(s) && Legal(s, op)
    ensures Inv(Step(s, op))
  {
    match op
    case Message(m, granted) => ArriveKeepsInv(s, m, granted);
    case Activation(granted) => PassUpKeepsInv(s, granted);
    case NewMember(addr, endpoint) => AddKeepsInv(s, addr, endpoint);
  }

  /** Whatever requests are refused. */
  lemma {:induction false} RunKeepsInv(s: State, ops: seq<Op>)
    requires Inv(s) && LegalRun(s, ops)
    ensures Inv(Run(s, ops))
    decreases |ops|
  {
    if ops != [] {
      StepKeepsInv(s, ops[0]);
      RunKeepsInv(Step(s, ops[0]), ops[1..]);
    }
  }

  /** The messages of a run, in order of arrival. */
  function Arrivals(ops: seq<Op>): seq<Msg> {
    if ops == [] then [] else (if ops[0].Message? then [ops[0].m] else []) + Arrivals(ops[1..])
  }

  /** How many of them find the queue full. */
  function FoundFull(s: State, ops: seq<Op>): nat
    requires LegalRun(s, ops)
    decreases |ops|
  {
    if ops == [] then 0
    else (if ops[0].Message? && |s.queue| >= QUEUE then 1 else 0) + FoundFull(Step(s, ops[0]), ops[1..])
  }

  lemma StepAccepts(s: State, op: Op)
    requires Legal(s, op)
    ensures var t := Step(s, op);
      if op.Message? then
        if |s.queue| < QUEUE then t.accepted == s.accepted + [op.m] && t.dropped == s.dropped
        else t.accepted == s.accepted && t.dropped == s.dropped + [op.m]
      else t.accepted == s.accepted && t.dropped == s.dropped
  {
  }

  /** Over any run each message that arrives is accepted or dropped. */
  lemma {:induction false} ArrivalsAddUp(s: State, ops: seq<Op>, x: Msg)
    requires LegalRun(s, ops)
    ensures var t := Run(s, ops);
      multiset(t.accepted)[x] + multiset(t.dropped)[x]
      == multiset(s.accepted)[x] + multiset(s.dropped)[x] + multiset(Arrivals(ops))[x]
    decreases |ops|
  {
    if ops != [] {
      ArrivalsAddUp(Step(s, ops[0]), ops[1..], x);
      StepAddsUp(s, ops[0], x);
      assert ops[0].Message? ==> Arrivals(ops) == [ops[0].m] + Arrivals(ops[1..]);
    }
  }

  lemma StepAddsUp(s: State, op: Op, x: Msg)
    requires Legal(s, op)
    ensures var t := Step(s, op);
      multiset(t.accepted)[x] + multiset(t.dropped)[x]
      == multiset(s.accepted)[x] + multiset(s.dropped)[x] + if op.Message? && op.m == x then 1 else 0
  {
    StepAccepts(s, op);
  }

  /** As many are dropped as found the queue full. */
  lemma {:induction false} DroppedWhenFull(s: State, ops: seq<Op>)
    requires LegalRun(s, ops)
    ensures |Run(s, ops).dropped| == |s.dropped| + FoundFull(s, ops)
    decreases |ops|
  {
    if ops != [] {
      StepAccepts(s, ops[0]);
      DroppedWhenFull(Step(s, ops[0]), ops[1..]);
    }
  }

  lemma {:induction false} AcceptedInOrder(s: State, ops: seq<Op>)
    requires LegalRun(s, ops) && FoundFull(s, ops) == 0
    ensures var t := Run(s, ops); t.accepted == s.accepted + Arrivals(ops) && t.dropped == s.dropped
    decreases |ops|
  {
    if ops == [] {
      assert s.accepted + [] == s.accepted;
    } else {
      StepAccepts(s, ops[0]);
      AcceptedInOrder(Step(s, ops[0]), ops[1..]);
      Reassociate(s.accepted, if ops[0].Message? then [ops[0].m] else [], Arrivals(ops[1..]));
      assert s.accepted + [] == s.accepted;
    }
  }

  /** So a run drops nothing exactly when no message found the queue full, and then all are accepted, in
      order of arrival. */
  lemma DropsNothingIff(s: State, ops: seq<Op>)
    requires LegalRun(s, ops)
    ensures var t := Run(s, ops);
      && (t.dropped == s.dropped <==> FoundFull(s, ops) == 0)
      && (t.dropped == s.dropped ==> t.accepted == s.accepted + Arrivals(ops))
  {
    DroppedWhenFull(s, ops);
    if FoundFull(s, ops) == 0 {
      AcceptedInOrder(s, ops);
    }
  }

  predicate Granted(op: Op) {
    op.NewMember? || op.granted
  }

  /** With every request granted, an active message always has its next activation. */
  lemma {:induction false} GrantedRunKeepsGoing(s: State, ops: seq<Op>)
    requires Inv(s) && Going(s) && LegalRun(s, ops) && forall k :: 0 <= k < |ops| ==> Granted(ops[k])
    ensures Going(Run(s, ops))
    decreases |ops|
  {
    if ops != [] {
      StepKeepsInv(s, ops[0]);
      assert Granted(ops[0]);
      GrantedRunKeepsGoing(Step(s, ops[0]), ops[1..]);
    }
  }

  /** One refusal ends the passing up for good: over any run, nothing more is delivered and no message
      gets through. */
  lemma {:induction false} StallIsForGood(s: State, ops: seq<Op>)
    requires s.active.Some? && s.activations == 0 && LegalRun(s, ops)
    ensures var t := Run(s, ops);
      t.active == s.active && t.activations == 0 && t.delivered == s.delivered && t.passed == s.passed
    decreases |ops|
  {
    if ops != [] {
      StallIsForGood(Step(s, ops[0]), ops[1..]);
    }
  }

  // ---------- Exactly once ----------

  /** The endpoints that got m, in order. */
  function Receivers(log: seq<(Msg, U8)>, m: Msg): seq<U8> {
    if log == [] then []
    else Receivers(log[..|log| - 1], m) + if log[|log| - 1].0 == m then [log[|log| - 1].1] else []
  }

  lemma {:induction false} ReceiversAppend(a: seq<(Msg, U8)>, b: seq<(Msg, U8)>, m: Msg)
    ensures Receivers(a + b, m) == Receivers(a, m) + Receivers(b, m)
  {
    if b == [] {
      assert a + b == a;
    } else {
      ReceiversAppend(a, b[..|b| - 1], m);
      assert (a + b)[..|a + b| - 1] == a + b[..|b| - 1];
    }
  }

  lemma {:induction false} ReceiversOfCopies(m: Msg, endpoints: seq<U8>, n: Msg)
    ensures Receivers(Copies(m, endpoints), n) == if m == n then endpoints else []
  {
    if endpoints != [] {
      var front := endpoints[..|endpoints| - 1];
      ReceiversOfCopies(m, front, n);
      assert Copies(m, endpoints)[..|endpoints| - 1] == Copies(m, front);
    }
  }

  lemma {:induction false} ReceiversOfPassed(passed: seq<Passed>, m: Msg)
    requires Distinct(Msgs(passed))
    ensures m !in Msgs(passed) ==> Receivers(AllCopies(passed), m) == []
    ensures forall k :: 0 <= k < |passed| && passed[k].msg == m ==> Receivers(AllCopies(passed), m) == passed[k].endpoints
  {
    if passed != [] {
      var front, last := passed[..|passed| - 1], passed[|passed| - 1];
      assert Msgs(passed) == Msgs(front) + [last.msg];
      ReceiversOfPassed(front, m);
      ReceiversOfCopies(last.msg, last.endpoints, m);
      ReceiversAppend(AllCopies(front), Copies(last.msg, last.endpoints), m);
      if m == last.msg {
        assert Msgs(passed)[|passed| - 1] == m;
      }
    }
  }

  /** After any run from an invariant state, a message that is through was received by each endpoint its
      group had when it finished, once and in table order; and by nobody else. */
  lemma ExactlyOnce(s0: State, ops: seq<Op>, k: nat)
    requires Inv(s0) && LegalRun(s0, ops) && Distinct(Run(s0, ops).accepted) && k < |Run(s0, ops).passed|
    ensures var s := Run(s0, ops);
      Receivers(s.delivered, s.passed[k].msg) == s.passed[k].endpoints
      && k < |s.accepted| && s.passed[k].msg == s.accepted[k]
  {
    RunKeepsInv(s0, ops);
    ReceivedOnce(Run(s0, ops), k);
  }

  lemma ReceivedOnce(s: State, k: nat)
    requires Inv(s) && Distinct(s.accepted) && k < |s.passed|
    ensures Receivers(s.delivered, s.passed[k].msg) == s.passed[k].endpoints
    ensures k < |s.accepted| && s.passed[k].msg == s.accepted[k]
  {
    var m := s.passed[k].msg;
    ThroughIsNotPending(Msgs(s.passed), Pending(s), k);
    ReceiversOfPassed(s.passed, m);
    ReceiversAppend(AllCopies(s.passed), Started(s), m);
    if s.active.Some? {
      assert Pending(s)[0] == s.active.value;
      ReceiversOfCopies(s.active.value, EndpointsOf(s.groups, s.active.value.addr)[..s.handle], m);
    }
  }

  lemma ThroughIsNotPending(through: seq<Msg>, pending: seq<Msg>, k: nat)
    requires Distinct(through + pending) && k < |through|
    ensures Distinct(through) && (pending != [] ==> through[k] != pending[0])
  {
    var all := through + pending;
    assert forall i :: 0 <= i < |through| ==> all[i] == through[i];
    if pending != [] {
      assert all[|through|] == pending[0];
    }
  }

  // ---------- Running dry ----------

  /** Calls needed for msgs: one per endpoint and one to finish. */
  function Calls(groups: seq<Group>, msgs: seq<Msg>): nat {
    if msgs == [] then 0 else |EndpointsOf(groups, msgs[0].addr)| + 1 + Calls(groups, msgs[1..])
  }

  function Work(s: State): int {
    Calls(s.groups, Pending(s)) - if s.active.Some? then s.handle else 0
  }

  /** What msgs become with the table as it is. */
  function Lists(groups: seq<Group>, msgs: seq<Msg>): seq<Passed> {
    if msgs == [] then [] else [Passed(msgs[0], EndpointsOf(groups, msgs[0].addr))] + Lists(groups, msgs[1..])
  }

  /** Each activation is one unit of work done. */
  lemma PassUpWorks(s: State)
    requires Inv(s) && s.activations > 0
    ensures Work(PassUp(s, true)) == Work(s) - 1 && Work(s) > 0
    ensures PassUp(s, true).passed + Lists(s.groups, Pending(PassUp(s, true))) == s.passed + Lists(s.groups, Pending(s))
  {
    if s.handle >= |EndpointsOf(s.groups, s.active.value.addr)| {
      FinishingWorks(s);
    } else {
      assert Pending(PassUp(s, true)) == Pending(s);
      ActiveFirst(s.groups, s.active.value, s.queue);
    }
  }

  lemma ActiveFirst(groups: seq<Group>, m: Msg, queue: seq<Msg>)
    ensures Calls(groups, [m] + queue) == |EndpointsOf(groups, m.addr)| + 1 + Calls(groups, queue)
    ensures Lists(groups, [m] + queue) == [Passed(m, EndpointsOf(groups, m.addr))] + Lists(groups, queue)
  {
    assert ([m] + queue)[1..] == queue;
  }

  lemma FinishingWorks(s: State)
    requires Inv(s) && s.activations > 0 && s.handle >= |EndpointsOf(s.groups, s.active.value.addr)|
    ensures var t := PassUp(s, true);
      Work(t) == Work(s) - 1 && Work(s) > 0 && t.passed + Lists(s.groups, Pending(t)) == s.passed + Lists(s.groups, Pending(s))
  {
    var m, t := s.active.value, PassUp(s, true);
    assert Pending(t) == s.queue;
    ActiveFirst(s.groups, m, s.queue);
    Reassociate(s.passed, [Passed(m, EndpointsOf(s.groups, m.addr))], Lists(s.groups, s.queue));
  }

  function Drain(s: State, n: nat): State
    requires Inv(s) && Going(s)
    decreases n
  {
    if n == 0 || s.active.None? then s
    else
      PassUpKeepsInv(s, true);
      Drain(PassUp(s, true), n - 1)
  }

  /** With no new messages, no refusals and the table unchanged, after Work(s) activations, each of which schedules
      the next, every accepted message has been passed up, first come first served, to every endpoint
      of its group, and no activation is left. */
  lemma {:induction false} DrainDeliversEverything(s: State)
    requires Inv(s) && Going(s)
    ensures Work(s) >= 0
    ensures var t := Drain(s, Work(s));
      && t.active.None? && t.queue == [] && t.activations == 0
      && t.passed == s.passed + Lists(s.groups, Pending(s)) && t.delivered == AllCopies(t.passed)
      && Msgs(t.passed) == s.accepted && t.dropped == s.dropped
    decreases if s.active.Some? then Work(s) + 1 else 0
  {
    if s.active.Some? {
      PassUpWorks(s);
      PassUpKeepsInv(s, true);
      var t := PassUp(s, true);
      assert Drain(s, Work(s)) == Drain(t, Work(t));
      assert t.accepted == s.accepted && t.dropped == s.dropped && t.groups == s.groups;
      DrainDeliversEverything(t);
    } else {
      assert Pending(s) == [];
      assert Msgs(s.passed) + [] == Msgs(s.passed);
    }
  }
}
