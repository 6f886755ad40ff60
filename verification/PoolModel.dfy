/** What the packet buffer pool means: a free list, the buffers held as input and as output, and
    callbacks waiting for a buffer of either kind. */
module PoolModel {
  import opened Prelude

  /** A callback scheduled with a buffer reference. */
  datatype Grant = Grant(func: nat, ref: nat)

  /** `limit` is half the pool; `spare` counts unused waiter entries; `calls` is the callback queue,
      bounded by callCap. */
  datatype Pool = Pool(
    limit: nat, callCap: nat,
    free: seq<nat>, ins: set<nat>, outs: set<nat>,
    inW: seq<nat>, outW: seq<nat>, spare: nat, calls: seq<Grant>)

  datatype Code = Ok | Overflow | NoWaiterEntry

  function Held(p: Pool, isIn: bool): set<nat> {
    if isIn then p.ins else p.outs
  }

  function Waiting(p: Pool, isIn: bool): seq<nat> {
    if isIn then p.inW else p.outW
  }

  function WithHeld(p: Pool, isIn: bool, s: set<nat>): Pool {
    if isIn then p.(ins := s) else p.(outs := s)
  }

  function WithWaiting(p: Pool, isIn: bool, w: seq<nat>): Pool {
    if isIn then p.(inW := w) else p.(outW := w)
  }

  datatype Taken = Taken(pool: Pool, ref: Option<nat>)

  /** zb_get_buf. */
  function Take(p: Pool, isIn: bool): Taken {
    if |Held(p, isIn)| < p.limit && p.free != [] then
      Taken(WithHeld(p.(free := p.free[1..]), isIn, Held(p, isIn) + {p.free[0]}), Some(p.free[0]))
    else Taken(p, None)
  }

  /** ZB_SCHEDULE_CALLBACK: a full queue drops the call. */
  function Schedule(p: Pool, g: Grant): Pool {
    if |p.calls| < p.callCap then p.(calls := p.calls + [g]) else p
  }

  datatype Asked = Asked(pool: Pool, code: Code)

  /** zb_get_buf_delayed. */
  function Ask(p: Pool, func: nat, isIn: bool): Asked {
    var t := Take(p, isIn);
    if t.ref.Some? then
      Asked(Schedule(t.pool, Grant(func, t.ref.value)), if |p.calls| < p.callCap then Ok else Overflow)
    else if p.spare > 0 then
      Asked(WithWaiting(p, isIn, Waiting(p, isIn) + [func]).(spare := p.spare - 1), Ok)
    else Asked(p, NoWaiterEntry)
  }

  /** The buffer goes back on top of the free list. */
  function PutBack(p: Pool, ref: nat): Pool {
    var isIn := ref in p.ins;
    WithHeld(p.(free := [ref] + p.free), isIn, Held(p, isIn) - {ref})
  }

  /** zb_free_buf: while the receiver needs a buffer, input waiters are passed over. A waiter's callback
      is scheduled with whatever zb_get_buf returns; with nothing the source would form a reference
      from a null pointer. */
  function Release(p: Pool, ref: nat, rxNeedBuf: bool): Pool {
    var isIn := ref in p.ins;
    var q := PutBack(p, ref);
    if (isIn && rxNeedBuf) || Waiting(q, isIn) == [] then q
    else
      var func := Waiting(q, isIn)[0];
      var t := Take(WithWaiting(q, isIn, Waiting(q, isIn)[1..]), isIn);
      var s := if t.ref.Some? then Schedule(t.pool, Grant(func, t.ref.value)) else t.pool;
      s.(spare := s.spare + 1)
  }

  // ---------- Invariants ----------

  /** Every buffer is exactly once free, held as input or held as output, and each kind holds at most
      its half. */
  ghost predicate Shares(limit: nat, free: seq<nat>, ins: set<nat>, outs: set<nat>) {
    && multiset(free) + multiset(ins) + multiset(outs) == multiset(Below(2 * limit))
    && |ins| <= limit && |outs| <= limit
  }

  lemma SharesCount(limit: nat, free: seq<nat>, ins: set<nat>, outs: set<nat>)
    requires Shares(limit, free, ins, outs)
    ensures |free| + |ins| + |outs| == 2 * limit
    ensures forall r :: r in free ==> r !in ins && r !in outs
    ensures forall r :: r in ins ==> r !in outs
    ensures forall r :: r in free || r in ins || r in outs ==> r < 2 * limit
  {
    var all := multiset(Below(2 * limit));
    assert |multiset(free) + multiset(ins) + multiset(outs)| == |all|;
    forall r: nat ensures multiset(free)[r] + multiset(ins)[r] + multiset(outs)[r] == all[r] <= 1 {
      assert (multiset(free) + multiset(ins) + multiset(outs))[r] == all[r];
    }
    forall r | r in free ensures r !in ins && r !in outs && r < 2 * limit {
      assert r in multiset(free) && r in all;
    }
    forall r | r in ins ensures r !in outs && r < 2 * limit {
      assert r in multiset(ins) && r in all;
    }
    forall r | r in outs ensures r < 2 * limit {
      assert r in multiset(outs) && r in all;
    }
  }

  lemma SharesSwapped(limit: nat, free: seq<nat>, ins: set<nat>, outs: set<nat>)
    requires Shares(limit, free, ins, outs)
    ensures Shares(limit, free, outs, ins)
  {
  }

  ghost predicate Inv(p: Pool) {
    Shares(p.limit, p.free, p.ins, p.outs)
  }

  /** A buffer moves from the free list to a kind below its half. The kinds are interchangeable. */
  lemma SharesTake(limit: nat, free: seq<nat>, held: set<nat>, other: set<nat>)
    requires Shares(limit, free, held, other) && |held| < limit
    ensures free != [] && free[0] !in held && free[0] !in other && free[0] < 2 * limit
    ensures |held + {free[0]}| == |held| + 1
    ensures Shares(limit, free[1..], held + {free[0]}, other)
    ensures Shares(limit, free[1..], other, held + {free[0]})
  {
    SharesCount(limit, free, held, other);
    assert free[0] in free;
    assert free == [free[0]] + free[1..];
    assert multiset(held + {free[0]}) == multiset(held) + multiset{free[0]};
    SharesSwapped(limit, free[1..], held + {free[0]}, other);
  }

  lemma SharesPut(limit: nat, free: seq<nat>, held: set<nat>, other: set<nat>, r: nat)
    requires Shares(limit, free, held, other) && r in held
    ensures r !in free && r !in other && r < 2 * limit
    ensures |held - {r}| == |held| - 1
    ensures Shares(limit, [r] + free, held - {r}, other)
    ensures Shares(limit, [r] + free, other, held - {r})
  {
    SharesCount(limit, free, held, other);
    assert multiset(held) == multiset(held - {r}) + multiset{r};
    SharesSwapped(limit, [r] + free, held - {r}, other);
  }

  /** Somebody waits only while the kind's quota is used up. */
  predicate WaitInv(p: Pool, isIn: bool) {
    Waiting(p, isIn) != [] ==> |Held(p, isIn)| == p.limit
  }

  /** An allocation fails iff its own quota is used up: the other kind can never starve it. */
  lemma TakeFailsIff(p: Pool, isIn: bool)
    requires Inv(p)
    ensures Take(p, isIn).ref.None? <==> |Held(p, isIn)| == p.limit
  {
    SharesCount(p.limit, p.free, p.ins, p.outs);
  }

  lemma TakeKeepsInv(p: Pool, isIn: bool)
    requires Inv(p)
    ensures Inv(Take(p, isIn).pool)
    ensures Take(p, isIn).ref.Some? ==> |Held(Take(p, isIn).pool, isIn)| == |Held(p, isIn)| + 1
  {
    if |Held(p, isIn)| < p.limit {
      SharesTake(p.limit, p.free, Held(p, isIn), Held(p, !isIn));
    }
  }

  lemma PutBackKeepsInv(p: Pool, ref: nat)
    requires Inv(p) && ref in p.ins + p.outs
    ensures Inv(PutBack(p, ref))
  {
    var isIn := ref in p.ins;
    SharesPut(p.limit, p.free, Held(p, isIn), Held(p, !isIn), ref);
  }

  /** The buffer put back last is the first taken, and then nothing has changed. */
  lemma PutBackThenTake(p: Pool, ref: nat, w: seq<nat>)
    requires Inv(p) && ref in p.ins + p.outs
    ensures var isIn := ref in p.ins;
      Take(WithWaiting(PutBack(p, ref), isIn, w), isIn) == Taken(WithWaiting(p, isIn, w), Some(ref))
  {
    var h := Held(p, ref in p.ins);
    assert |h - {ref}| == |h| - 1;
    assert h - {ref} + {ref} == h;
    assert ([ref] + p.free)[1..] == p.free;
  }

  /** The buffer handed to a waiter is never missing: it is the very buffer just freed. So with a waiter
      of its kind served, freeing changes nothing about who holds how many buffers. */
  lemma WaiterGetsFreedBuffer(p: Pool, ref: nat, rx: bool)
    requires Inv(p) && ref in p.ins + p.outs
    requires Waiting(p, ref in p.ins) != [] && !(ref in p.ins && rx)
    ensures var isIn := ref in p.ins;
      && Release(p, ref, rx) == Schedule(
           WithWaiting(p, isIn, Waiting(p, isIn)[1..]).(spare := p.spare + 1),
           Grant(Waiting(p, isIn)[0], ref))
  {
    PutBackThenTake(p, ref, Waiting(p, ref in p.ins)[1..]);
    ReleaseByTake(p, ref, rx);
  }

  lemma ReleaseByTake(p: Pool, ref: nat, rx: bool)
    requires Waiting(p, ref in p.ins) != [] && !(ref in p.ins && rx)
    requires var isIn := ref in p.ins; var rest := Waiting(p, isIn)[1..];
      Take(WithWaiting(PutBack(p, ref), isIn, rest), isIn) == Taken(WithWaiting(p, isIn, rest), Some(ref))
    ensures var isIn := ref in p.ins; var w := Waiting(p, isIn);
      Release(p, ref, rx) == Schedule(WithWaiting(p, isIn, w[1..]), Grant(w[0], ref)).(spare := p.spare + 1)
  {
  }

  lemma ReleaseKeepsInv(p: Pool, ref: nat, rx: bool)
    requires Inv(p) && ref in p.ins + p.outs
    ensures Inv(Release(p, ref, rx))
  {
    if Waiting(p, ref in p.ins) != [] && !(ref in p.ins && rx) {
      WaiterGetsFreedBuffer(p, ref, rx);
    } else {
      PutBackKeepsInv(p, ref);
    }
  }

  /** Freeing a buffer keeps the waiting invariant of its kind iff no waiter was passed over. */
  lemma ReleaseKeepsWaitInvIff(p: Pool, ref: nat, rx: bool)
    requires Inv(p) && ref in p.ins + p.outs && WaitInv(p, ref in p.ins)
    ensures WaitInv(Release(p, ref, rx), ref in p.ins) <==>
            !(ref in p.ins && rx && p.inW != [])
  {
    var isIn := ref in p.ins;
    if Waiting(p, isIn) != [] && !(isIn && rx) {
      WaiterGetsFreedBuffer(p, ref, rx);
    } else {
      assert |Held(p, isIn) - {ref}| == |Held(p, isIn)| - 1;
    }
  }

  /** The other kind's waiters and quota are not affected. */
  lemma ReleaseIgnoresOther(p: Pool, ref: nat, rx: bool)
    requires Inv(p) && ref in p.ins + p.outs
    ensures var other := ref !in p.ins;
            Held(Release(p, ref, rx), other) == Held(p, other)
            && Waiting(Release(p, ref, rx), other) == Waiting(p, other)
  {
    if Waiting(p, ref in p.ins) != [] && !(ref in p.ins && rx) {
      WaiterGetsFreedBuffer(p, ref, rx);
    } else {
      assert Release(p, ref, rx) == PutBack(p, ref);
    }
  }

  /** A waiter's turn is lost iff the callback queue is full at that moment. */
  lemma WaiterServedIff(p: Pool, ref: nat, rx: bool)
    requires Inv(p) && ref in p.ins + p.outs && Waiting(p, ref in p.ins) != [] && !(ref in p.ins && rx)
    ensures var isIn := ref in p.ins;
            Release(p, ref, rx).calls == p.calls + [Grant(Waiting(p, isIn)[0], ref)]
            <==> |p.calls| < p.callCap
  {
    WaiterGetsFreedBuffer(p, ref, rx);
  }

  /** Of two buffers, one is free and the other an input. */
  lemma OneOfTwo()
    ensures Shares(1, [1], {0}, {})
  {
    assert Below(2) == {0, 1};
  }

  /** A waiter whose turn comes while the callback queue is full is off its queue, not scheduled, and the
      buffer taken for it is with nobody. */
  lemma FullQueueLosesWaiter()
    ensures var p := Pool(1, 1, [1], {0}, {}, [7], [], 0, [Grant(9, 5)]);
            Inv(p) && (var q := Release(p, 0, false); q.inW == [] && q.calls == p.calls && q.ins == {0})
  {
    var p := Pool(1, 1, [1], {0}, {}, [7], [], 0, [Grant(9, 5)]);
    OneOfTwo();
    WaiterGetsFreedBuffer(p, 0, false);
  }

  // ---------- Requests and releases, field by field ----------

  /** What a request comes to. Below the kind's half, the buffer on top of the free list becomes one of its
      kind, and the callback is scheduled with that very buffer if there is room; else the request waits
      last in its queue while there is an entry for it. */
  ghost predicate Answered(p: Pool, func: nat, isIn: bool, q: Pool, code: Code) {
    if |if isIn then p.ins else p.outs| < p.limit && p.free != [] then
      var b, room := p.free[0], |p.calls| < p.callCap;
      && code == (if room then Ok else Overflow)
      && q == p.(free := p.free[1..],
                 ins := if isIn then p.ins + {b} else p.ins, outs := if isIn then p.outs else p.outs + {b},
                 calls := if room then p.calls + [Grant(func, b)] else p.calls)
    else if p.spare == 0 then code == NoWaiterEntry && q == p
    else
      && code == Ok
      && q == p.(inW := if isIn then p.inW + [func] else p.inW, outW := if isIn then p.outW else p.outW + [func],
                 spare := p.spare - 1)
  }

  lemma AskAnswers(p: Pool, func: nat, isIn: bool)
    ensures Answered(p, func, isIn, Ask(p, func, isIn).pool, Ask(p, func, isIn).code)
  {
  }

  /** What a release comes to. With a waiter of the buffer's kind, the first of them gets that very buffer,
      and nothing else changes but that its turn is lost if there is no room to schedule it; without one,
      or with the receiver claiming it, the buffer is on top of the free list. */
  ghost predicate Released(p: Pool, ref: nat, rxNeedBuf: bool, q: Pool) {
    var isIn := ref in p.ins;
    var waiters := if isIn then (if rxNeedBuf then [] else p.inW) else p.outW;
    if waiters != [] then
      q == p.(inW := if isIn then p.inW[1..] else p.inW, outW := if isIn then p.outW else p.outW[1..],
              spare := p.spare + 1,
              calls := if |p.calls| < p.callCap then p.calls + [Grant(waiters[0], ref)] else p.calls)
    else
      q == p.(free := [ref] + p.free, ins := p.ins - {ref}, outs := if isIn then p.outs else p.outs - {ref})
  }

  lemma ReleaseReleases(p: Pool, ref: nat, rxNeedBuf: bool)
    requires Inv(p) && ref in p.ins + p.outs
    ensures Released(p, ref, rxNeedBuf, Release(p, ref, rxNeedBuf))
  {
    if Waiting(p, ref in p.ins) != [] && !(ref in p.ins && rxNeedBuf) {
      WaiterGetsFreedBuffer(p, ref, rxNeedBuf);
    } else if ref !in p.ins {
      assert p.ins - {ref} == p.ins;
    }
  }

  // ---------- Runs ----------

  datatype Op =
    | Get(isIn: bool)
    | GetDelayed(func: nat, isIn: bool)
    | Free(ref: nat, rxNeedBuf: bool)
    | RunCall

  /** Only a held buffer may be freed; the scheduler runs a callback only if there is one. */
  predicate Legal(p: Pool, op: Op) {
    match op
    case Free(ref, _) => ref in p.ins + p.outs
    case RunCall => p.calls != []
    case _ => true
  }

  function Step(p: Pool, op: Op): Pool
    requires Legal(p, op)
  {
    match op
    case Get(isIn) => Take(p, isIn).pool
    case GetDelayed(func, isIn) => Ask(p, func, isIn).pool
    case Free(ref, rx) => Release(p, ref, rx)
    case RunCall => p.(calls := p.calls[1..])
  }

  predicate LegalRun(p: Pool, ops: seq<Op>)
    decreases |ops|
  {
    ops != [] ==> Legal(p, ops[0]) && LegalRun(Step(p, ops[0]), ops[1..])
  }

  function Run(p: Pool, ops: seq<Op>): Pool
    requires LegalRun(p, ops)
    decreases |ops|
  {
    if ops == [] then p else Run(Step(p, ops[0]), ops[1..])
  }

  lemma StepKeepsInv(p: Pool, op: Op)
    requires Inv(p) && Legal(p, op)
    ensures Inv(Step(p, op))
  {
    match op
    case Get(isIn) => TakeKeepsInv(p, isIn);
    case GetDelayed(func, isIn) => TakeKeepsInv(p, isIn);
    case Free(ref, rx) => ReleaseKeepsInv(p, ref, rx);
    case RunCall =>
  }

  /** In every run the buffers are conserved and each kind keeps to its half. */
  lemma {:induction false} RunKeepsInv(p: Pool, ops: seq<Op>)
    requires Inv(p) && LegalRun(p, ops)
    ensures Inv(Run(p, ops))
    decreases |ops|
  {
    if ops != [] {
      StepKeepsInv(p, ops[0]);
      RunKeepsInv(Step(p, ops[0]), ops[1..]);
    }
  }

  /** A free passes over a waiter, for the receiver. */
  predicate Strands(p: Pool, op: Op, isIn: bool) {
    op.Free? && isIn && op.ref in p.ins && op.rxNeedBuf && p.inW != []
  }

  lemma TakeKeepsWaitInv(p: Pool, kind: bool, isIn: bool)
    requires Inv(p) && WaitInv(p, isIn)
    ensures WaitInv(Take(p, kind).pool, isIn)
  {
    TakeFailsIff(p, kind);
    if kind == isIn && Take(p, kind).ref.Some? {
      assert Waiting(p, isIn) == [];
    }
  }

  lemma AskKeepsWaitInv(p: Pool, func: nat, kind: bool, isIn: bool)
    requires Inv(p) && WaitInv(p, isIn)
    ensures WaitInv(Ask(p, func, kind).pool, isIn)
  {
    TakeFailsIff(p, kind);
    TakeKeepsWaitInv(p, kind, isIn);
  }

  /** Exactly when a step keeps somebody from waiting at a quota with room. */
  lemma StepKeepsWaitInvIff(p: Pool, op: Op, isIn: bool)
    requires Inv(p) && WaitInv(p, isIn) && Legal(p, op)
    ensures WaitInv(Step(p, op), isIn) <==> !Strands(p, op, isIn)
  {
    match op
    case Get(k) => TakeKeepsWaitInv(p, k, isIn);
    case GetDelayed(func, k) => AskKeepsWaitInv(p, func, k, isIn);
    case Free(ref, rx) =>
      if isIn == (ref in p.ins) {
        ReleaseKeepsWaitInvIff(p, ref, rx);
      } else {
        ReleaseIgnoresOther(p, ref, rx);
      }
    case RunCall =>
  }

  /** No free of the run passes over a waiter of the kind. For output buffers none ever does. */
  predicate NoneStranded(p: Pool, ops: seq<Op>, isIn: bool)
    requires LegalRun(p, ops)
    decreases |ops|
  {
    ops != [] ==> !Strands(p, ops[0], isIn) && NoneStranded(Step(p, ops[0]), ops[1..], isIn)
  }

  /** Whether callbacks find room does not matter for this. */
  lemma {:induction false} RunKeepsWaitInv(p: Pool, ops: seq<Op>, isIn: bool)
    requires Inv(p) && WaitInv(p, isIn) && LegalRun(p, ops) && NoneStranded(p, ops, isIn)
    ensures WaitInv(Run(p, ops), isIn)
    decreases |ops|
  {
    if ops != [] {
      StepKeepsInv(p, ops[0]);
      StepKeepsWaitInvIff(p, ops[0], isIn);
      RunKeepsWaitInv(Step(p, ops[0]), ops[1..], isIn);
    }
  }

  // ---------- No overtaking ----------

  /** The callbacks of one kind whose requests the step accepts, to be served at once or queued. */
  function Requested(p: Pool, op: Op, isIn: bool): seq<nat>
    requires Legal(p, op)
  {
    if op.GetDelayed? && op.isIn == isIn && Ask(p, op.func, isIn).code == Ok then [op.func] else []
  }

  /** What the second callback queue has that the first has not, as functions. */
  function NewCalls(before: seq<Grant>, after: seq<Grant>): seq<nat> {
    if |after| > |before| then [after[|before|].func] else []
  }

  /** The kind of buffer a step hands out, if it hands out any. */
  function KindOf(p: Pool, op: Op): Option<bool> {
    match op
    case GetDelayed(_, kind) => Some(kind)
    case Free(ref, _) => Some(ref in p.ins)
    case _ => None
  }

  /** The callbacks of one kind the step schedules with a buffer. */
  function Served(p: Pool, op: Op, isIn: bool): seq<nat>
    requires Legal(p, op)
  {
    if KindOf(p, op) == Some(isIn) then NewCalls(p.calls, Step(p, op).calls) else []
  }

  /** A free is to serve a waiter of the kind, and the callback queue is full. */
  predicate LosesTurn(p: Pool, op: Op, isIn: bool) {
    op.Free? && (op.ref in p.ins) == isIn && Waiting(p, isIn) != [] && !(isIn && op.rxNeedBuf) && |p.calls| >= p.callCap
  }

  /** How often that happens in a run. */
  function TurnsLost(p: Pool, ops: seq<Op>, isIn: bool): nat
    requires LegalRun(p, ops)
    decreases |ops|
  {
    if ops == [] then 0
    else (if LosesTurn(p, ops[0], isIn) then 1 else 0) + TurnsLost(Step(p, ops[0]), ops[1..], isIn)
  }

  function AllRequested(p: Pool, ops: seq<Op>, isIn: bool): seq<nat>
    requires LegalRun(p, ops)
    decreases |ops|
  {
    if ops == [] then []
    else Requested(p, ops[0], isIn) + AllRequested(Step(p, ops[0]), ops[1..], isIn)
  }

  function AllServed(p: Pool, ops: seq<Op>, isIn: bool): seq<nat>
    requires LegalRun(p, ops)
    decreases |ops|
  {
    if ops == [] then []
    else Served(p, ops[0], isIn) + AllServed(Step(p, ops[0]), ops[1..], isIn)
  }

  /** An answered request of the kind. */
  lemma AskServesInOrder(p: Pool, func: nat, isIn: bool)
    requires Inv(p) && WaitInv(p, isIn)
    ensures var a := Ask(p, func, isIn);
      NewCalls(p.calls, a.pool.calls) + Waiting(a.pool, isIn) == Waiting(p, isIn) + if a.code == Ok then [func] else []
  {
    var a := Ask(p, func, isIn);
    if Take(p, isIn).ref.Some? {
      AskGranted(p, func, isIn);
      TakeFailsIff(p, isIn);
    } else {
      AskQueued(p, func, isIn);
      assert [] + Waiting(a.pool, isIn) == Waiting(a.pool, isIn);
      assert Waiting(p, isIn) + [] == Waiting(p, isIn);
    }
  }

  /** At once: the callback is scheduled if there is room, and otherwise the request is refused. */
  lemma AskGranted(p: Pool, func: nat, isIn: bool)
    requires Take(p, isIn).ref.Some?
    ensures var a := Ask(p, func, isIn);
      && (a.code == Ok <==> |p.calls| < p.callCap)
      && NewCalls(p.calls, a.pool.calls) == (if a.code == Ok then [func] else [])
      && Waiting(a.pool, isIn) == Waiting(p, isIn)
  {
    assert |p.calls| < p.callCap ==>
      Ask(p, func, isIn).pool.calls == p.calls + [Grant(func, Take(p, isIn).ref.value)];
  }

  lemma AskQueued(p: Pool, func: nat, isIn: bool)
    requires Take(p, isIn).ref.None?
    ensures var a := Ask(p, func, isIn);
      && NewCalls(p.calls, a.pool.calls) == []
      && Waiting(a.pool, isIn) == if a.code == Ok then Waiting(p, isIn) + [func] else Waiting(p, isIn)
  {
  }

  /** A freed buffer of the kind: the first waiter is served, unless its turn is lost or it is passed
      over. */
  lemma FreeServes(p: Pool, ref: nat, rx: bool)
    requires Inv(p) && ref in p.ins + p.outs
    ensures var isIn, q := ref in p.ins, Release(p, ref, rx);
      NewCalls(p.calls, q.calls) + Waiting(q, isIn)
        == if LosesTurn(p, Free(ref, rx), isIn) then Waiting(p, isIn)[1..] else Waiting(p, isIn)
  {
    var isIn, q := ref in p.ins, Release(p, ref, rx);
    if Waiting(p, isIn) != [] && !(isIn && rx) {
      WaiterGetsFreedBuffer(p, ref, rx);
      if |p.calls| < p.callCap {
        HeadServed(p, q, isIn, ref);
      } else {
        assert [] + Waiting(q, isIn) == Waiting(q, isIn);
      }
    } else {
      assert q == PutBack(p, ref);
      assert [] + Waiting(q, isIn) == Waiting(q, isIn);
    }
  }

  lemma HeadServed(p: Pool, q: Pool, isIn: bool, ref: nat)
    requires Waiting(p, isIn) != []
    requires q.calls == p.calls + [Grant(Waiting(p, isIn)[0], ref)] && Waiting(q, isIn) == Waiting(p, isIn)[1..]
    ensures NewCalls(p.calls, q.calls) + Waiting(q, isIn) == Waiting(p, isIn)
  {
  }

  lemma AskStepServes(p: Pool, func: nat, kind: bool, isIn: bool)
    requires Inv(p) && WaitInv(p, isIn)
    ensures var op := GetDelayed(func, kind);
      Served(p, op, isIn) + Waiting(Step(p, op), isIn) == Waiting(p, isIn) + Requested(p, op, isIn)
  {
    if kind == isIn {
      AskServesInOrder(p, func, kind);
    } else {
      NothingServed(Waiting(p, isIn), Waiting(Ask(p, func, kind).pool, isIn));
    }
  }

  lemma FreeStepServes(p: Pool, ref: nat, rx: bool, isIn: bool)
    requires Inv(p) && ref in p.ins + p.outs
    ensures var op := Free(ref, rx);
      Served(p, op, isIn) + Waiting(Step(p, op), isIn) ==
        if LosesTurn(p, op, isIn) then Waiting(p, isIn)[1..] else Waiting(p, isIn)
  {
    if isIn == (ref in p.ins) {
      FreeServes(p, ref, rx);
    } else {
      ReleaseIgnoresOther(p, ref, rx);
      NothingServed(Waiting(p, isIn), Waiting(Release(p, ref, rx), isIn));
      assert Waiting(p, isIn) + [] == Waiting(p, isIn);
    }
  }

  /** One step: what it serves followed by who waits afterwards. */
  lemma StepServes(p: Pool, op: Op, isIn: bool)
    requires Inv(p) && WaitInv(p, isIn) && Legal(p, op)
    ensures Served(p, op, isIn) + Waiting(Step(p, op), isIn) ==
      if LosesTurn(p, op, isIn) then Waiting(p, isIn)[1..] else Waiting(p, isIn) + Requested(p, op, isIn)
  {
    match op
    case Get(_) => NothingServed(Waiting(p, isIn), Waiting(Step(p, op), isIn));
    case GetDelayed(func, kind) => AskStepServes(p, func, kind, isIn);
    case Free(ref, rx) =>
      FreeStepServes(p, ref, rx, isIn);
      assert Waiting(p, isIn) + [] == Waiting(p, isIn);
    case RunCall => NothingServed(Waiting(p, isIn), Waiting(Step(p, op), isIn));
  }

  lemma NothingServed(w: seq<nat>, w': seq<nat>)
    requires w == w'
    ensures [] + w' == w + []
  {
  }

  /** Exactly when a step serves in order: it does not free a buffer for a waiter while the callback
      queue is full. Other steps need no room. */
  lemma StepServesInOrderIff(p: Pool, op: Op, isIn: bool)
    requires Inv(p) && WaitInv(p, isIn) && Legal(p, op)
    ensures Served(p, op, isIn) + Waiting(Step(p, op), isIn) == Waiting(p, isIn) + Requested(p, op, isIn)
            <==> !LosesTurn(p, op, isIn)
  {
    StepServes(p, op, isIn);
    if LosesTurn(p, op, isIn) {
      assert |Waiting(p, isIn)[1..]| < |Waiting(p, isIn) + Requested(p, op, isIn)|;
    }
  }

  /** Every request accepted is served or waits in the end, but for the turns lost. */
  lemma {:induction false} TurnsAddUp(p: Pool, ops: seq<Op>, isIn: bool)
    requires Inv(p) && WaitInv(p, isIn) && LegalRun(p, ops) && NoneStranded(p, ops, isIn)
    ensures |AllServed(p, ops, isIn)| + |Waiting(Run(p, ops), isIn)| + TurnsLost(p, ops, isIn)
         == |Waiting(p, isIn)| + |AllRequested(p, ops, isIn)|
    decreases |ops|
  {
    if ops != [] {
      var q := Step(p, ops[0]);
      StepKeepsInv(p, ops[0]);
      StepKeepsWaitInvIff(p, ops[0], isIn);
      StepAddsUp(p, ops[0], isIn);
      TurnsAddUp(q, ops[1..], isIn);
    }
  }

  lemma StepAddsUp(p: Pool, op: Op, isIn: bool)
    requires Inv(p) && WaitInv(p, isIn) && Legal(p, op)
    ensures |Served(p, op, isIn)| + |Waiting(Step(p, op), isIn)| + (if LosesTurn(p, op, isIn) then 1 else 0)
         == |Waiting(p, isIn)| + |Requested(p, op, isIn)|
  {
    StepServes(p, op, isIn);
    var s := Served(p, op, isIn) + Waiting(Step(p, op), isIn);
    assert |s| == |Served(p, op, isIn)| + |Waiting(Step(p, op), isIn)|;
  }

  /** First come, first served. Over any run in which no waiter is passed over, the callbacks served
      followed by those still waiting are those that were waiting followed by those accepted since, in
      order, iff no waiter's turn came with the callback queue full. So no request, however lucky its
      timing, overtakes a waiter. */
  lemma RunServesInOrderIff(p: Pool, ops: seq<Op>, isIn: bool)
    requires Inv(p) && WaitInv(p, isIn) && LegalRun(p, ops) && NoneStranded(p, ops, isIn)
    ensures AllServed(p, ops, isIn) + Waiting(Run(p, ops), isIn) == Waiting(p, isIn) + AllRequested(p, ops, isIn)
            <==> TurnsLost(p, ops, isIn) == 0
  {
    TurnsAddUp(p, ops, isIn);
    if TurnsLost(p, ops, isIn) == 0 {
      RunServesInOrder(p, ops, isIn);
    } else {
      var s, t := AllServed(p, ops, isIn) + Waiting(Run(p, ops), isIn), Waiting(p, isIn) + AllRequested(p, ops, isIn);
      assert |s| < |t|;
    }
  }

  lemma {:induction false} RunServesInOrder(p: Pool, ops: seq<Op>, isIn: bool)
    requires Inv(p) && WaitInv(p, isIn) && LegalRun(p, ops) && NoneStranded(p, ops, isIn)
    requires TurnsLost(p, ops, isIn) == 0
    ensures AllServed(p, ops, isIn) + Waiting(Run(p, ops), isIn) == Waiting(p, isIn) + AllRequested(p, ops, isIn)
    decreases |ops|
  {
    if ops != [] {
      var q := Step(p, ops[0]);
      StepServesInOrderIff(p, ops[0], isIn);
      StepKeepsInv(p, ops[0]);
      StepKeepsWaitInvIff(p, ops[0], isIn);
      RunServesInOrder(q, ops[1..], isIn);
      Chain(Served(p, ops[0], isIn), AllServed(q, ops[1..], isIn), Waiting(q, isIn), Waiting(Run(p, ops), isIn),
            Waiting(p, isIn), Requested(p, ops[0], isIn), AllRequested(q, ops[1..], isIn));
    }
  }

  lemma Chain<T>(s: seq<T>, ss: seq<T>, w1: seq<T>, w2: seq<T>, w: seq<T>, r: seq<T>, rr: seq<T>)
    requires s + w1 == w + r && ss + w2 == w1 + rr
    ensures (s + ss) + w2 == w + (r + rr)
  {
    assert (s + ss) + w2 == s + (ss + w2);
    assert s + (w1 + rr) == (s + w1) + rr;
    assert (w + r) + rr == w + (r + rr);
  }

  /** A receiver that needs a buffer when one is freed leaves a waiter behind although its quota has
      room again; the next request then overtakes it. */
  lemma ReceiverClaimStrandsWaiter()
    ensures var p := Pool(1, 4, [1], {0}, {}, [7], [], 0, []);
            Inv(p) && WaitInv(p, true)
            && (var q := Release(p, 0, true);
                q.inW == [7] && |q.ins| < q.limit
                && Ask(q, 8, true).pool.calls == [Grant(8, 0)] && Ask(q, 8, true).pool.inW == [7])
  {
    var p := Pool(1, 4, [1], {0}, {}, [7], [], 0, []);
    OneOfTwo();
    var q := Release(p, 0, true);
    assert q.ins == {} && q.free == [0, 1];
  }
}
