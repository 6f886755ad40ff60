/** The packet buffer pool as zb_bufpool.c and zb_bufpool_init.c keep it: a free list through the
    buffers' `next` links, two allocation counters, and linked queues of waiting callbacks. */
module BufferPools {
  import opened Prelude
  import opened PoolModel
  import opened Partitions
  import opened Lists
  import RingBuffers

  // ---------- The free list ----------

  /** The buffers linked from head, in order. */
  ghost predicate Linked(next: seq<Option<nat>>, head: Option<nat>, free: seq<nat>)
    decreases |free|
  {
    if free == [] then head == None
    else head == Some(free[0]) && free[0] < |next| && Linked(next, next[free[0]], free[1..])
  }

  /** The links alone say which buffers are free. */
  lemma {:induction false} LinksDetermine(next: seq<Option<nat>>, head: Option<nat>, f: seq<nat>, g: seq<nat>)
    requires Linked(next, head, f) && Linked(next, head, g)
    ensures f == g
    decreases |f|
  {
    if f != [] && g != [] {
      LinksDetermine(next, next[f[0]], f[1..], g[1..]);
      assert f == [f[0]] + f[1..] && g == [g[0]] + g[1..];
    }
  }

  lemma {:induction false} LinkedFrom(next: seq<Option<nat>>, head: Option<nat>, free: seq<nat>, i: nat)
    requires Linked(next, head, free) && i < |free|
    ensures Linked(next, Some(free[i]), free[i..])
    decreases i
  {
    if i > 0 {
      LinkedFrom(next, next[free[0]], free[1..], i - 1);
      assert free[1..][i - 1..] == free[i..];
    } else {
      assert free[0..] == free;
    }
  }

  /** So no buffer is linked twice. */
  lemma LinkedIsDistinct(next: seq<Option<nat>>, head: Option<nat>, free: seq<nat>)
    requires Linked(next, head, free)
    ensures Distinct(free)
  {
    forall i, j | 0 <= i < j < |free| ensures free[i] != free[j] {
      LinkedFrom(next, head, free, i);
      LinkedFrom(next, head, free, j);
      assert |free[i..]| != |free[j..]|;
      if Linked(next, Some(free[i]), free[j..]) {
        LinksDetermine(next, Some(free[i]), free[i..], free[j..]);
      }
    }
  }

  /** A link that belongs to no free buffer does not matter. */
  lemma {:induction false} LinkedElsewhere(next: seq<Option<nat>>, head: Option<nat>, free: seq<nat>, r: nat, x: Option<nat>)
    requires Linked(next, head, free) && r < |next| && r !in free
    ensures Linked(next[r := x], head, free)
    decreases |free|
  {
    if free != [] {
      LinkedElsewhere(next, next[free[0]], free[1..], r, x);
    }
  }

  lemma LinkedPush(next: seq<Option<nat>>, head: Option<nat>, free: seq<nat>, r: nat)
    requires Linked(next, head, free) && r < |next| && r !in free
    ensures Linked(next[r := head], Some(r), [r] + free)
  {
    LinkedElsewhere(next, head, free, r, head);
    assert ([r] + free)[1..] == free;
  }

  /** The numbers from k below n. */
  ghost function From(k: nat, n: nat): (s: seq<nat>)
    requires k <= n
    ensures |s| == n - k && forall i :: 0 <= i < |s| ==> s[i] == k + i
  {
    seq(n - k, i => k + i)
  }

  lemma {:induction false} LinkedInOrder(next: seq<Option<nat>>, k: nat)
    requires k < |next| && forall i :: 0 <= i < |next| ==> next[i] == if i + 1 < |next| then Some(i + 1) else None
    ensures Linked(next, Some(k), From(k, |next|))
    decreases |next| - k
  {
    var s := From(k, |next|);
    if k + 1 < |next| {
      LinkedInOrder(next, k + 1);
      assert s[1..] == From(k + 1, |next|);
    }
  }

  class FreeList {
    const next: array<Option<nat>>
    var head: Option<nat>
    ghost var free: seq<nat>

    ghost predicate Valid()
      reads this, next
    {
      Linked(next[..], head, free)
    }

    /** zb_init_buffers: link every buffer to its successor. */
    constructor (n: nat)
      requires n > 0
      ensures Valid() && fresh(next) && next.Length == n
      ensures free == From(0, n)
    {
      next := new Option<nat>[n](_ => None);
      head := Some(0);
      free := From(0, n);
      new;
      var p := 0;
      var i := n - 1;
      while i > 0
        invariant p + i == n - 1 && free == From(0, n) && head == Some(0)
        invariant forall k :: 0 <= k < p ==> next[k] == Some(k + 1)
      {
        i := i - 1;
        next[p] := Some(p + 1);
        p := p + 1;
      }
      next[p] := None;
      LinkedInOrder(next[..], 0);
    }

    method Pop() returns (r: Option<nat>)
      requires Valid()
      modifies this
      ensures Valid()
      ensures old(free) == [] ==> r == None && free == []
      ensures old(free) != [] ==> r == Some(old(free)[0]) && free == old(free)[1..]
    {
      r := head;
      if head.Some? {
        head := next[head.value];
        free := free[1..];
      }
    }

    method Push(ref: nat)
      requires Valid() && ref < next.Length && ref !in free
      modifies this, next
      ensures Valid() && free == [ref] + old(free)
    {
      LinkedPush(next[..], head, free, ref);
      next[ref] := head;
      head := Some(ref);
      free := [ref] + free;
    }
  }

  // ---------- The waiting callbacks ----------

  /** inbuf_queue or outbuf_queue. */
  class WaitQueue {
    var head: Node?
    var tail: Node?
    ghost var q: seq<Node>
    ghost var funcs: seq<nat>

    ghost predicate Valid()
      reads this, q`next, q`func
    {
      && Fifo(head, tail, q)
      && |funcs| == |q| && forall i {:trigger q[i].func} :: 0 <= i < |q| ==> q[i].func == funcs[i]
    }

    twostate lemma Frame()
      requires old(Valid()) && unchanged(this) && unchanged(q`next, q`func)
      ensures Valid()
    {
    }

    constructor ()
      ensures Valid() && q == [] && funcs == []
    {
      head, tail, q, funcs := null, null, [], [];
    }

    method Put(ent: Node)
      requires Valid() && ent !in q
      modifies this, q`next, ent`next
      ensures Valid() && q == old(q) + [ent] && funcs == old(funcs) + [ent.func]
    {
      head, tail := PutTail(head, tail, ent, q);
      q := q + [ent];
      funcs := funcs + [ent.func];
    }

    method Take() returns (ent: Node?)
      requires Valid()
      modifies this
      ensures Valid()
      ensures old(q) == [] ==> ent == null && q == [] && funcs == []
      ensures old(q) != [] ==> ent == old(q)[0] && q == old(q)[1..]
      ensures old(q) != [] ==> funcs == old(funcs)[1..] && ent.func == old(funcs)[0]
    {
      head, tail, ent := TakeHead(head, tail, q);
      if ent != null {
        q := q[1..];
        funcs := funcs[1..];
      }
    }
  }

  // How entries move: first the queue of one kind, second that of the other, third the spare ones.

  lemma NoneWaiting<T>(nodes: seq<T>)
    requires Distinct(nodes)
    ensures Divide(ThreeLists([], [], Backwards(nodes), Elements(nodes)))
  {
    DistinctCount(nodes);
    TotalDivides(ThreeLists([], [], Backwards(nodes), Elements(nodes)));
  }

  lemma KindsSwapped<T>(p: ThreeLists<T>)
    requires Divide(p)
    ensures Divide(p.(first := p.second, second := p.first))
  {
    TotalIsPool(p);
    TotalDivides(p.(first := p.second, second := p.first));
  }

  /** From the top of the spare entries to the end of the queue. */
  lemma SpareTaken<T>(p: ThreeLists<T>)
    requires Divide(p) && p.third != []
    ensures Divide(p.(first := p.first + [p.third[0]], third := p.third[1..]))
  {
    TotalIsPool(p);
    HeadCount(p.third);
    TotalDivides(p.(first := p.first + [p.third[0]], third := p.third[1..]));
  }

  /** From the front of the queue to the top of the spare entries. */
  lemma SpareReturned<T>(p: ThreeLists<T>)
    requires Divide(p) && p.first != []
    ensures Divide(p.(first := p.first[1..], third := [p.first[0]] + p.third))
  {
    TotalIsPool(p);
    HeadCount(p.first);
    TotalDivides(p.(first := p.first[1..], third := [p.first[0]] + p.third));
  }

  class WaitLists {
    ghost const pool: set<Node>
    const inQ: WaitQueue
    const outQ: WaitQueue
    var spareHead: Node?
    ghost var spare: seq<Node>

    function Queue(isIn: bool): WaitQueue {
      if isIn then inQ else outQ
    }

    ghost function Lists(w: WaitQueue, o: WaitQueue): ThreeLists<Node>
      reads this, w, o
    {
      ThreeLists(w.q, o.q, spare, pool)
    }

    /** Every waiter entry is in one of the two queues or spare. */
    ghost predicate Parted(w: WaitQueue, o: WaitQueue)
      reads this, w, w.q, o, o.q, spare
    {
      Divide(Lists(w, o)) && w.Valid() && o.Valid() && Stack(spareHead, spare)
    }

    ghost predicate Valid()
      reads this, inQ, inQ.q, outQ, outQ.q, spare
    {
      inQ != outQ && Parted(inQ, outQ)
    }

    constructor (nodes: seq<Node>)
      requires Distinct(nodes)
      modifies nodes`next
      ensures Valid() && inQ.funcs == [] && outQ.funcs == [] && |spare| == |nodes| && pool == Elements(nodes)
      ensures fresh(inQ) && fresh(outQ)
    {
      pool := Elements(nodes);
      inQ := new WaitQueue();
      outQ := new WaitQueue();
      spareHead, spare := null, Backwards(nodes);
      new;
      NoneWaiting(nodes);
      // The waiter half of zb_sched_init.
      spareHead := PushAll(nodes);
    }

    /** ZB_STK_POP of a waiter entry. */
    method PopSpare(func: nat, ghost s: seq<Node>) returns (ent: Node)
      requires Stack(spareHead, s) && s != []
      modifies this`spareHead, s`func
      ensures ent == s[0] && ent.func == func && Stack(spareHead, s[1..])
    {
      var rest, top := Pop(spareHead, s);
      ent := top;
      spareHead := rest;
      ent.func := func;
    }

    /** The spare entry goes to the end of w; the rest of the spare ones are left alone. */
    method PutApart(w: WaitQueue, ent: Node, ghost s: seq<Node>)
      requires w.Valid() && ent !in w.q && Stack(spareHead, s) && ent !in s && Apart(w.q, s)
      modifies w, w.q`next, ent`next
      ensures w.Valid() && w.q == old(w.q) + [ent] && w.funcs == old(w.funcs) + [ent.func]
      ensures Stack(spareHead, s)
    {
      w.Put(ent);
      StackFrame((spareHead, s));
    }

    /** From the top of the spare entries s to the end of w. */
    method MoveToQueue(w: WaitQueue, func: nat, ghost s: seq<Node>)
      requires w.Valid() && Stack(spareHead, s) && s != [] && Apart(w.q, s)
      modifies this`spareHead, w, w.q`next, s`next, s`func
      ensures w.Valid() && w.q == old(w.q) + [s[0]] && w.funcs == old(w.funcs) + [func]
      ensures Stack(spareHead, s[1..])
    {
      var ent := PopSpare(func, s);
      w.Frame();
      PutApart(w, ent, s[1..]);
    }

    /** The same with the other kind's queue o, which is left alone. */
    method Add(w: WaitQueue, o: WaitQueue, func: nat)
      requires w != o && Parted(w, o) && spare != []
      modifies this`spareHead, this`spare, w, w.q`next, spare`next, spare`func
      ensures Parted(w, o) && w.funcs == old(w.funcs) + [func] && |spare| == |old(spare)| - 1
    {
      ghost var s := spare;
      PartitionApart(Lists(w, o));
      SpareTaken(Lists(w, o));
      spare := s[1..];
      MoveToQueue(w, func, s);
      o.Frame();
    }

    /** The waiting branch of zb_get_buf_delayed; false if no entry is left. */
    method AddWaiter(isIn: bool, func: nat) returns (ok: bool)
      requires Valid()
      modifies this, inQ, outQ, pool
      ensures Valid() && (ok <==> |old(spare)| > 0)
      ensures Queue(isIn).funcs == if ok then old(Queue(isIn).funcs) + [func] else old(Queue(isIn).funcs)
      ensures Queue(!isIn).funcs == old(Queue(!isIn).funcs)
      ensures |spare| == |old(spare)| - (if ok then 1 else 0)
    {
      ok := spareHead != null;
      if ok {
        PartitionWithin(Lists(inQ, outQ));
        if isIn {
          Add(inQ, outQ, func);
        } else {
          KindsSwapped(Lists(inQ, outQ));
          Add(outQ, inQ, func);
          KindsSwapped(Lists(outQ, inQ));
        }
      }
    }

    /** ZB_STK_PUSH of an entry that is neither spare nor in the queue, which is left alone. */
    method PushApart(w: WaitQueue, ent: Node, ghost s: seq<Node>)
      requires w.Valid() && ent !in w.q && Stack(spareHead, s) && ent !in s
      modifies this`spareHead, ent`next
      ensures w.Valid() && Stack(spareHead, [ent] + s)
    {
      spareHead := Push(spareHead, ent, s);
      w.Frame();
    }

    /** From the front of w to the top of the spare entries s. */
    method MoveToSpare(w: WaitQueue, ghost s: seq<Node>) returns (func: nat)
      requires w.Valid() && w.q != [] && Stack(spareHead, s) && Apart(w.q, s)
      modifies this`spareHead, w, w.q`next
      ensures w.Valid() && w.q == old(w.q)[1..] && func == old(w.funcs)[0] && w.funcs == old(w.funcs)[1..]
      ensures Stack(spareHead, [old(w.q)[0]] + s)
    {
      var ent: Node := w.Take();
      func := ent.func;
      PushApart(w, ent, s);
    }

    /** The same with the other kind's queue o, which is left alone. */
    method Take(w: WaitQueue, o: WaitQueue) returns (func: nat)
      requires w != o && Parted(w, o) && w.q != []
      modifies this`spareHead, this`spare, w, w.q`next
      ensures Parted(w, o) && func == old(w.funcs)[0]
      ensures w.funcs == old(w.funcs)[1..] && |spare| == |old(spare)| + 1
    {
      ghost var s := spare;
      PartitionApart(Lists(w, o));
      SpareReturned(Lists(w, o));
      spare := [w.q[0]] + s;
      func := MoveToSpare(w, s);
      o.Frame();
    }

    /** ZB_SL_LIST_CUT_HEAD and the return of the entry to the free stack. */
    method TakeWaiter(isIn: bool) returns (func: Option<nat>)
      requires Valid()
      modifies this, inQ, outQ, pool
      ensures Valid()
      ensures func == (if old(Queue(isIn).funcs) == [] then None else Some(old(Queue(isIn).funcs)[0]))
      ensures Queue(isIn).funcs == if func.Some? then old(Queue(isIn).funcs)[1..] else []
      ensures Queue(!isIn).funcs == old(Queue(!isIn).funcs)
      ensures |spare| == |old(spare)| + (if func.Some? then 1 else 0)
    {
      func := None;
      PartitionWithin(Lists(inQ, outQ));
      if isIn {
        if inQ.head != null {
          var f := Take(inQ, outQ);
          func := Some(f);
        }
      } else {
        if outQ.head != null {
          KindsSwapped(Lists(inQ, outQ));
          var f := Take(outQ, inQ);
          KindsSwapped(Lists(outQ, inQ));
          func := Some(f);
        }
      }
    }
  }

  // ---------- The buffers and their two quotas ----------

  /** The is_in_buf flags of the buffers held. */
  ghost predicate Marked(flags: seq<bool>, held: set<nat>, isIn: bool) {
    forall r :: r in held ==> r < |flags| && flags[r] == isIn
  }

  lemma MarkTaken(flags: seq<bool>, held: set<nat>, other: set<nat>, r: nat, isIn: bool)
    requires Marked(flags, held, isIn) && Marked(flags, other, !isIn) && r < |flags| && r !in other
    ensures Marked(flags[r := isIn], held + {r}, isIn) && Marked(flags[r := isIn], other, !isIn)
  {
  }

  lemma AllFree(half: nat)
    ensures Shares(half, From(0, 2 * half), {}, {})
  {
    var s := From(0, 2 * half);
    DistinctCount(s);
    assert forall r :: r in Below(2 * half) ==> s[r] == r;
    assert Elements(s) == Below(2 * half);
  }

  class Buffers {
    const limit: nat
    const frees: FreeList
    const isIn: array<bool>
    var inCount: nat
    var outCount: nat
    ghost var ins: set<nat>
    ghost var outs: set<nat>

    ghost predicate Valid()
      reads this, frees, frees.next, isIn
    {
      && frees.Valid()
      && isIn.Length == frees.next.Length == 2 * limit
      && inCount == |ins| && outCount == |outs|
      && Marked(isIn[..], ins, true) && Marked(isIn[..], outs, false)
      && Shares(limit, frees.free, ins, outs)
    }

    constructor (half: nat)
      requires half > 0
      ensures Valid() && limit == half && frees.free == From(0, 2 * half) && ins == outs == {}
      ensures fresh(frees) && fresh(frees.next) && fresh(isIn)
    {
      AllFree(half);
      limit := half;
      frees := new FreeList(2 * half);
      isIn := new bool[2 * half](_ => false);
      inCount, outCount, ins, outs := 0, 0, {}, {};
    }

    method TakeIn() returns (r: nat)
      requires Valid() && inCount < limit
      modifies this, frees, isIn
      ensures Valid() && old(frees.free) != [] && r == old(frees.free)[0]
      ensures frees.free == old(frees.free)[1..] && ins == old(ins) + {r} && outs == old(outs)
    {
      SharesTake(limit, frees.free, ins, outs);
      var top := frees.Pop();
      r := top.value;
      MarkTaken(isIn[..], ins, outs, r, true);
      isIn[r] := true;
      inCount := inCount + 1;
      ins := ins + {r};
    }

    method TakeOut() returns (r: nat)
      requires Valid() && outCount < limit
      modifies this, frees, isIn
      ensures Valid() && old(frees.free) != [] && r == old(frees.free)[0]
      ensures frees.free == old(frees.free)[1..] && outs == old(outs) + {r} && ins == old(ins)
    {
      SharesTake(limit, frees.free, outs, ins);
      var top := frees.Pop();
      r := top.value;
      MarkTaken(isIn[..], outs, ins, r, false);
      isIn[r] := false;
      outCount := outCount + 1;
      outs := outs + {r};
    }

    /** zb_get_buf. */
    method GetBuf(wantIn: bool) returns (r: Option<nat>)
      requires Valid()
      modifies this, frees, isIn
      ensures Valid()
      ensures r.Some? <==> |old(HeldOf(wantIn))| < limit
      ensures r.Some? ==> old(frees.free) != [] && r.value == old(frees.free)[0] && frees.free == old(frees.free)[1..]
      ensures r.Some? ==> HeldOf(wantIn) == old(HeldOf(wantIn)) + {r.value}
      ensures r.None? ==> frees.free == old(frees.free) && HeldOf(wantIn) == old(HeldOf(wantIn))
      ensures HeldOf(!wantIn) == old(HeldOf(!wantIn))
    {
      r := None;
      if wantIn {
        if inCount < limit {
          var b := TakeIn();
          r := Some(b);
        }
      } else {
        if outCount < limit {
          var b := TakeOut();
          r := Some(b);
        }
      }
    }

    ghost function HeldOf(wantIn: bool): set<nat>
      reads this
    {
      if wantIn then ins else outs
    }

    method ReturnIn(ref: nat)
      requires Valid() && ref in ins
      modifies this, frees, frees.next
      ensures Valid() && frees.free == [ref] + old(frees.free)
      ensures ins == old(ins) - {ref} && outs == old(outs)
    {
      SharesPut(limit, frees.free, ins, outs, ref);
      inCount := inCount - 1;
      ins := ins - {ref};
      frees.Push(ref);
    }

    method ReturnOut(ref: nat)
      requires Valid() && ref in outs
      modifies this, frees, frees.next
      ensures Valid() && frees.free == [ref] + old(frees.free)
      ensures outs == old(outs) - {ref} && ins == old(ins)
    {
      SharesPut(limit, frees.free, outs, ins, ref);
      outCount := outCount - 1;
      outs := outs - {ref};
      frees.Push(ref);
    }

    /** The counter and free-list updates at the start of zb_free_buf. */
    method PutBackBuf(ref: nat) returns (wasIn: bool)
      requires Valid() && ref in ins + outs
      modifies this, frees, frees.next
      ensures Valid() && wasIn == (ref in old(ins)) && frees.free == [ref] + old(frees.free)
      ensures if ref in old(ins) then ins == old(ins) - {ref} && outs == old(outs)
              else outs == old(outs) - {ref} && ins == old(ins)
    {
      wasIn := isIn[ref];
      if wasIn {
        ReturnIn(ref);
      } else {
        ReturnOut(ref);
      }
    }
  }

  // ---------- Buffers, waiters and the callback queue together ----------

  twostate lemma BufsFrame(b: Buffers)
    requires old(b.Valid()) && unchanged(b, b.frees, b.frees.next, b.isIn)
    ensures b.Valid()
  {
  }

  twostate lemma WaitsFrame(w: WaitLists)
    requires old(w.Valid()) && unchanged(w, w.inQ, w.outQ) && unchanged(w.inQ.q, w.outQ.q, w.spare)
    ensures w.Valid()
  {
  }

  class BufferPool {
    const bufs: Buffers
    const waits: WaitLists
    const cbQ: RingBuffers.RingBuffer<Grant>

    ghost predicate Valid()
      reads this, bufs, bufs.frees, bufs.frees.next, bufs.isIn
      reads waits, waits.inQ, waits.inQ.q, waits.outQ, waits.outQ.q, waits.spare, cbQ, cbQ.ring
    {
      bufs.Valid() && waits.Valid() && cbQ.Valid()
    }

    ghost function View(): Pool
      reads this, bufs, bufs.frees, waits, waits.inQ, waits.outQ, cbQ
    {
      Pool(bufs.limit, cbQ.ring.Length, bufs.frees.free, bufs.ins, bufs.outs,
           waits.inQ.funcs, waits.outQ.funcs, |waits.spare|, cbQ.contents)
    }

    constructor (half: nat, callCap: nat, nodes: seq<Node>)
      requires half > 0 && callCap > 0 && Distinct(nodes)
      modifies nodes`next
      ensures Valid()
      ensures View() == Pool(half, callCap, From(0, 2 * half), {}, {}, [], [], |nodes|, [])
    {
      var w := new WaitLists(nodes);
      label W:
      var b := new Buffers(half);
      label B:
      var c := new RingBuffers.RingBuffer(callCap, Grant(0, 0));
      label C:
      bufs, waits, cbQ := b, w, c;
      new;
      WaitsFrame@W(w);
      BufsFrame@B(b);
      c.Frame@C();
    }

    /** ZB_SCHEDULE_CALLBACK: a full queue drops the call. */
    method ScheduleGrant(g: Grant) returns (ok: bool)
      requires cbQ.Valid()
      modifies cbQ, cbQ.ring
      ensures cbQ.Valid() && (ok <==> |old(View()).calls| < old(View()).callCap)
      ensures View() == Schedule(old(View()), g)
    {
      ok := !cbQ.IsFull();
      if ok {
        cbQ.Put(g);
      }
    }

    /** zb_get_buf, as part of the pool. */
    method TakeBuf(wantIn: bool) returns (b: Option<nat>)
      requires bufs.Valid()
      modifies bufs, bufs.frees, bufs.isIn
      ensures bufs.Valid() && Taken(View(), b) == Take(old(View()), wantIn)
    {
      ghost var v := View();
      b := bufs.GetBuf(wantIn);
      TakeMatches(v, View(), wantIn, b);
    }

    /** The immediate branch of zb_get_buf_delayed: the callback is scheduled with the buffer. */
    method TakeAndSchedule(func: nat, wantIn: bool) returns (b: Option<nat>, ok: bool)
      requires bufs.Valid() && cbQ.Valid()
      modifies bufs, bufs.frees, bufs.isIn, cbQ, cbQ.ring
      ensures bufs.Valid() && cbQ.Valid() && b == Take(old(View()), wantIn).ref
      ensures ok <==> b.Some? && |old(View()).calls| < old(View()).callCap
      ensures View() == if b.Some? then Schedule(Take(old(View()), wantIn).pool, Grant(func, b.value)) else old(View())
    {
      b := TakeBuf(wantIn);
      cbQ.Frame();
      ok := false;
      if b.Some? {
        label Taken:
        ok := ScheduleGrant(Grant(func, b.value));
        BufsFrame@Taken(bufs);
      }
    }

    /** The waiting branch of zb_get_buf_delayed. */
    method Wait(func: nat, wantIn: bool) returns (ok: bool)
      requires waits.Valid()
      modifies waits, waits.inQ, waits.outQ, waits.pool
      ensures waits.Valid() && (ok <==> old(View()).spare > 0)
      ensures var v := old(View());
        View() == if ok then WithWaiting(v, wantIn, Waiting(v, wantIn) + [func]).(spare := v.spare - 1) else v
    {
      ghost var v := View();
      ok := waits.AddWaiter(wantIn, func);
      WaitersMatch(v, View(), wantIn);
    }

    /** The immediate branch, which leaves the waiters alone. */
    method TryAtOnce(func: nat, wantIn: bool) returns (b: Option<nat>, ok: bool)
      requires Valid()
      modifies bufs, bufs.frees, bufs.isIn, cbQ, cbQ.ring
      ensures Valid() && b == Take(old(View()), wantIn).ref
      ensures ok <==> b.Some? && |old(View()).calls| < old(View()).callCap
      ensures View() == if b.Some? then Schedule(Take(old(View()), wantIn).pool, Grant(func, b.value)) else old(View())
    {
      b, ok := TakeAndSchedule(func, wantIn);
      WaitsFrame(waits);
    }

    /** The waiting branch, which leaves buffers and callbacks alone. */
    method WaitForBuf(func: nat, wantIn: bool) returns (ok: bool)
      requires Valid()
      modifies waits, waits.inQ, waits.outQ, waits.pool
      ensures Valid() && (ok <==> old(View()).spare > 0)
      ensures var v := old(View());
        View() == if ok then WithWaiting(v, wantIn, Waiting(v, wantIn) + [func]).(spare := v.spare - 1) else v
    {
      ok := Wait(func, wantIn);
      BufsFrame(bufs);
      cbQ.Frame();
    }

    /** zb_get_buf_delayed. */
    method GetBufDelayed(func: nat, wantIn: bool) returns (code: Code)
      requires Valid()
      modifies bufs, bufs.frees, bufs.isIn, waits, waits.inQ, waits.outQ, waits.pool, cbQ, cbQ.ring
      ensures Valid() && Asked(View(), code) == Ask(old(View()), func, wantIn)
      ensures Answered(old(View()), func, wantIn, View(), code)
    {
      AskAnswers(View(), func, wantIn);
      var b, ok := TryAtOnce(func, wantIn);
      if b.Some? {
        code := if ok then Ok else Overflow;
      } else {
        ok := WaitForBuf(func, wantIn);
        code := if ok then Ok else NoWaiterEntry;
      }
    }

    /** Taking the first waiter off its queue. */
    method EndWait(isIn: bool) returns (func: Option<nat>)
      requires waits.Valid()
      modifies waits, waits.inQ, waits.outQ, waits.pool
      ensures waits.Valid()
      ensures var v := old(View());
        if Waiting(v, isIn) == [] then func == None && View() == v
        else func == Some(Waiting(v, isIn)[0])
             && View() == WithWaiting(v, isIn, Waiting(v, isIn)[1..]).(spare := v.spare + 1)
    {
      ghost var v := View();
      func := waits.TakeWaiter(isIn);
      WaitersMatch(v, View(), isIn);
    }

    /** The first half of zb_free_buf: the buffer goes back on the free list. */
    method PutBackFirst(ref: nat) returns (wasIn: bool)
      requires bufs.Valid() && ref in bufs.ins + bufs.outs
      modifies bufs, bufs.frees, bufs.frees.next
      ensures bufs.Valid() && wasIn == (ref in old(View()).ins) && View() == PutBack(old(View()), ref)
    {
      wasIn := bufs.PutBackBuf(ref);
    }

    /** The same, leaving waiters and callbacks alone. */
    method GiveBack(ref: nat) returns (wasIn: bool)
      requires Valid() && ref in bufs.ins + bufs.outs
      modifies bufs, bufs.frees, bufs.frees.next
      ensures Valid() && wasIn == (ref in old(View()).ins) && View() == PutBack(old(View()), ref)
    {
      wasIn := PutBackFirst(ref);
      WaitsFrame(waits);
      cbQ.Frame();
    }

    /** Taking the first waiter off its queue, leaving buffers and callbacks alone. */
    method NextWaiter(isIn: bool) returns (func: Option<nat>)
      requires Valid()
      modifies waits, waits.inQ, waits.outQ, waits.pool
      ensures Valid()
      ensures var v := old(View());
        if Waiting(v, isIn) == [] then func == None && View() == v
        else func == Some(Waiting(v, isIn)[0])
             && View() == WithWaiting(v, isIn, Waiting(v, isIn)[1..]).(spare := v.spare + 1)
    {
      func := EndWait(isIn);
      BufsFrame(bufs);
      cbQ.Frame();
    }

    /** zb_free_buf. */
    method FreeBuf(ref: nat, rxNeedBuf: bool)
      requires Valid() && ref in bufs.ins + bufs.outs
      modifies bufs, bufs.frees, bufs.frees.next, bufs.isIn
      modifies waits, waits.inQ, waits.outQ, waits.pool, cbQ, cbQ.ring
      ensures Valid() && View() == Release(old(View()), ref, rxNeedBuf)
      ensures Released(old(View()), ref, rxNeedBuf, View())
    {
      ghost var v := View();
      ReleaseReleases(v, ref, rxNeedBuf);
      var wasIn := GiveBack(ref);
      if !wasIn || !rxNeedBuf {
        var func := NextWaiter(wasIn);
        if func.Some? {
          var b, _ := TryAtOnce(func.value, wasIn);
          ServeMatches(v, ref, rxNeedBuf, b);
        }
      }
    }
  }

  lemma TakeMatches(p: Pool, q: Pool, isIn: bool, b: Option<nat>)
    requires Inv(p) && q == WithHeld(p, isIn, Held(q, isIn)).(free := q.free)
    requires b.Some? <==> |Held(p, isIn)| < p.limit
    requires b.Some? ==> p.free != [] && b.value == p.free[0] && q.free == p.free[1..] && Held(q, isIn) == Held(p, isIn) + {b.value}
    requires b.None? ==> q.free == p.free && Held(q, isIn) == Held(p, isIn)
    ensures Taken(q, b) == Take(p, isIn)
  {
    SharesCount(p.limit, p.free, p.ins, p.outs);
  }

  lemma WaitersMatch(p: Pool, q: Pool, isIn: bool)
    requires q.limit == p.limit && q.callCap == p.callCap && q.free == p.free && q.ins == p.ins && q.outs == p.outs
    requires q.calls == p.calls && Waiting(q, !isIn) == Waiting(p, !isIn)
    ensures q == WithWaiting(p, isIn, Waiting(q, isIn)).(spare := q.spare)
  {
  }

  /** Giving the waiter's entry back before the scheduling, not after it, makes no difference. */
  lemma ServeMatches(p: Pool, ref: nat, rx: bool, b: Option<nat>)
    requires Inv(p) && ref in p.ins + p.outs && Waiting(p, ref in p.ins) != [] && !(ref in p.ins && rx)
    requires var isIn := ref in p.ins; var q := PutBack(p, ref);
      b == Take(WithWaiting(q, isIn, Waiting(q, isIn)[1..]).(spare := q.spare + 1), isIn).ref
    ensures b == Some(ref)
    ensures var isIn := ref in p.ins; var q := PutBack(p, ref); var w := Waiting(q, isIn);
      Schedule(Take(WithWaiting(q, isIn, w[1..]).(spare := q.spare + 1), isIn).pool, Grant(w[0], ref)) == Release(p, ref, rx)
  {
    var isIn, q := ref in p.ins, PutBack(p, ref);
    PutBackThenTake(p, ref, Waiting(p, isIn)[1..]);
    SpareCommutes(WithWaiting(q, isIn, Waiting(q, isIn)[1..]), isIn, q.spare + 1, Grant(Waiting(q, isIn)[0], ref));
  }

  lemma SpareCommutes(p: Pool, isIn: bool, n: nat, g: Grant)
    ensures Take(p.(spare := n), isIn).ref == Take(p, isIn).ref
    ensures Schedule(Take(p.(spare := n), isIn).pool, g) == Schedule(Take(p, isIn).pool, g).(spare := n)
  {
  }
}
