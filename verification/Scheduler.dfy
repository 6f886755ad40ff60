/** The scheduler as zb_scheduler.c keeps it: a fixed pool of timer entries, each on the alarm list,
    on the free list or being run, and a ring buffer of immediate callbacks. */
module Schedulers {
  import opened Prelude
  import opened ZbTime
  import opened Lists
  import opened ScheduleModel
  import opened Partitions
  import RingBuffers

  ghost function AlarmOf(n: Node): Alarm
    reads n`func, n`param, n`runTime
  {
    Alarm(n.func, n.param, n.runTime)
  }

  /** The entries' payloads are the alarms. */
  ghost predicate Carries(q: seq<Node>, s: seq<Alarm>)
    reads q`func, q`param, q`runTime
  {
    |s| == |q| && forall i {:trigger AlarmOf(q[i])} :: 0 <= i < |q| ==> AlarmOf(q[i]) == s[i]
  }

  /** The i-th entry, or null behind the last. */
  ghost function NodeAt(q: seq<Node>, i: nat): Node? {
    if i < |q| then q[i] else null
  }

  // ---------- How entries move: first the alarm list, second the free list, third the one running ----------

  /** All entries free. */
  ghost function AllFree<T>(nodes: seq<T>): (p: Partition<T>)
    requires Distinct(nodes)
    ensures p.first == [] && p.second == Backwards(nodes) && p.third == [] && p.pool == Elements(nodes)
  {
    DistinctCount(nodes);
    var r := ThreeLists([], Backwards(nodes), [], Elements(nodes));
    TotalDivides(r);
    r
  }

  /** From the top of the free list into the alarm list at k. */
  ghost function Enqueued<T>(p: Partition<T>, k: nat): (r: Partition<T>)
    requires p.second != [] && k <= |p.first|
    ensures r.first == Spliced(p.first, k, p.second[0]) && r.second == p.second[1..]
    ensures r.third == p.third && r.pool == p.pool
  {
    TotalIsPool(p);
    SplicedCount(p.first, k, p.second[0]);
    HeadCount(p.second);
    var r := ThreeLists(Spliced(p.first, k, p.second[0]), p.second[1..], p.third, p.pool);
    TotalDivides(r);
    r
  }

  /** From position k of the alarm list to the top of the free list. */
  ghost function Dequeued<T>(p: Partition<T>, k: nat): (r: Partition<T>)
    requires k < |p.first|
    ensures r.first == Cut(p.first, k) && r.second == [p.first[k]] + p.second
    ensures r.third == p.third && r.pool == p.pool
  {
    TotalIsPool(p);
    CutCount(p.first, k);
    var r := ThreeLists(Cut(p.first, k), [p.first[k]] + p.second, p.third, p.pool);
    TotalDivides(r);
    r
  }

  /** From the head of the alarm list to being run. */
  ghost function Started<T>(p: Partition<T>): (r: Partition<T>)
    requires p.first != [] && p.third == []
    ensures r.first == p.first[1..] && r.second == p.second
    ensures r.third == [p.first[0]] && r.pool == p.pool
  {
    TotalIsPool(p);
    HeadCount(p.first);
    var r := ThreeLists(p.first[1..], p.second, [p.first[0]], p.pool);
    TotalDivides(r);
    r
  }

  /** From being run to the top of the free list. */
  ghost function Finished<T>(p: Partition<T>): (r: Partition<T>)
    requires |p.third| == 1
    ensures r.first == p.first && r.second == [p.third[0]] + p.second
    ensures r.third == [] && r.pool == p.pool
  {
    TotalIsPool(p);
    HeadCount(p.third);
    var r := ThreeLists(p.first, [p.third[0]] + p.second, [], p.pool);
    TotalDivides(r);
    r
  }

  /** A scan that passed everything before k and stops there has found the place. */
  lemma {:induction false} FirstLaterIs(s: seq<Alarm>, t: U16, i: nat, k: nat)
    requires i <= k <= |s| && forall j :: i <= j < k ==> Ge(t, s[j].time)
    requires k < |s| ==> !Ge(t, s[k].time)
    ensures FirstLater(s, t, i) == k
    decreases k - i
  {
    if i < k {
      FirstLaterIs(s, t, i + 1, k);
    }
  }

  lemma CarriesInserted(q: seq<Node>, s: seq<Alarm>, n: Node, k: nat, q': seq<Node>, s': seq<Alarm>)
    requires Carries(q, s) && k <= |q| && q' == Spliced(q, k, n) && s' == Spliced(s, k, AlarmOf(n))
    ensures Carries(q', s')
  {
    SplicedAt(q, k, n, q');
    SplicedAt(s, k, AlarmOf(n), s');
  }

  lemma CarriesRemoved(q: seq<Node>, s: seq<Alarm>, k: nat, q': seq<Node>, s': seq<Alarm>)
    requires Carries(q, s) && k < |q| && q' == Cut(q, k) && s' == Cut(s, k)
    ensures Carries(q', s')
  {
    CutAt(q, k, q');
    CutAt(s, k, s');
  }

  lemma CarriesTail(q: seq<Node>, s: seq<Alarm>)
    requires Carries(q, s) && q != []
    ensures Carries(q[1..], s[1..])
  {
    assert forall i :: 0 < i < |q| ==> AlarmOf(q[i]) == s[i];
  }

  twostate lemma CarriesFrame(l: (seq<Node>, seq<Alarm>))
    requires old(Carries(l.0, l.1)) && unchanged(l.0`func, l.0`param, l.0`runTime)
    ensures Carries(l.0, l.1)
  {
  }

  method MakeNodes(n: nat) returns (nodes: seq<Node>)
    ensures |nodes| == n && Distinct(nodes)
    ensures forall k :: 0 <= k < n ==> fresh(nodes[k])
  {
    nodes := [];
    while |nodes| < n
      invariant |nodes| <= n && Distinct(nodes)
      invariant forall k :: 0 <= k < |nodes| ==> fresh(nodes[k])
      decreases n - |nodes|
    {
      var node := new Node();
      nodes := nodes + [node];
    }
  }

  /** The alarm half of zb_sched_init. */
  method InitPool(entries: nat) returns (head: Node?, ghost lists: Partition<Node>)
    ensures Stack(head, lists.second) && lists.first == lists.third == []
    ensures |lists.second| == |lists.pool| == entries
    ensures forall n :: n in lists.pool ==> fresh(n)
  {
    var nodes := MakeNodes(entries);
    head := PushAll(nodes);
    lists := AllFree(nodes);
    DistinctCardinality(nodes);
  }

  class Scheduler {
    ghost const tmBuffer: set<Node>
    const cbQ: RingBuffers.RingBuffer<Call>
    var tmQueue: Node?
    var tmFreelist: Node?
    var timer: U16
    ghost var lists: Partition<Node>
    ghost var alarms: seq<Alarm>

    /** Every pool entry is on exactly one of the alarm list, the free list, and the at most one
        alarm being run; both lists are well formed. */
    ghost predicate ListsValid()
      reads this, lists.first, lists.second
    {
      && lists.pool == tmBuffer && |lists.third| <= 1
      && DList(tmQueue, lists.first)
      && Stack(tmFreelist, lists.second)
      && Carries(lists.first, alarms)
    }

    ghost predicate Valid()
      reads this, lists.first, lists.second, cbQ, cbQ.ring
    {
      cbQ.Valid() && ListsValid()
    }

    ghost function View(): State
      reads this, cbQ
    {
      State(alarms, |lists.second|, cbQ.contents, timer)
    }

    ghost function Cap(): nat {
      cbQ.ring.Length
    }

    /** The entry whose callback is being run, if any. */
    ghost function Running(): seq<Node>
      reads this
    {
      lists.third
    }

    constructor (entries: nat, callCap: nat)
      requires callCap > 0
      ensures Valid() && Running() == [] && |tmBuffer| == entries && Cap() == callCap
      ensures View() == State([], entries, [], 0)
      ensures fresh(cbQ) && fresh(cbQ.ring) && forall n :: n in tmBuffer ==> fresh(n)
    {
      var head, ls := InitPool(entries);
      label L:
      var q := new RingBuffers.RingBuffer(callCap, Call(0, 0));
      label Q:
      tmBuffer := ls.pool;
      cbQ := q;
      tmQueue, tmFreelist, timer := null, head, 0;
      lists, alarms := ls, [];
      new;
      StackFrame@L((head, ls.second));
      q.Frame@Q();
    }

    /** zb_schedule_callback. */
    method ScheduleCallback(func: nat, param: U8) returns (ok: bool)
      requires Valid()
      modifies cbQ, cbQ.ring
      ensures Valid()
      ensures View() == Apply(old(View()), Cap(), DoCall(func, param))
      ensures ok <==> |old(View()).calls| < Cap()
      ensures View().calls == old(View()).calls + if ok then [Call(func, param)] else []
    {
      ok := !cbQ.IsFull();
      if ok {
        cbQ.Put(Call(func, param));
      }
    }

    /** The scan for the first alarm the new time is not at or after. */
    method ScanFor(time: U16, ghost q: seq<Node>, ghost s: seq<Alarm>) returns (ent: Node?, ghost i: nat)
      requires DList(tmQueue, q) && Carries(q, s)
      ensures i == FirstLater(s, time, 0) && ent == NodeAt(q, i)
    {
      ent, i := tmQueue, 0;
      while ent != null && Ge(time, ent.runTime)
        invariant i <= |q| && ent == NodeAt(q, i)
        invariant forall j :: 0 <= j < i ==> Ge(time, s[j].time)
        decreases |q| - i
      {
        assert AlarmOf(q[i]) == s[i];
        ent := ent.next;
        i := i + 1;
      }
      assert i < |q| ==> AlarmOf(q[i]) == s[i];
      FirstLaterIs(s, time, 0, i);
    }

    /** Insertion before the entry the scan stopped at, or at the tail. The predecessor of the head
        is the tail. */
    method InsertBefore(ent: Node?, nent: Node, ghost q: seq<Node>, ghost i: nat)
      requires DList(tmQueue, q) && nent !in q && q != [] && i <= |q| && ent == NodeAt(q, i)
      modifies this`tmQueue, q`next, q`prev, nent`next, nent`prev
      ensures DList(tmQueue, Spliced(q, if i == 0 then |q| else i, nent))
    {
      if ent != null {
        ghost var before := if i == 0 then |q| - 1 else i - 1;
        assert ent.prev == q[before];
        var p: Node := ent.prev;
        tmQueue := InsertAfter(tmQueue, p, nent, q, before);
      } else {
        tmQueue := InsertTail(tmQueue, nent, q);
        assert Spliced(q, |q|, nent) == q + [nent];
      }
    }

    /** The placing half of zb_schedule_alarm. */
    method InsertByTime(nent: Node, ghost q: seq<Node>, ghost s: seq<Alarm>)
      requires DList(tmQueue, q) && nent !in q && Carries(q, s)
      modifies this`tmQueue, q`next, q`prev, nent`next, nent`prev
      ensures DList(tmQueue, Spliced(q, Place(s, nent.runTime), nent))
    {
      assert q != [] ==> AlarmOf(q[0]) == s[0];
      if tmQueue == null || Ge(tmQueue.runTime, nent.runTime) {
        tmQueue := InsertHead(tmQueue, nent, q);
        assert Spliced(q, 0, nent) == [nent] + q;
      } else {
        ghost var i;
        var ent;
        ent, i := ScanFor(nent.runTime, q, s);
        InsertBefore(ent, nent, q, i);
      }
    }

    /** Take an entry from the free list, which is not empty, and fill it in. */
    method TakeEntry(func: nat, param: U8, time: U16, ghost f: seq<Node>) returns (nent: Node)
      requires Stack(tmFreelist, f) && f != []
      modifies this`tmFreelist, f`func, f`param, f`runTime
      ensures nent == f[0] && Stack(tmFreelist, f[1..]) && AlarmOf(nent) == Alarm(func, param, time)
    {
      var head, top := Pop(tmFreelist, f);
      nent := top;
      tmFreelist := head;
      nent.func := func;
      nent.param := param;
      nent.runTime := time;
    }

    /** The same; the alarm list is left alone. */
    method TakeFree(func: nat, param: U8, time: U16, ghost f: seq<Node>, ghost q: seq<Node>, ghost s: seq<Alarm>)
      returns (nent: Node)
      requires Stack(tmFreelist, f) && f != [] && DList(tmQueue, q) && Carries(q, s) && Apart(q, f)
      modifies this`tmFreelist, f`func, f`param, f`runTime
      ensures nent == f[0] && Stack(tmFreelist, f[1..]) && AlarmOf(nent) == Alarm(func, param, time)
      ensures DList(tmQueue, q) && Carries(q, s)
    {
      nent := TakeEntry(func, param, time, f);
      CarriesFrame((q, s));
      DListFrame((tmQueue, q));
    }

    /** The new entry goes into the alarm list at its place; the free list and all alarms are left
        alone. */
    method PutApart(nent: Node, ghost q: seq<Node>, ghost s: seq<Alarm>, ghost f: seq<Node>)
      requires DList(tmQueue, q) && Carries(q, s) && nent !in q
      requires Stack(tmFreelist, f) && nent !in f && Apart(q, f)
      modifies this`tmQueue, q`next, q`prev, nent`next, nent`prev
      ensures DList(tmQueue, Spliced(q, Place(s, nent.runTime), nent)) && Stack(tmFreelist, f) && Carries(q, s)
    {
      InsertByTime(nent, q, s);
      StackFrame((tmFreelist, f));
      CarriesFrame((q, s));
    }

    /** From the free list f into the alarm list q, which becomes q' and carries s'. */
    method MoveToQueue(func: nat, param: U8, time: U16, ghost q: seq<Node>, ghost s: seq<Alarm>, ghost f: seq<Node>,
                       ghost q': seq<Node>, ghost s': seq<Alarm>)
      requires DList(tmQueue, q) && Carries(q, s) && Stack(tmFreelist, f) && f != [] && Apart(q, f)
      requires q' == Spliced(q, Place(s, time), f[0]) && s' == Insert(s, Alarm(func, param, time))
      modifies this`tmQueue, this`tmFreelist, q, f
      ensures DList(tmQueue, q') && Carries(q', s') && Stack(tmFreelist, f[1..])
    {
      var nent := TakeFree(func, param, time, f, q, s);
      PutApart(nent, q, s, f[1..]);
      CarriesInserted(q, s, nent, Place(s, time), q', s');
    }

    /** The list half of zb_schedule_alarm, for a free list that is not empty. */
    method Enqueue(func: nat, param: U8, time: U16)
      requires ListsValid() && lists.second != []
      modifies this`tmQueue, this`tmFreelist, this`lists, this`alarms, lists.first, lists.second
      ensures ListsValid() && Running() == old(Running()) && View().free == old(View()).free - 1
      ensures alarms == Insert(old(alarms), Alarm(func, param, time))
    {
      ghost var p, s := lists, alarms;
      PartitionApart(p);
      ghost var p', s' := Enqueued(p, Place(s, time)), Insert(s, Alarm(func, param, time));
      lists, alarms := p', s';
      MoveToQueue(func, param, time, p.first, s, p.second, p'.first, s');
    }

    /** zb_schedule_alarm. */
    method ScheduleAlarm(func: nat, param: U8, runAfter: U16) returns (ok: bool)
      requires Valid()
      modifies this, tmBuffer
      ensures Valid() && Running() == old(Running())
      ensures View() == Apply(old(View()), Cap(), SetAlarm(func, param, runAfter))
      ensures ok <==> old(View()).free > 0
      ensures ok ==> PutIn(old(alarms), alarms, Alarm(func, param, (timer + runAfter) % 0x1_0000))
      ensures !ok ==> alarms == old(alarms)
    {
      SetAlarmQueues(View(), Cap(), func, param, runAfter);
      ok := tmFreelist != null;
      if ok {
        PartitionWithin(lists);
        Enqueue(func, param, Add(timer, runAfter));
      }
    }

    /** ZB_LIST_REMOVE; the free list and all alarms are left alone. */
    method RemoveApart(ent: Node, ghost i: nat, ghost q: seq<Node>, ghost s: seq<Alarm>, ghost f: seq<Node>)
      requires DList(tmQueue, q) && i < |q| && ent == q[i] && Carries(q, s) && Stack(tmFreelist, f) && Apart(q, f)
      modifies this`tmQueue, q`next, q`prev
      ensures DList(tmQueue, Cut(q, i)) && Stack(tmFreelist, f) && Carries(q, s)
    {
      tmQueue := Remove(tmQueue, ent, q, i);
      StackFrame((tmFreelist, f));
      CarriesFrame((q, s));
    }

    /** ZB_STK_PUSH of an entry that is on neither list; the alarm list is left alone. */
    method PushApart(ent: Node, ghost q: seq<Node>, ghost s: seq<Alarm>, ghost f: seq<Node>)
      requires Stack(tmFreelist, f) && ent !in f && DList(tmQueue, q) && ent !in q && Carries(q, s)
      modifies this`tmFreelist, ent`next
      ensures Stack(tmFreelist, [ent] + f) && DList(tmQueue, q) && Carries(q, s)
    {
      tmFreelist := Push(tmFreelist, ent, f);
      DListFrame((tmQueue, q));
      CarriesFrame((q, s));
    }

    /** From position i of the alarm list q, which becomes q' and carries s', to the free list f. */
    method MoveToFree(ent: Node, ghost i: nat, ghost q: seq<Node>, ghost s: seq<Alarm>, ghost f: seq<Node>,
                      ghost q': seq<Node>, ghost s': seq<Alarm>)
      requires DList(tmQueue, q) && i < |q| && ent == q[i] && Carries(q, s) && Stack(tmFreelist, f) && Apart(q, f)
      requires q' == Cut(q, i) && s' == Cut(s, i)
      modifies this`tmQueue, this`tmFreelist, q`next, q`prev
      ensures DList(tmQueue, q') && Carries(q', s') && Stack(tmFreelist, [ent] + f)
    {
      CutAt(q, i, q');
      RemoveApart(ent, i, q, s, f);
      CarriesRemoved(q, s, i, q', s');
      PushApart(ent, q', s', f);
    }

    /** Removal of one matching alarm: its entry goes to the free list. */
    method Unlink(ent: Node, ghost i: nat)
      requires ListsValid() && i < |lists.first| && ent == lists.first[i]
      modifies this`tmQueue, this`tmFreelist, this`lists, this`alarms, lists.first`next, lists.first`prev
      ensures ListsValid() && lists == Dequeued(old(lists), i)
      ensures alarms == Cut(old(alarms), i)
    {
      ghost var p, s := lists, alarms;
      PartitionApart(p);
      lists := Dequeued(p, i);
      alarms := Cut(s, i);
      MoveToFree(ent, i, p.first, s, p.second, lists.first, alarms);
    }

    /** One look of the cancel loop: note the successor, then remove the entry if it matches. */
    method CancelOne(ent: Node, func: nat, param: U8, ghost i: nat) returns (hit: bool, next: Node?)
      requires ListsValid() && ent == NodeAt(lists.first, i)
      modifies this`tmQueue, this`tmFreelist, this`lists, this`alarms, tmBuffer
      ensures ListsValid() && i < |old(alarms)| && (hit <==> Hit(old(alarms)[i], func, param))
      ensures Running() == old(Running()) && View().free + |alarms| == old(View()).free + |old(alarms)|
      ensures alarms == if hit then Cut(old(alarms), i) else old(alarms)
      ensures next == NodeAt(lists.first, if hit then i else i + 1)
    {
      assert AlarmOf(lists.first[i]) == alarms[i];
      next := ent.next;
      hit := ent.func == func && (param == ANY_PARAM || param == ALL_CB || param == ent.param);
      assert next == NodeAt(lists.first, i + 1);
      if hit {
        ghost var q := lists.first;
        PartitionWithin(lists);
        Unlink(ent, i);
        CutAt(q, i, lists.first);
      }
    }

    /** One turn of the cancel loop over s0, from position i to j. */
    method CancelTurn(ent: Node, func: nat, param: U8, ghost s0: seq<Alarm>, ghost i: nat)
      returns (hit: bool, next: Node?, ghost j: nat)
      requires ListsValid() && ent == NodeAt(lists.first, i) && Cancelling(s0, alarms, i, func, param)
      modifies this`tmQueue, this`tmFreelist, this`lists, this`alarms, tmBuffer
      ensures ListsValid() && Running() == old(Running())
      ensures View().free + |alarms| == old(View()).free + |old(alarms)|
      ensures |alarms| == |old(alarms)| - if hit then 1 else 0
      ensures if hit && param != ALL_CB then alarms == Cancelled(s0, func, param)
              else Cancelling(s0, alarms, j, func, param) && |alarms| - j < |old(alarms)| - i
      ensures next == NodeAt(lists.first, j)
    {
      ghost var now := alarms;
      hit, next := CancelOne(ent, func, param, i);
      if hit {
        CancelHit(s0, now, i, func, param);
        j := i;
      } else {
        CancelMiss(s0, now, i, func, param);
        j := i + 1;
      }
    }

    /** The loop of zb_schedule_alarm_cancel. */
    method CancelMatching(func: nat, param: U8) returns (found: bool)
      requires ListsValid()
      modifies this`tmQueue, this`tmFreelist, this`lists, this`alarms, tmBuffer
      ensures ListsValid() && alarms == Cancelled(old(alarms), func, param) && Running() == old(Running())
      ensures View().free + |alarms| == old(View()).free + |old(alarms)|
      ensures found <==> |alarms| < |old(alarms)|
    {
      found := false;
      var ent := tmQueue;
      ghost var s0, i := alarms, 0;
      while ent != null
        invariant ListsValid() && Running() == old(Running())
        invariant View().free + |alarms| == old(View()).free + |s0|
        invariant ent == NodeAt(lists.first, i) && Cancelling(s0, alarms, i, func, param)
        invariant found <==> |alarms| < |s0|
        decreases |alarms| - i
      {
        var hit;
        hit, ent, i := CancelTurn(ent, func, param, s0, i);
        if hit {
          found := true;
          if param != ALL_CB {
            return;
          }
        }
      }
      CancelEnd(s0, alarms, i, func, param);
    }

    /** zb_schedule_alarm_cancel. */
    method CancelAlarm(func: nat, param: U8) returns (found: bool)
      requires Valid()
      modifies this, tmBuffer
      ensures Valid() && Running() == old(Running())
      ensures View() == Apply(old(View()), Cap(), Cancel(func, param))
      ensures found <==> |View().alarms| < |old(View()).alarms|
    {
      found := CancelMatching(func, param);
    }

    /** What a callback does while it runs, given as the scheduler calls it makes and the time that
        passes. */
    method Perform(ops: seq<Op>)
      requires Valid()
      modifies this, tmBuffer, cbQ, cbQ.ring
      ensures Valid() && Running() == old(Running())
      ensures View() == ApplyAll(old(View()), Cap(), ops)
    {
      ghost var goal := ApplyAll(View(), Cap(), ops);
      for i := 0 to |ops|
        invariant Valid() && Running() == old(Running())
        invariant ApplyAll(View(), Cap(), ops[i..]) == goal
      {
        assert ops[i..][0] == ops[i] && ops[i..][1..] == ops[i + 1..];
        PerformOne(ops[i]);
      }
      assert ops[|ops|..] == [];
    }

    method PerformOne(op: Op)
      requires Valid()
      modifies this, tmBuffer, cbQ, cbQ.ring
      ensures Valid() && Running() == old(Running())
      ensures View() == Apply(old(View()), Cap(), op)
    {
      match op
      case DoCall(f, p) => var _ := ScheduleCallback(f, p);
      case SetAlarm(f, p, d) => var _ := ScheduleAlarm(f, p, d);
      case Cancel(f, p) => var _ := CancelAlarm(f, p);
      case Tick(d) => timer := Add(timer, d);
    }

    /** The immediate-callback loop of zb_sched_loop_iteration: the entry is flushed only after its
        callback has returned, so its slot stays counted while the callback schedules more. */
    method RunCallbacks(env: seq<seq<Op>>) returns (ran: seq<Call>)
      requires Valid()
      modifies this, tmBuffer, cbQ, cbQ.ring
      ensures Valid() && Running() == old(Running())
      ensures View() == RunCalls(old(View()), Cap(), env).state
      ensures ran == RunCalls(old(View()), Cap(), env).ran
    {
      ran := [];
      assert env[0..] == env;
      ghost var goal := RunCalls(View(), Cap(), env);
      var k := 0;
      while k < |env| && !cbQ.IsEmpty()
        invariant k <= |env| && Valid() && Running() == old(Running())
        invariant CallsToCome(goal, ran, RunCalls(View(), Cap(), env[k..]))
      {
        var ent := RunNextCallback(env, k, goal, ran);
        ran := ran + [ent];
        k := k + 1;
      }
      CallsOver(View(), Cap(), env[k..], goal, ran);
    }

    /** One turn of it. */
    method RunNextCallback(env: seq<seq<Op>>, k: nat, ghost goal: CallRun, ghost ran: seq<Call>) returns (ent: Call)
      requires Valid() && !cbQ.IsEmpty() && k < |env| && CallsToCome(goal, ran, RunCalls(View(), Cap(), env[k..]))
      modifies this, tmBuffer, cbQ, cbQ.ring
      ensures Valid() && Running() == old(Running())
      ensures CallsToCome(goal, ran + [ent], RunCalls(View(), Cap(), env[k + 1..]))
    {
      ghost var v := View();
      ent := RunOneCallback(env[k]);
      CallTurn(v, Cap(), env, k, goal, ran);
    }

    method RunOneCallback(ops: seq<Op>) returns (ent: Call)
      requires Valid() && !cbQ.IsEmpty()
      modifies this, tmBuffer, cbQ, cbQ.ring
      ensures Valid() && Running() == old(Running())
      ensures ent == old(View()).calls[0]
      ensures var s := ApplyAll(old(View()), Cap(), ops);
              s.calls != [] && s.calls[0] == ent && View() == s.(calls := s.calls[1..])
    {
      ApplyAppendsCalls(View(), Cap(), ops);
      ent := cbQ.Get();
      Perform(ops);
      FlushCall();
    }

    /** ZB_RING_BUFFER_FLUSH_GET of the callback queue. */
    method FlushCall()
      requires Valid() && View().calls != []
      modifies cbQ
      ensures Valid() && View() == old(View()).(calls := old(View()).calls[1..])
    {
      cbQ.FlushGet();
    }

    /** ZB_LIST_CUT_HEAD in the alarm loop: the entry is on no list while its callback runs. */
    method StartHead() returns (ent: Node, a: Alarm)
      requires ListsValid() && Running() == [] && lists.first != []
      modifies this`tmQueue, this`lists, this`alarms, tmBuffer
      ensures ListsValid() && lists == Started(old(lists)) && Running() == [ent]
      ensures a == old(alarms)[0] && alarms == old(alarms)[1..]
    {
      ghost var p, s := lists, alarms;
      PartitionWithin(p);
      lists := Started(p);
      alarms := s[1..];
      ent := tmQueue;
      assert AlarmOf(p.first[0]) == s[0];
      a := Alarm(ent.func, ent.param, ent.runTime);
      CutFirst(p.first, s, p.second);
    }

    /** The list half of it; the free list is left alone. */
    method CutFirst(ghost q: seq<Node>, ghost s: seq<Alarm>, ghost f: seq<Node>)
      requires DList(tmQueue, q) && q != [] && Carries(q, s) && Stack(tmFreelist, f)
      modifies this`tmQueue, q`prev
      ensures DList(tmQueue, q[1..]) && Carries(q[1..], s[1..]) && Stack(tmFreelist, f)
    {
      CarriesTail(q, s);
      var rest, _ := CutHead(tmQueue, q);
      tmQueue := rest;
      CarriesFrame((q[1..], s[1..]));
    }

    /** ZB_STK_PUSH after the callback has returned. */
    method FinishRun(ent: Node)
      requires ListsValid() && Running() == [ent]
      modifies this`tmFreelist, this`lists, tmBuffer
      ensures ListsValid() && lists == Finished(old(lists))
    {
      ghost var p := lists;
      PartitionApart(p);
      PartitionWithin(p);
      assert p.third[0] == ent;
      lists := Finished(p);
      PushApart(ent, p.first, alarms, p.second);
    }

    /** One turn of the alarm loop. */
    method RunHead(ops: seq<Op>) returns (a: Alarm)
      requires Valid() && Running() == [] && lists.first != []
      modifies this, tmBuffer, cbQ, cbQ.ring
      ensures Valid() && Running() == [] && a == old(alarms)[0]
      ensures var s := ApplyAll(old(View()).(alarms := old(alarms)[1..]), Cap(), ops);
              View() == s.(free := s.free + 1)
    {
      var ent;
      ent, a := StartHead();
      cbQ.Frame();
      Perform(ops);
      label Done:
      FinishRun(ent);
      cbQ.Frame@Done();
    }

    /** The same, in a run that is to reach the goal. */
    method RunNextAlarm(env: seq<seq<Op>>, k: nat, t: U16, ghost goal: AlarmRun, ghost ran: seq<Alarm>) returns (a: Alarm)
      requires Valid() && Running() == [] && lists.first != [] && Ge(t, alarms[0].time)
      requires k < |env| && AlarmsToCome(goal, ran, RunDue(View(), Cap(), t, env[k..]))
      modifies this, tmBuffer, cbQ, cbQ.ring
      ensures Valid() && Running() == [] && AlarmsToCome(goal, ran + [a], RunDue(View(), Cap(), t, env[k + 1..]))
    {
      ghost var v := View();
      a := RunHead(env[k]);
      AlarmTurn(v, Cap(), t, env, k, goal, ran);
    }

    /** The alarm loop of zb_sched_loop_iteration; the time is read once, before it. */
    method RunDueAlarms(env: seq<seq<Op>>) returns (ran: seq<Alarm>)
      requires Valid() && Running() == []
      modifies this, tmBuffer, cbQ, cbQ.ring
      ensures Valid() && Running() == []
      ensures AlarmRun(View(), ran) == RunDue(old(View()), Cap(), old(timer), env)
    {
      ran := [];
      var t := timer;
      assert env[0..] == env;
      ghost var goal := RunDue(View(), Cap(), t, env);
      var k := 0;
      while k < |env| && tmQueue != null && Ge(t, tmQueue.runTime)
        invariant k <= |env| && Valid() && Running() == []
        invariant AlarmsToCome(goal, ran, RunDue(View(), Cap(), t, env[k..]))
      {
        assert AlarmOf(lists.first[0]) == alarms[0];
        var a := RunNextAlarm(env, k, t, goal, ran);
        ran := ran + [a];
        k := k + 1;
      }
      assert lists.first != [] ==> AlarmOf(lists.first[0]) == alarms[0];
      AlarmsOver(View(), Cap(), t, env[k..], goal, ran);
    }
  }

  /** With ran behind, the rest of a run completes the goal. */
  ghost predicate CallsToCome(goal: CallRun, ran: seq<Call>, rest: CallRun) {
    rest.state == goal.state && ran + rest.ran == goal.ran
  }

  lemma CallTurn(v: State, cap: nat, env: seq<seq<Op>>, k: nat, goal: CallRun, ran: seq<Call>)
    requires k < |env| && v.calls != [] && CallsToCome(goal, ran, RunCalls(v, cap, env[k..]))
    ensures var s := ApplyAll(v, cap, env[k]);
      s.calls != [] ==> CallsToCome(goal, ran + [v.calls[0]], RunCalls(s.(calls := s.calls[1..]), cap, env[k + 1..]))
  {
    assert env[k..][0] == env[k] && env[k..][1..] == env[k + 1..];
    var s := ApplyAll(v, cap, env[k]);
    if s.calls != [] {
      Reassociate(ran, [v.calls[0]], RunCalls(s.(calls := s.calls[1..]), cap, env[k + 1..]).ran);
    }
  }

  lemma CallsOver(v: State, cap: nat, env: seq<seq<Op>>, goal: CallRun, ran: seq<Call>)
    requires CallsToCome(goal, ran, RunCalls(v, cap, env)) && (env == [] || v.calls == [])
    ensures v == goal.state && ran == goal.ran
  {
  }

  ghost predicate AlarmsToCome(goal: AlarmRun, ran: seq<Alarm>, rest: AlarmRun) {
    rest.state == goal.state && ran + rest.ran == goal.ran
  }

  lemma AlarmsOver(v: State, cap: nat, t: U16, env: seq<seq<Op>>, goal: AlarmRun, ran: seq<Alarm>)
    requires AlarmsToCome(goal, ran, RunDue(v, cap, t, env))
    requires env == [] || v.alarms == [] || !Ge(t, v.alarms[0].time)
    ensures v == goal.state && ran == goal.ran
  {
  }

  lemma AlarmTurn(v: State, cap: nat, t: U16, env: seq<seq<Op>>, k: nat, goal: AlarmRun, ran: seq<Alarm>)
    requires k < |env| && v.alarms != [] && Ge(t, v.alarms[0].time)
    requires AlarmsToCome(goal, ran, RunDue(v, cap, t, env[k..]))
    ensures var s := ApplyAll(v.(alarms := v.alarms[1..]), cap, env[k]);
      AlarmsToCome(goal, ran + [v.alarms[0]], RunDue(s.(free := s.free + 1), cap, t, env[k + 1..]))
  {
    assert env[k..][0] == env[k] && env[k..][1..] == env[k + 1..];
    var s := ApplyAll(v.(alarms := v.alarms[1..]), cap, env[k]);
    Reassociate(ran, [v.alarms[0]], RunDue(s.(free := s.free + 1), cap, t, env[k + 1..]).ran);
  }

  /** The cancel loop over s0 has got to position i, and `now` is what it has left. */
  ghost predicate Cancelling(s0: seq<Alarm>, now: seq<Alarm>, i: nat, func: nat, param: U8) {
    i <= |now| <= |s0| && Cancelled(s0, func, param) == now[..i] + Cancelled(now[i..], func, param)
  }

  lemma CancelHit(s0: seq<Alarm>, now: seq<Alarm>, i: nat, func: nat, param: U8)
    requires Cancelling(s0, now, i, func, param) && i < |now| && Hit(now[i], func, param)
    ensures if param == ALL_CB then Cancelling(s0, Cut(now, i), i, func, param)
            else Cancelled(s0, func, param) == Cut(now, i)
  {
    var left := Cut(now, i);
    assert now[i..][0] == now[i] && now[i..][1..] == now[i + 1..];
    assert left[..i] == now[..i] && left[i..] == now[i + 1..];
  }

  lemma CancelMiss(s0: seq<Alarm>, now: seq<Alarm>, i: nat, func: nat, param: U8)
    requires Cancelling(s0, now, i, func, param) && i < |now| && !Hit(now[i], func, param)
    ensures Cancelling(s0, now, i + 1, func, param)
  {
    assert now[i..][0] == now[i] && now[i..][1..] == now[i + 1..];
    assert now[..i + 1] == now[..i] + [now[i]];
    Reassociate(now[..i], [now[i]], Cancelled(now[i + 1..], func, param));
  }

  lemma CancelEnd(s0: seq<Alarm>, now: seq<Alarm>, i: nat, func: nat, param: U8)
    requires Cancelling(s0, now, i, func, param) && i == |now|
    ensures now == Cancelled(s0, func, param)
  {
  }
}
