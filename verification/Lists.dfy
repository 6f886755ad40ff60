/** The intrusive list macros of zb_list_macros.h, on timer-queue entries. A doubly linked list is
    reached from its head; the head's `prev` is the tail. A stack links through `next` only. Each
    macro is proved against the sequence of nodes the list stands for. */
module Lists {
  import opened Partitions
  import opened Prelude

  /** zb_tm_q_ent_t. */
  class Node {
    var func: nat
    var param: U8
    var runTime: U16
    var next: Node?
    var prev: Node?

    constructor ()
      ensures next == null && prev == null
    {
      func, param, runTime, next, prev := 0, 0, 0, null, null;
    }
  }

  ghost function LastOf(q: seq<Node>): Node
    requires q != []
  {
    q[|q| - 1]
  }

  ghost predicate DList(list: Node?, q: seq<Node>)
    reads q`next, q`prev
  {
    && Distinct(q)
    && (q == [] ==> list == null)
    && (q != [] ==> list == q[0] && q[0].prev == LastOf(q) && LastOf(q).next == null)
    && (forall i {:trigger q[i].next} :: 0 <= i < |q| - 1 ==> q[i].next == q[i + 1])
    && (forall i {:trigger q[i].prev} :: 0 < i < |q| ==> q[i].prev == q[i - 1])
  }

  ghost predicate Stack(head: Node?, s: seq<Node>)
    reads s`next
  {
    && Distinct(s)
    && (s == [] ==> head == null)
    && (s != [] ==> head == s[0] && LastOf(s).next == null)
    && (forall i {:trigger s[i].next} :: 0 <= i < |s| - 1 ==> s[i].next == s[i + 1])
  }

  // What leaves the links alone leaves the lists alone. A list goes with its head.

  twostate lemma StackFrame(l: (Node?, seq<Node>))
    requires old(Stack(l.0, l.1)) && unchanged(l.1`next)
    ensures Stack(l.0, l.1)
  {
  }

  twostate lemma DListFrame(l: (Node?, seq<Node>))
    requires old(DList(l.0, l.1)) && unchanged(l.1`next, l.1`prev)
    ensures DList(l.0, l.1)
  {
  }

  /** ZB_LIST_GET_TAIL. */
  method GetTail(list: Node?, ghost q: seq<Node>) returns (tail: Node?)
    requires DList(list, q)
    ensures tail == if q == [] then null else LastOf(q)
  {
    tail := if list != null then list.prev else null;
  }

  /** ZB_LIST_CUT_HEAD: the cut node keeps its stale `next`. */
  method CutHead(list: Node?, ghost q: seq<Node>) returns (list': Node?, ent: Node?)
    requires DList(list, q)
    modifies q`prev
    ensures q == [] ==> ent == null && list' == null
    ensures q != [] ==> ent == q[0] && ent.prev == null && DList(list', q[1..])
  {
    list', ent := list, list;
    if list != null {
      assert list.next != null ==> |q| > 1 && list.next == q[1];
      if list.next != null {
        list.next.prev := list.prev;
      }
      list.prev := null;
      list' := list.next;
    }
  }

  /** ZB_LIST_INSERT_HEAD. */
  method InsertHead(list: Node?, ent: Node, ghost q: seq<Node>) returns (list': Node?)
    requires DList(list, q) && ent !in q
    modifies q`prev, ent`next, ent`prev
    ensures DList(list', [ent] + q)
  {
    ent.next := list;
    if list != null {
      ent.prev := list.prev;
      list.prev := ent;
    } else {
      ent.prev := ent;
    }
    list' := ent;
  }

  /** ZB_LIST_INSERT_TAIL. */
  method InsertTail(list: Node?, ent: Node, ghost q: seq<Node>) returns (list': Node?)
    requires DList(list, q) && ent !in q
    modifies q`prev, q`next, ent`next, ent`prev
    ensures DList(list', q + [ent])
  {
    list' := list;
    ent.next := null;
    if list != null {
      ent.prev := list.prev;
      list.prev.next := ent;
      list.prev := ent;
    } else {
      ent.prev := ent;
      list' := ent;
    }
  }

  /** The last case of ZB_LIST_INSERT_AFTER: the node inserted after is not the tail. */
  method InsertInside(list: Node?, ent: Node, new_: Node, ghost q: seq<Node>, ghost i: nat)
    requires DList(list, q) && i + 1 < |q| && ent == q[i] && new_ !in q
    modifies q`prev, q`next, new_`next, new_`prev
    ensures DList(list, Spliced(q, i + 1, new_))
  {
    ghost var r := Spliced(q, i + 1, new_);
    SplicedAt(q, i + 1, new_, r);
    assert ent.next == q[i + 1];
    new_.next := ent.next;
    new_.prev := ent;
    ent.next.prev := new_;
    ent.next := new_;
    forall k | 0 <= k < |r| - 1 ensures r[k].next == r[k + 1] {
      if k > i + 1 { assert r[k] == q[k - 1]; }
    }
    forall k | 0 < k < |r| ensures r[k].prev == r[k - 1] {
      if k > i + 2 { assert r[k] == q[k - 1]; }
    }
  }

  /** ZB_LIST_INSERT_AFTER, after the i-th node. */
  method InsertAfter(list: Node?, ent: Node, new_: Node, ghost q: seq<Node>, ghost i: nat) returns (list': Node?)
    requires DList(list, q) && i < |q| && ent == q[i] && new_ !in q
    modifies q`prev, q`next, new_`next, new_`prev
    ensures DList(list', Spliced(q, i + 1, new_))
  {
    list' := list;
    var tail := GetTail(list, q);
    if ent == tail {
      assert Spliced(q, i + 1, new_) == q + [new_];
      list' := InsertTail(list, new_, q);
    } else {
      InsertInside(list, ent, new_, q, i);
    }
  }

  /** ZB_LIST_REMOVE of the i-th node, which may be head, tail, both or neither. */
  method Remove(list: Node?, ent: Node, ghost q: seq<Node>, ghost i: nat) returns (list': Node?)
    requires DList(list, q) && i < |q| && ent == q[i]
    modifies q`prev, q`next
    ensures ent.prev == null && DList(list', Cut(q, i))
  {
    list' := list;
    ghost var r := Cut(q, i);
    CutAt(q, i, r);
    assert if i + 1 < |q| then ent.next == q[i + 1] else ent.next == null;
    assert if i > 0 then ent.prev == q[i - 1] else ent.prev == LastOf(q) && ent == list;
    if ent.prev != null {
      if ent.next != null {
        ent.next.prev := ent.prev;
      } else {
        list.prev := ent.prev;
      }
      if ent == list {
        list' := ent.next;
      } else {
        ent.prev.next := ent.next;
      }
      ent.prev := null;
    }
  }

  /** ZB_STK_PUSH. */
  method Push(head: Node?, ent: Node, ghost s: seq<Node>) returns (head': Node?)
    requires Stack(head, s) && ent !in s
    modifies ent`next
    ensures Stack(head', [ent] + s)
  {
    ent.next := head;
    head' := ent;
  }

  /** The loops of zb_sched_init, which push the entries of a pool one by one. */
  method PushAll(nodes: seq<Node>) returns (head: Node?)
    requires Distinct(nodes)
    modifies nodes`next
    ensures Stack(head, Backwards(nodes))
  {
    head := null;
    ghost var s := [];
    for i := 0 to |nodes|
      invariant |s| == i && Stack(head, s)
      invariant forall k :: 0 <= k < i ==> s[k] == nodes[i - 1 - k]
    {
      head := Push(head, nodes[i], s);
      s := [nodes[i]] + s;
    }
    assert s == Backwards(nodes);
  }

  /** ZB_STK_POP. */
  method Pop(head: Node?, ghost s: seq<Node>) returns (head': Node?, ent: Node?)
    requires Stack(head, s)
    ensures s == [] ==> ent == null && head' == null
    ensures s != [] ==> ent == s[0] && Stack(head', s[1..])
  {
    head', ent := head, head;
    if head != null {
      head' := head.next;
    }
  }

  /** The head/tail pair of a singly linked FIFO. */
  ghost predicate Fifo(head: Node?, tail: Node?, q: seq<Node>)
    reads q`next
  {
    Stack(head, q) && tail == if q == [] then null else LastOf(q)
  }

  /** ZB_SL_LIST_INSERT_TAIL. */
  method PutTail(head: Node?, tail: Node?, ent: Node, ghost q: seq<Node>) returns (head': Node?, tail': Node?)
    requires Fifo(head, tail, q) && ent !in q
    modifies q`next, ent`next
    ensures Fifo(head', tail', q + [ent])
  {
    ent.next := null;
    head', tail' := head, ent;
    if tail != null {
      tail.next := ent;
    } else {
      head' := ent;
    }
  }

  /** ZB_SL_LIST_CUT_HEAD. */
  method TakeHead(head: Node?, tail: Node?, ghost q: seq<Node>) returns (head': Node?, tail': Node?, ent: Node?)
    requires Fifo(head, tail, q)
    ensures q == [] ==> ent == null && Fifo(head', tail', [])
    ensures q != [] ==> ent == q[0] && Fifo(head', tail', q[1..])
  {
    head', tail', ent := head, tail, head;
    if head != null {
      head' := head.next;
      if head' == null {
        tail' := null;
      }
    }
  }
}
