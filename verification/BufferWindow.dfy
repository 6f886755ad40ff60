/** The data window of a packet buffer (zb_bufpool.c): len bytes at data_offset in a fixed array,
    grown, cut and moved without losing payload, with parameters kept at the array's tail. */
module BufferWindows {
  import opened Prelude
  import Memory

  /** ZB_IO_BUF_SIZE: any size, as far as the longest header fits. */
  type BufferSize = n: nat | 16 <= n < 256 witness 148
  const BUF_SIZE: BufferSize

  datatype Window = Window(len: nat, offset: nat)

  predicate Fits(w: Window) {
    w.offset + w.len <= BUF_SIZE
  }

  datatype WinOp =
    | InitialAlloc(size: nat)
    | AllocLeft(size: nat)
    | AllocRight(size: nat)
    | CutLeft(size: nat)
    | CutRight(size: nat)
    | AssignParam(size: nat)

  /** What each operation asserts. Right allocation asserts only size + len. */
  predicate Asserted(w: Window, op: WinOp) {
    match op
    case InitialAlloc(n) => n < BUF_SIZE
    case AllocLeft(n) => n + w.len < BUF_SIZE
    case AllocRight(n) => n + w.len < BUF_SIZE
    case CutLeft(n) => n <= w.len
    case CutRight(n) => n <= w.len
    case AssignParam(n) => w.len + n <= BUF_SIZE
  }

  /** The arithmetic on len and data_offset. */
  function Apply(w: Window, op: WinOp): Window
    requires Fits(w) && Asserted(w, op)
  {
    match op
    case InitialAlloc(n) => Window(n, (BUF_SIZE - n) / 2)
    case AllocLeft(n) => Window(w.len + n, if w.offset < n then 0 else w.offset - n)
    case AllocRight(n) => w.(len := w.len + n)
    case CutLeft(n) => Window(w.len - n, w.offset + n)
    case CutRight(n) => w.(len := w.len - n)
    case AssignParam(n) =>
      var room := BUF_SIZE - (w.offset + w.len);
      if room < n then w.(offset := w.offset - (n - room)) else w
  }

  /** Exactly which asserted operations keep the window inside the array: all of them, except a right
      allocation that does not fit behind the current offset. */
  lemma StaysInsideIff(w: Window, op: WinOp)
    requires Fits(w) && Asserted(w, op)
    ensures Fits(Apply(w, op)) <==> (op.AllocRight? ==> w.offset + w.len + op.size <= BUF_SIZE)
  {
  }

  /** An empty window, as placed in the middle: the assertion lets a right allocation run off the array. */
  lemma RightAllocationRunsOff()
    ensures var w := Apply(Window(0, 0), InitialAlloc(0)); var op := AllocRight(BUF_SIZE - 1);
            Asserted(w, op) && !Fits(Apply(w, op))
  {
  }

  /** The array once there are size more bytes in front of the payload: if it is too far left for them, it
      is moved right behind them. */
  ghost function AfterAlloc(s: seq<U8>, w: Window, size: nat): (r: seq<U8>)
    requires |s| == BUF_SIZE && Fits(w) && size + w.len < BUF_SIZE
    ensures |r| == BUF_SIZE
  {
    if w.offset >= size then s
    else seq(BUF_SIZE, i requires 0 <= i < BUF_SIZE => if size <= i < size + w.len then s[i - size + w.offset] else s[i])
  }

  /** Neither the payload nor size bytes in front of it get into the last n bytes of the array. */
  predicate StaysClear(w: Window, size: nat, n: nat) {
    w.offset >= size || size + w.len <= BUF_SIZE - n
  }

  lemma AllocKeepsTail(s: seq<U8>, w: Window, size: nat, n: nat)
    requires |s| == BUF_SIZE && Fits(w) && size + w.len < BUF_SIZE && n <= BUF_SIZE && StaysClear(w, size, n)
    ensures AfterAlloc(s, w, size)[BUF_SIZE - n..] == s[BUF_SIZE - n..]
  {
  }

  predicate SafeRun(w: Window, ops: seq<WinOp>)
    requires Fits(w)
    decreases |ops|
  {
    ops != [] ==>
      && Asserted(w, ops[0])
      && (ops[0].AllocRight? ==> w.offset + w.len + ops[0].size <= BUF_SIZE)
      && SafeRun(Apply(w, ops[0]), ops[1..])
  }

  function ApplyAll(w: Window, ops: seq<WinOp>): Window
    requires Fits(w) && SafeRun(w, ops)
    decreases |ops|
  {
    if ops == [] then w else ApplyAll(Apply(w, ops[0]), ops[1..])
  }

  /** Any sequence of window operations stays inside the array. */
  lemma {:induction false} RunStaysInside(w: Window, ops: seq<WinOp>)
    requires Fits(w) && SafeRun(w, ops)
    ensures Fits(ApplyAll(w, ops))
    decreases |ops|
  {
    if ops != [] {
      RunStaysInside(Apply(w, ops[0]), ops[1..]);
    }
  }

  class Buffer {
    const buf: array<U8>
    var len: nat
    var offset: nat

    ghost predicate Valid()
      reads this, buf
    {
      buf.Length == BUF_SIZE && Fits(Win())
    }

    function Win(): Window
      reads this
    {
      Window(len, offset)
    }

    /** The bytes in the window. */
    ghost function Payload(): (s: seq<U8>)
      requires Valid()
      reads this, buf
      ensures |s| == len
    {
      buf[offset..offset + len]
    }

    /** The last n bytes of the array, where parameters live. */
    ghost function Tail(n: nat): seq<U8>
      requires buf.Length == BUF_SIZE && n <= BUF_SIZE
      reads this, buf
    {
      buf[BUF_SIZE - n..]
    }

    constructor ()
      ensures Valid() && Payload() == [] && fresh(buf)
    {
      buf := new U8[BUF_SIZE](_ => 0);
      len, offset := 0, 0;
    }

    /** zb_buf_initial_alloc. */
    method InitialAlloc(size: nat) returns (at: nat)
      requires Valid() && Asserted(Win(), WinOp.InitialAlloc(size))
      modifies this
      ensures Valid() && Win() == Apply(old(Win()), WinOp.InitialAlloc(size)) && at == offset
      ensures len == size && 0 <= (BUF_SIZE - (offset + len)) - offset <= 1
    {
      len := size;
      offset := (BUF_SIZE - size) / 2;
      at := offset;
    }

    /** The payload goes to another place in the array; the bytes elsewhere stay. */
    method MovePayload(to: nat)
      requires Valid() && to + len <= BUF_SIZE
      modifies this`offset, buf
      ensures Valid() && offset == to && Payload() == old(Payload())
      ensures forall i :: 0 <= i < BUF_SIZE && !(to <= i < to + len) ==> buf[i] == old(buf[i])
    {
      Memory.Move(buf, to, offset, len);
      offset := to;
    }

    /** Its move: the payload goes right until size bytes are free in front of it. */
    method ShiftRight(size: nat)
      requires Valid() && size + len < BUF_SIZE
      modifies this`offset, buf
      ensures Valid() && offset == if old(offset) < size then size else old(offset)
      ensures Payload() == old(Payload()) && buf[..] == AfterAlloc(old(buf[..]), old(Win()), size)
    {
      ghost var p := Payload();
      if offset < size {
        MovePayload(size);
        assert forall i :: size <= i < size + len ==> buf[i] == p[i - size];
      }
    }

    /** zb_buf_smart_alloc_left: new space before the payload, which keeps its bytes even when it
        has to be moved right. */
    method AllocLeft(size: nat) returns (at: nat)
      requires Valid() && Asserted(Win(), WinOp.AllocLeft(size))
      modifies this, buf
      ensures Valid() && Win() == Apply(old(Win()), WinOp.AllocLeft(size)) && at == offset
      ensures len == old(len) + size && offset == (if old(offset) < size then 0 else old(offset) - size)
      ensures Payload()[size..] == old(Payload())
      ensures buf[..] == AfterAlloc(old(buf[..]), old(Win()), size)
    {
      ShiftRight(size);
      len := len + size;
      offset := offset - size;
      at := offset;
    }

    /** zb_buf_smart_alloc_right, with the precondition its assertion omits. */
    method AllocRight(size: nat) returns (at: nat)
      requires Valid() && Asserted(Win(), WinOp.AllocRight(size)) && offset + len + size <= BUF_SIZE
      modifies this
      ensures Valid() && Win() == Apply(old(Win()), WinOp.AllocRight(size)) && at == offset + old(len)
      ensures len == old(len) + size && offset == old(offset) && Payload()[..old(len)] == old(Payload())
    {
      at := offset + len;
      len := len + size;
    }

    /** zb_buf_cut_left. */
    method CutLeft(size: nat) returns (at: nat)
      requires Valid() && Asserted(Win(), WinOp.CutLeft(size))
      modifies this
      ensures Valid() && Win() == Apply(old(Win()), WinOp.CutLeft(size)) && at == offset
      ensures len == old(len) - size && Payload() == old(Payload())[size..]
    {
      len := len - size;
      offset := offset + size;
      at := offset;
    }

    /** zb_buf_cut_right. */
    method CutRight(size: nat)
      requires Valid() && Asserted(Win(), WinOp.CutRight(size))
      modifies this
      ensures Valid() && Win() == Apply(old(Win()), WinOp.CutRight(size))
      ensures len == old(len) - size && Payload() == old(Payload())[..len]
    {
      len := len - size;
    }

    /** Move the payload left, if need be, until size bytes are free behind it. */
    method MakeRoom(size: nat)
      requires Valid() && Asserted(Win(), WinOp.AssignParam(size))
      modifies this, buf
      ensures Valid() && Win() == Apply(old(Win()), WinOp.AssignParam(size))
      ensures Payload() == old(Payload()) && offset + len + size <= BUF_SIZE
    {
      if BUF_SIZE - (offset + len) < size {
        var delta := size - (BUF_SIZE - (offset + len));
        MovePayload(offset - delta);
      }
    }

    /** The copy to the tail, which is clear of the payload. */
    method WriteTail(param: seq<U8>)
      requires Valid() && offset + len + |param| <= BUF_SIZE
      modifies buf
      ensures Valid() && Tail(|param|) == param && Payload() == old(Payload())
    {
      forall i | 0 <= i < |param| {
        buf[BUF_SIZE - |param| + i] := param[i];
      }
      assert forall i :: offset <= i < offset + len ==> buf[i] == old(buf[i]);
    }

    /** zb_buf_assign_param: the parameter ends up at the tail; if the payload is in the way it is
        moved left, byte for byte. */
    method AssignParam(param: seq<U8>)
      requires Valid() && Asserted(Win(), WinOp.AssignParam(|param|))
      modifies this, buf
      ensures Valid() && Win() == Apply(old(Win()), WinOp.AssignParam(|param|))
      ensures Tail(|param|) == param && Payload() == old(Payload())
      ensures offset == if old(offset) + len + |param| <= BUF_SIZE then old(offset) else BUF_SIZE - |param| - len
    {
      MakeRoom(|param|);
      WriteTail(param);
    }

    /** zb_get_buf_tail: where the last size bytes start, clear of the payload. */
    method GetTail(size: nat) returns (at: nat)
      requires Valid() && len + offset + size <= BUF_SIZE
      ensures at == BUF_SIZE - size && offset + len <= at
      ensures buf[at..] == Tail(size)
    {
      at := BUF_SIZE - size;
    }

    /** Bytes written to the front of the window leave the rest of it alone. */
    method WriteFront(header: seq<U8>)
      requires Valid() && |header| <= len
      modifies buf
      ensures Valid() && Payload()[|header|..] == old(Payload())[|header|..]
    {
      ghost var p := Payload();
      forall i | 0 <= i < |header| {
        buf[offset + i] := header[i];
      }
      assert Payload()[|header|..] == p[|header|..];
    }

    /** Pushing a header and stripping it again gives back the payload, wherever it now is. */
    method PushAndStrip(header: seq<U8>)
      requires Valid() && Asserted(Win(), WinOp.AllocLeft(|header|))
      modifies this, buf
      ensures Valid() && Payload() == old(Payload())
    {
      var _ := AllocLeft(|header|);
      WriteFront(header);
      var _ := CutLeft(|header|);
    }

    /** A parameter assigned to the tail is still there, and the payload unharmed, after any header is
        cut and the payload shortened. */
    method ParamSurvivesCuts(param: seq<U8>, left: nat, right: nat)
      requires Valid() && Asserted(Win(), WinOp.AssignParam(|param|)) && left + right <= len
      modifies this, buf
      ensures Valid() && Tail(|param|) == param
      ensures Payload() == old(Payload())[left..old(len) - right]
    {
      AssignParam(param);
      var _ := CutLeft(left);
      CutRight(right);
    }
  }
}
