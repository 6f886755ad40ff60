/** The binding table as aps_bind.c keeps it: two arrays edited and compacted in place. Slots past
    the live counts keep stale rows, which the do-while loops of the source can reach. */
module BindingTables {
  import opened Prelude
  import opened Bindings
  import Memory

  /** The do-while search of aps_find_src_ref over whole arrays: slot 0 is looked at even when no
      row is live. */
  function FindRow(src: seq<SrcRow>, key: SrcRow, l: nat, n: nat): (r: Option<nat>)
    requires l <= n <= |src|
    ensures r.Some? ==> l <= r.value < n && src[r.value] == key
    ensures r.None? ==> forall i :: l <= i < n ==> src[i] != key
    decreases n - l
  {
    if l == n then None else if src[l] == key then Some(l) else FindRow(src, key, l + 1, n)
  }

  /** First destination row of source row s, by the do-while scan of zb_search_dst_in_binding_table. */
  function FirstRowOf(dst: seq<DstRow>, s: nat, d: nat, n: nat): (r: Option<nat>)
    requires d <= n <= |dst|
    ensures r.Some? ==> d <= r.value < n && dst[r.value].src == s
    ensures r.Some? ==> forall i :: d <= i < r.value ==> dst[i].src != s
    ensures r.None? ==> forall i :: d <= i < n ==> dst[i].src != s
    decreases n - d
  {
    if d == n then None else if dst[d].src == s then Some(d) else FirstRowOf(dst, s, d + 1, n)
  }

  /** The first pair with a key, in binding order. */
  function FirstPair(ps: seq<Pair>, key: SrcRow): (r: Option<nat>)
    ensures r.Some? ==> r.value < |ps| && ps[r.value].key == key
    ensures r.Some? ==> forall i :: 0 <= i < r.value ==> ps[i].key != key
    ensures r.None? ==> forall i :: 0 <= i < |ps| ==> ps[i].key != key
  {
    if ps == [] then None
    else if ps[0].key == key then Some(0)
    else
      var r := FirstPair(ps[1..], key);
      assert forall i :: 0 < i < |ps| ==> ps[i] == ps[1..][i - 1];
      if r.None? then None else Some(r.value + 1)
  }

  lemma FirstPairIs(ps: seq<Pair>, key: SrcRow, k: nat)
    requires k < |ps| && ps[k].key == key && forall i :: 0 <= i < k ==> ps[i].key != key
    ensures FirstPair(ps, key) == Some(k)
  {
  }

  /** Which device an indirectly addressed packet goes to: the first long-address pair of its
      source, unless a group pair comes before it. */
  function IndirectTarget(ps: seq<Pair>, key: SrcRow): Option<Target> {
    var f := FirstPair(ps, key);
    if f.Some? && ps[f.value].target.Long? then Some(ps[f.value].target) else None
  }

  /** The first pair with the key decides: its long address is the target, a group is none, and without such a
      pair there is none. */
  ghost predicate FirstDecides(ps: seq<Pair>, key: SrcRow, t: Option<Target>) {
    && (forall k :: 0 <= k < |ps| && ps[k].key == key && key !in Keys(ps[..k]) ==>
          t == match ps[k].target case Long(a, e) => Some(Long(a, e)) case Group(_) => None)
    && (key !in Keys(ps) ==> t == None)
  }

  lemma IndirectTargetIsFirst(ps: seq<Pair>, key: SrcRow)
    ensures FirstDecides(ps, key, IndirectTarget(ps, key))
  {
    forall k | 0 <= k < |ps| && ps[k].key == key && key !in Keys(ps[..k]) ensures FirstPair(ps, key) == Some(k) {
      forall i | 0 <= i < k ensures ps[i].key != key {
        assert ps[..k][i].key == ps[i].key;
      }
    }
  }

  class BindingTable {
    const src: array<SrcRow>
    const dst: array<DstRow>
    var srcN: nat
    var dstN: nat

    ghost predicate Shape()
      reads this
    {
      && 0 < src.Length < 255 && 0 < dst.Length < 255
      && srcN <= src.Length && dstN <= dst.Length
    }

    ghost predicate Valid()
      reads this, src, dst
    {
      Shape() && Consistent(src[..srcN], dst[..dstN])
    }

    ghost function Pairs(): seq<Pair>
      requires Valid()
      reads this, src, dst
    {
      PairsOf(src[..srcN], dst[..dstN])
    }

    /** The guard under which the source's do-while loops do not act on stale rows. */
    predicate NotStale(key: SrcRow)
      requires Shape()
      reads this, src
    {
      srcN > 0 || src[0] != key
    }

    /** The table is empty, and slot 0 of each array still holds what the request was for. */
    predicate LeftBehind(r: Request)
      requires Shape()
      reads this, src, dst
    {
      && srcN == 0 && dstN == 0 && r.srcRef.Some? && TargetStatus(r) == Ok
      && src[0] == KeyOf(r) && dst[0] == DstRow(TargetOf(r), 0)
    }

    constructor (srcCap: nat, dstCap: nat)
      requires 0 < srcCap < 255 && 0 < dstCap < 255
      ensures Valid() && Pairs() == [] && src.Length == srcCap && dst.Length == dstCap
      ensures fresh(src) && fresh(dst)
    {
      src := new SrcRow[srcCap](_ => SrcRow(0, 0, 0));
      dst := new DstRow[dstCap](_ => DstRow(Group(0), 0));
      srcN, dstN := 0, 0;
    }

    /** aps_find_src_ref; None stands for the sentinel 255, which no capacity reaches. */
    method FindSrcRef(key: SrcRow) returns (r: Option<nat>)
      requires Shape()
      ensures r == FindRow(src[..], key, 0, AtLeastOne(srcN))
    {
      var l := 0;
      var more := true;
      while more
        invariant l <= AtLeastOne(srcN) && (more <==> l < AtLeastOne(srcN))
        invariant FindRow(src[..], key, 0, AtLeastOne(srcN)) == FindRow(src[..], key, l, AtLeastOne(srcN))
        decreases AtLeastOne(srcN) - l
      {
        if src[l] == key {
          return Some(l);
        }
        l := l + 1;
        more := l < srcN;
      }
      r := None;
    }

    /** zb_apsme_bind_request. */
    method BindRequest(r: Request) returns (status: Status)
      requires Valid()
      modifies this, src, dst
      ensures Valid()
      ensures status == BindStatus(old(Pairs()), src.Length, dst.Length, r)
      ensures Pairs() == Bound(old(Pairs()), src.Length, dst.Length, r)
      ensures BindDone(old(Pairs()), src.Length, dst.Length, r, status, Pairs())
    {
      BindRequestDone(Pairs(), src.Length, dst.Length, r);
      KeysAreRows(src[..srcN], dst[..dstN]);
      if r.srcRef.None? {
        return AddressError;
      }
      var key := KeyOf(r);
      var f := FindSrcRef(key);
      var s := if f.None? then srcN else f.value;
      ghost var live, rows := src[..srcN], dst[..dstN];
      FoundIsLive(src[..], srcN, key);
      if s < src.Length && dstN < dst.Length {
        status := TargetStatus(r);
        if status == Ok {
          BindAppends(live, rows, key, TargetOf(r), s);
          AppendRow(key, TargetOf(r), s);
        }
      } else {
        status := TableFull;
      }
    }

    /** The writes of a successful bind. */
    method AppendRow(key: SrcRow, t: Target, s: nat)
      requires Shape() && s <= srcN && s < src.Length && dstN < dst.Length
      modifies this, src, dst
      ensures Shape()
      ensures src[..srcN] == if s == old(srcN) then old(src[..srcN]) + [key] else old(src[..srcN])
      ensures dst[..dstN] == old(dst[..dstN]) + [DstRow(t, s)]
      ensures srcN == old(srcN) + (if s == old(srcN) then 1 else 0) && dstN == old(dstN) + 1
    {
      if s == srcN {
        src[s] := key;
        srcN := srcN + 1;
      }
      dst[dstN] := DstRow(t, s);
      dstN := dstN + 1;
    }

    /** One look of the removal loop: a row equal to the one to remove is overwritten by moving the
        rest left, any other row is passed over. */
    method RemoveOrPass(d: nat, gone: DstRow) returns (d': nat)
      requires Shape() && d < dstN
      modifies this`dstN, dst
      ensures Shape()
      ensures old(dst[d]) == gone ==> d' == d
      ensures old(dst[d]) == gone ==> dst[..dstN] == old(dst[..dstN])[..d] + old(dst[..dstN])[d + 1..]
      ensures old(dst[d]) != gone ==> d' == d + 1 && dst[..dstN] == old(dst[..dstN])
      ensures dstN == 0 ==> dst[0] == gone
    {
      d' := d;
      if dst[d] == gone {
        dstN := dstN - 1;
        Memory.Move(dst, d, d + 1, dstN - d);
      } else {
        d' := d + 1;
      }
    }

    /** The removal loop of zb_apsme_unbind_request; the table is not empty, so the do-while loop's
        first look is at a live row. Says whether source row s still has a destination. */
    method RemoveRows(s: nat, t: Target) returns (found: bool)
      requires Shape() && dstN > 0
      modifies this`dstN, dst
      ensures Shape() && dst[..dstN] == OtherRows(old(dst[..dstN]), s, t)
      ensures found <==> Refers(dst[..dstN], s)
      // The row removed last stays behind in the dead slots.
      ensures dstN == 0 ==> dst[0] == DstRow(t, s)
    {
      ghost var rows := dst[..dstN];
      ghost var kept, rest := [], rows;
      var d: nat := 0;
      found := false;
      var more := true;
      while more
        invariant Shape() && |kept| == d && (more <==> rest != [])
        invariant dst[..dstN] == kept + rest
        invariant OtherRows(rows, s, t) == kept + OtherRows(rest, s, t)
        invariant found <==> Refers(kept, s)
        invariant dstN == 0 ==> dst[0] == DstRow(t, s)
        decreases |rest|
      {
        ghost var row := rest[0];
        assert dst[d] == dst[..dstN][d] == row;
        if dst[d] != DstRow(t, s) && dst[d].src == s {
          found := true;
        }
        d := RemoveOrPass(d, DstRow(t, s));
        RemovalStep(kept, rest, s, t);
        kept := KeptAfter(kept, row, s, t);
        rest := rest[1..];
        more := d < dstN;
      }
      assert rest == [] && kept + rest == kept && kept + OtherRows(rest, s, t) == kept;
    }

    /** Removal of an unreferenced source row, and the re-indexing loop. With no destination left the
        loop still passes over the stale slot 0, outside the live range. */
    method DropSource(s: nat)
      requires Shape() && s < srcN
      modifies this`srcN, src, dst
      ensures Shape()
      ensures src[..srcN] == old(src[..srcN])[..s] + old(src[..srcN])[s + 1..]
      ensures dst[..dstN] == LoweredRows(old(dst[..dstN]), s)
      ensures dst[0] == old(dst[0]) || dst[0] == Lowered(old(dst[0]), s)
      ensures old(srcN) == 1 ==> src[0] == old(src[0])
    {
      ghost var live, rows := src[..srcN], dst[..];
      srcN := srcN - 1;
      Memory.Move(src, s, s + 1, srcN - s);
      assert src[..srcN] == live[..s] + live[s + 1..];
      var d := 0;
      var more := true;
      while more
        invariant d <= AtLeastOne(dstN) && (more <==> d < AtLeastOne(dstN))
        invariant forall i :: 0 <= i < d ==> dst[i] == Lowered(rows[i], s)
        invariant forall i :: d <= i < dst.Length ==> dst[i] == rows[i]
        modifies dst
        decreases AtLeastOne(dstN) - d
      {
        if dst[d].src > s {
          dst[d] := dst[d].(src := dst[d].src - 1);
        }
        d := d + 1;
        more := d < dstN;
      }
    }

    /** The removal of a target from the live source row s. */
    method RemoveTarget(s: nat, t: Target)
      requires Valid() && s < srcN
      modifies this, src, dst
      ensures Valid() && Pairs() == WithoutPair(old(Pairs()), Pair(old(src[s]), t))
      // The rows of the last pairs to go stay behind in the dead slots.
      ensures Pairs() == [] ==> srcN == 0 && dstN == 0 && src[0] == old(src[s]) && dst[0] == DstRow(t, 0)
    {
      ghost var live, rows := src[..srcN], dst[..dstN];
      UnbindRemoves(live, rows, s, t);
      assert live[s] == src[s] && Refers(rows, s);
      var found := RemoveRows(s, t);
      if !found {
        DropSource(s);
      }
      assert src[..srcN] == UnboundSrc(live, rows, s, t);
      assert dst[..dstN] == UnboundDst(rows, s, t);
      NoRowsLeft(src[..srcN], dst[..dstN]);
    }

    /** zb_apsme_unbind_request. */
    method UnbindRequest(r: Request) returns (status: Status)
      requires Valid()
      requires r.srcRef.Some? ==> NotStale(KeyOf(r)) || TargetStatus(r) == InvalidBinding
      modifies this, src, dst
      ensures Valid()
      ensures status == UnbindStatus(old(Pairs()), r)
      ensures Pairs() == Unbound(old(Pairs()), r)
      ensures UnbindDone(old(Pairs()), r, status, Pairs())
      ensures old(Pairs()) != [] && Pairs() == [] ==> LeftBehind(r)
    {
      UnbindRequestDone(Pairs(), r);
      if r.srcRef.None? {
        return IllegalRequest;
      }
      KeysAreRows(src[..srcN], dst[..dstN]);
      var f := FindSrcRef(KeyOf(r));
      FoundIsLive(src[..], srcN, KeyOf(r));
      if f.None? {
        return InvalidBinding;
      }
      status := TargetStatus(r);
      if status == Ok {
        assert src[..srcN][f.value] == KeyOf(r);
        RemoveTarget(f.value, TargetOf(r));
      }
    }

    /** zb_search_dst_in_binding_table, for a device whose own address is known. Nothing guards it
        against an empty table, where it acts on whatever slot 0 still holds. */
    method SearchTarget(key: SrcRow) returns (t: Option<Target>)
      requires Valid()
      ensures t == if NotStale(key) then IndirectTarget(Pairs(), key)
                   else SearchOnEmpty(src[0], dst[0], key)
      ensures NotStale(key) ==> FirstDecides(Pairs(), key, t)
    {
      IndirectTargetIsFirst(Pairs(), key);
      t := None;
      var f := FindSrcRef(key);
      FoundIsLive(src[..], srcN, key);
      ghost var live, rows := src[..srcN], dst[..dstN];
      KeysAreRows(live, rows);
      if f.None? {
        return;
      }
      var i := FirstRow(f.value);
      if NotStale(key) {
        assert live[f.value] == key && Refers(rows, f.value);
        KeyOfRows(live, rows, f.value);
        FirstPairIs(Pairs(), key, i.value);
        assert rows[i.value] == dst[i.value];
      }
      if i.Some? && dst[i.value].target.Long? {
        t := Some(dst[i.value].target);
      }
    }

    /** The do-while scan of the search for the first row of source s. */
    method FirstRow(s: nat) returns (r: Option<nat>)
      requires Shape()
      ensures r == FirstRowOf(dst[..], s, 0, AtLeastOne(dstN))
      ensures Refers(dst[..dstN], s) ==>
                && r.Some? && r.value < dstN
                && dst[..dstN][r.value].src == s
                && forall j :: 0 <= j < r.value ==> dst[..dstN][j].src != s
    {
      r := None;
      var i := 0;
      var more := true;
      while more
        invariant i <= AtLeastOne(dstN) && (more <==> i < AtLeastOne(dstN) && r.None?)
        invariant r.None? ==> FirstRowOf(dst[..], s, 0, AtLeastOne(dstN)) == FirstRowOf(dst[..], s, i, AtLeastOne(dstN))
        invariant r.Some? ==> r == FirstRowOf(dst[..], s, 0, AtLeastOne(dstN))
        decreases AtLeastOne(dstN) - i, more
      {
        if dst[i].src == s {
          r := Some(i);
          more := false;
        } else {
          i := i + 1;
          more := i < dstN;
        }
      }
      if Refers(dst[..dstN], s) {
        var j :| 0 <= j < dstN && dst[..dstN][j].src == s;
        assert dst[j].src == s;
      }
    }

    /** zb_apsme_unbind_request on an empty table without any guard, in 8-bit arithmetic, up to the
        first counter it takes below zero. The block move that follows, over 255 rows, is past what
        the arrays hold and is not part of this method; the status is settled before it. */
    method UnbindOnEmptyTable(r: Request) returns (status: Status, srcCount: int, dstCount: int)
      requires Shape() && srcN == 0 && dstN == 0
      ensures Emptied(status, srcCount, dstCount) == UnbindOnEmpty(src[0], dst[0], r)
    {
      srcCount, dstCount := srcN, dstN;
      if r.srcRef.None? {
        return IllegalRequest, srcCount, dstCount;
      }
      var f := FindSrcRef(KeyOf(r));
      if f.None? {
        return InvalidBinding, srcCount, dstCount;
      }
      status := TargetStatus(r);
      if status == Ok {
        var found := false;
        if dst[0] == DstRow(TargetOf(r), f.value) {
          dstCount := (dstCount - 1) % 256;
          return;
        }
        if dst[0].src == f.value {
          found := true;
        }
        if !found {
          srcCount := (srcCount - 1) % 256;
        }
      }
    }
  }

  /** The rows kept once one more has been looked at. */
  function KeptAfter(kept: seq<DstRow>, row: DstRow, s: nat, t: Target): seq<DstRow> {
    if row == DstRow(t, s) then kept else kept + [row]
  }

  /** One iteration of the removal loop, on the rows kept so far and the rows to come. */
  lemma RemovalStep(kept: seq<DstRow>, rest: seq<DstRow>, s: nat, t: Target)
    requires rest != []
    ensures var row, kept' := rest[0], KeptAfter(kept, rest[0], s, t);
      && (row == DstRow(t, s) ==> (kept + rest)[..|kept|] + (kept + rest)[|kept| + 1..] == kept' + rest[1..])
      && (row != DstRow(t, s) ==> kept + rest == kept' + rest[1..])
      && kept + OtherRows(rest, s, t) == kept' + OtherRows(rest[1..], s, t)
      && (Refers(kept', s) <==> Refers(kept, s) || (row != DstRow(t, s) && row.src == s))
  {
    SplitAt(kept, rest);
    ReferStep(kept, rest[0], s);
    if rest[0] != DstRow(t, s) {
      Reassociate(kept, [rest[0]], OtherRows(rest[1..], s, t));
    }
  }

  lemma ReferStep(rows: seq<DstRow>, d: DstRow, s: nat)
    ensures Refers(rows + [d], s) <==> Refers(rows, s) || d.src == s
  {
    var r := rows + [d];
    if d.src == s {
      assert r[|rows|].src == s;
    }
    if Refers(rows, s) {
      var i :| 0 <= i < |rows| && rows[i].src == s;
      assert r[i].src == s;
    }
  }

  /** With a live row, or no stale match, the search over slots is the search over live rows. */
  lemma FoundIsLive(slots: seq<SrcRow>, n: nat, key: SrcRow)
    requires n <= |slots| && |slots| > 0
    ensures n > 0 || slots[0] != key ==>
              var f := FindRow(slots, key, 0, AtLeastOne(n));
              (f.None? <==> key !in slots[..n]) && (f.Some? ==> f.value < n && slots[..n][f.value] == key)
    ensures n == 0 && slots[0] == key ==> FindRow(slots, key, 0, AtLeastOne(n)) == Some(0)
  {
    var f := FindRow(slots, key, 0, AtLeastOne(n));
    if f.Some? && f.value < n {
      assert slots[..n][f.value] == key;
    }
  }

  /** No pairs means no rows of either kind. */
  lemma NoRowsLeft(src: seq<SrcRow>, dst: seq<DstRow>)
    requires Consistent(src, dst)
    ensures PairsOf(src, dst) == [] ==> src == [] && dst == []
  {
    assert src != [] ==> Refers(dst, 0);
  }

  /** The pairs with a source's key are those of its rows. */
  lemma KeyOfRows(src: seq<SrcRow>, dst: seq<DstRow>, s: nat)
    requires Consistent(src, dst) && s < |src|
    ensures forall d :: 0 <= d < |dst| ==> (PairsOf(src, dst)[d].key == src[s] <==> dst[d].src == s)
  {
  }

  // ---------- The empty table, exactly as written ----------

  datatype Emptied = Emptied(status: Status, srcCount: int, dstCount: int)

  /** The answer to an unbind request on an empty table with src0 and dst0 in its first slots, and the
      counters, in the source's 8-bit arithmetic, at the first point where they are wrong if they go
      wrong. */
  function UnbindOnEmpty(src0: SrcRow, dst0: DstRow, r: Request): Emptied {
    if r.srcRef.None? then Emptied(IllegalRequest, 0, 0)
    else if src0 != KeyOf(r) then Emptied(InvalidBinding, 0, 0)
    else if TargetStatus(r) != Ok then Emptied(TargetStatus(r), 0, 0)
    else if dst0 == DstRow(TargetOf(r), 0) then Emptied(Ok, 0, 255)
    else if dst0.src == 0 then Emptied(Ok, 0, 0)
    else Emptied(Ok, 255, 0)
  }

  /** Exactly when unbinding from an empty table answers as the empty list does and leaves both counters
      at zero: slot 0 does not hold the key, or the address mode is invalid anyway. */
  lemma UnbindOnEmptyIff(src0: SrcRow, dst0: DstRow, r: Request)
    ensures UnbindOnEmpty(src0, dst0, r) == Emptied(UnbindStatus([], r), 0, 0) <==>
            (r.srcRef.None? || src0 != KeyOf(r) || TargetStatus(r) == InvalidBinding)
  {
  }

  /** Exactly when at least the counters stay at zero. */
  lemma UnbindOnEmptyCountsIff(src0: SrcRow, dst0: DstRow, r: Request)
    ensures var e := UnbindOnEmpty(src0, dst0, r);
      (e.srcCount == 0 && e.dstCount == 0) <==>
      (r.srcRef.None? || src0 != KeyOf(r) || TargetStatus(r) != Ok || (dst0.src == 0 && dst0.target != TargetOf(r)))
  {
  }

  /** A pair that is not bound is unbound with success: slot 0 holds the key, with group 8, and the
      request is for group 9. */
  lemma StaleKeyAnswersOk()
    ensures var r := Request(Some(1), 1, 6, MODE_GROUP, None, 0, 9);
      UnbindOnEmpty(KeyOf(r), DstRow(Group(8), 0), r) == Emptied(Ok, 0, 0) && UnbindStatus([], r) == InvalidBinding
  {
  }

  /** Unbinding the last pairs of any table, and then another target of the same source, which is
      answered with success although nothing is bound. */
  method UnbindLastThenOther(t: BindingTable, r: Request, other: Request) returns (status: Status)
    requires t.Valid() && t.Pairs() != [] && Unbound(t.Pairs(), r) == []
    requires other.srcRef.Some? && TargetStatus(other) == Ok && KeyOf(other) == KeyOf(r) && TargetOf(other) != TargetOf(r)
    modifies t, t.src, t.dst
    ensures t.Valid() && t.Pairs() == [] && UnbindStatus(t.Pairs(), other) == InvalidBinding && status == Ok
  {
    var _ := t.UnbindRequest(r);
    var s, _, _ := t.UnbindOnEmptyTable(other);
    status := s;
  }

  /** Unbinding the last pairs of any table twice takes the destination counter to 255. */
  method UnbindLastTwice(t: BindingTable, r: Request) returns (srcCount: int, dstCount: int)
    requires t.Valid() && t.Pairs() != [] && Unbound(t.Pairs(), r) == []
    modifies t, t.src, t.dst
    ensures srcCount == 0 && dstCount == 255
  {
    var _ := t.UnbindRequest(r);
    var _, s, d := t.UnbindOnEmptyTable(r);
    srcCount, dstCount := s, d;
  }

  /** After the last pairs of any table have been unbound, an indirect send still finds the device they
      led to. */
  method SendAfterUnbind(t: BindingTable, r: Request) returns (sentTo: Option<Target>)
    requires t.Valid() && t.Pairs() != [] && Unbound(t.Pairs(), r) == [] && r.mode == MODE_LONG
    modifies t, t.src, t.dst
    ensures t.Valid() && t.Pairs() == [] && sentTo == Some(TargetOf(r))
  {
    var _ := t.UnbindRequest(r);
    sentTo := t.SearchTarget(KeyOf(r));
  }

  /** The device an indirect send picks from an empty table. */
  function SearchOnEmpty(src0: SrcRow, dst0: DstRow, key: SrcRow): Option<Target> {
    if FindRow([src0], key, 0, 1) == Some(0) && FirstRowOf([dst0], 0, 0, 1) == Some(0) && dst0.target.Long?
    then Some(dst0.target) else None
  }

  /** A device that was unbound last still receives indirectly addressed packets: the search agrees
      with the empty list of pairs iff slot 0 does not hold stale rows of this source. */
  lemma SearchOnEmptyIff(src0: SrcRow, dst0: DstRow, key: SrcRow)
    ensures SearchOnEmpty(src0, dst0, key) == IndirectTarget([], key) <==>
            (src0 != key || dst0.src != 0 || dst0.target.Group?)
  {
  }
}
