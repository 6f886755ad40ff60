/** The APS binding table (aps_bind.c): rows of sources and rows of destinations that point at them,
    standing for a plain list of (source, destination) pairs. */
module Bindings {
  import opened Prelude

  datatype SrcRow = SrcRow(addr: nat, endpoint: U8, cluster: U16)

  datatype Target = Long(addr: nat, endpoint: U8) | Group(group: U16)

  /** `src` is src_table_index. */
  datatype DstRow = DstRow(target: Target, src: nat)

  datatype Pair = Pair(key: SrcRow, target: Target)

  // ---------- The list of pairs the table stands for ----------

  /** What a request asks for, with the address lookups it triggers already answered: a lookup
      that finds and, where asked to, creates no entry gives None. */
  datatype Request = Request(
    srcRef: Option<nat>, srcEndpoint: U8, cluster: U16,
    mode: U8, dstRef: Option<nat>, dstEndpoint: U8, group: U16)

  const MODE_GROUP: U8 := 1
  const MODE_LONG: U8 := 3

  datatype Status = Ok | AddressError | TableFull | InvalidBinding | IllegalRequest

  function KeyOf(r: Request): SrcRow
    requires r.srcRef.Some?
  {
    SrcRow(r.srcRef.value, r.srcEndpoint, r.cluster)
  }

  /** Address mode dispatch, shared by both requests. */
  function TargetStatus(r: Request): Status {
    if r.mode == MODE_LONG then (if r.dstRef.Some? then Ok else AddressError)
    else if r.mode == MODE_GROUP then Ok
    else InvalidBinding
  }

  function TargetOf(r: Request): Target
    requires TargetStatus(r) == Ok
  {
    if r.mode == MODE_LONG then Long(r.dstRef.value, r.dstEndpoint) else Group(r.group)
  }

  ghost function Keys(ps: seq<Pair>): set<SrcRow> {
    set i | 0 <= i < |ps| :: ps[i].key
  }

  ghost function BindStatus(ps: seq<Pair>, srcCap: nat, dstCap: nat, r: Request): Status {
    if r.srcRef.None? then AddressError
    else if (KeyOf(r) !in Keys(ps) && |Keys(ps)| >= srcCap) || |ps| >= dstCap then TableFull
    else TargetStatus(r)
  }

  /** Bind appends one pair, even one that is there already. */
  ghost function Bound(ps: seq<Pair>, srcCap: nat, dstCap: nat, r: Request): seq<Pair> {
    if BindStatus(ps, srcCap, dstCap, r) == Ok then ps + [Pair(KeyOf(r), TargetOf(r))] else ps
  }

  ghost function UnbindStatus(ps: seq<Pair>, r: Request): Status {
    if r.srcRef.None? then IllegalRequest
    else if KeyOf(r) !in Keys(ps) then InvalidBinding
    else TargetStatus(r)
  }

  function WithoutPair(ps: seq<Pair>, p: Pair): (qs: seq<Pair>)
    ensures p !in qs
    ensures forall q :: q != p ==> multiset(qs)[q] == multiset(ps)[q]
    ensures |qs| <= |ps|
  {
    if ps == [] then []
    else
      assert ps == [ps[0]] + ps[1..];
      if ps[0] == p then WithoutPair(ps[1..], p) else [ps[0]] + WithoutPair(ps[1..], p)
  }

  /** Unbind removes every pair equal to the request and nothing else. */
  ghost function Unbound(ps: seq<Pair>, r: Request): seq<Pair> {
    if UnbindStatus(ps, r) == Ok then WithoutPair(ps, Pair(KeyOf(r), TargetOf(r))) else ps
  }

  // ---------- The requests, field by field ----------

  /** What a bind request does to the pairs ps. The table is full when the pairs fill it, or when a new
      source would be one too many; address mode 1 is for a group, 3 for a long address and an endpoint. */
  ghost predicate BindDone(ps: seq<Pair>, srcCap: nat, dstCap: nat, r: Request, status: Status, after: seq<Pair>) {
    if r.srcRef.None? then status == AddressError && after == ps
    else
      var key := SrcRow(r.srcRef.value, r.srcEndpoint, r.cluster);
      if |ps| >= dstCap || ((forall i :: 0 <= i < |ps| ==> ps[i].key != key) && |Keys(ps)| >= srcCap) then
        status == TableFull && after == ps
      else if r.mode == 1 then status == Ok && after == ps + [Pair(key, Group(r.group))]
      else if r.mode != 3 then status == InvalidBinding && after == ps
      else if r.dstRef.None? then status == AddressError && after == ps
      else status == Ok && after == ps + [Pair(key, Long(r.dstRef.value, r.dstEndpoint))]
  }

  lemma BindRequestDone(ps: seq<Pair>, srcCap: nat, dstCap: nat, r: Request)
    ensures BindDone(ps, srcCap, dstCap, r, BindStatus(ps, srcCap, dstCap, r), Bound(ps, srcCap, dstCap, r))
  {
  }

  /** Every pair p is gone, and all others are there as often as before. */
  ghost predicate Removed(ps: seq<Pair>, p: Pair, after: seq<Pair>) {
    after == WithoutPair(ps, p) && p !in after && forall q :: q != p ==> multiset(after)[q] == multiset(ps)[q]
  }

  /** What an unbind request does to them. */
  ghost predicate UnbindDone(ps: seq<Pair>, r: Request, status: Status, after: seq<Pair>) {
    if r.srcRef.None? then status == IllegalRequest && after == ps
    else
      var key := SrcRow(r.srcRef.value, r.srcEndpoint, r.cluster);
      if forall i :: 0 <= i < |ps| ==> ps[i].key != key then status == InvalidBinding && after == ps
      else if r.mode == 1 then status == Ok && Removed(ps, Pair(key, Group(r.group)), after)
      else if r.mode != 3 then status == InvalidBinding && after == ps
      else if r.dstRef.None? then status == AddressError && after == ps
      else status == Ok && Removed(ps, Pair(key, Long(r.dstRef.value, r.dstEndpoint)), after)
  }

  lemma UnbindRequestDone(ps: seq<Pair>, r: Request)
    ensures UnbindDone(ps, r, UnbindStatus(ps, r), Unbound(ps, r))
  {
    if UnbindStatus(ps, r) == Ok {
      var p := Pair(KeyOf(r), TargetOf(r));
      assert Unbound(ps, r) == WithoutPair(ps, p);
      assert Removed(ps, p, Unbound(ps, r));
    }
  }

  /** Pairs are removed one by one, and those left keep their order. */
  lemma {:induction false} RemovedByParts(ps: seq<Pair>, rest: seq<Pair>, p: Pair)
    ensures WithoutPair(ps + rest, p) == WithoutPair(ps, p) + WithoutPair(rest, p)
    ensures |ps| == 1 ==> WithoutPair(ps, p) == if ps[0] == p then [] else ps
  {
    if ps == [] {
      assert ps + rest == rest;
    } else {
      assert (ps + rest)[1..] == ps[1..] + rest;
      RemovedByParts(ps[1..], rest, p);
    }
  }

  // ---------- The two row tables ----------

  ghost predicate Pointing(src: seq<SrcRow>, dst: seq<DstRow>) {
    forall d :: 0 <= d < |dst| ==> dst[d].src < |src|
  }

  predicate Refers(dst: seq<DstRow>, s: nat) {
    exists d :: 0 <= d < |dst| && dst[d].src == s
  }

  /** Source keys are unique, indices are valid, and no source row is without a destination. */
  ghost predicate Consistent(src: seq<SrcRow>, dst: seq<DstRow>) {
    && Distinct(src)
    && Pointing(src, dst)
    && (forall s: nat :: s < |src| ==> Refers(dst, s))
  }

  ghost function PairsOf(src: seq<SrcRow>, dst: seq<DstRow>): (ps: seq<Pair>)
    requires Pointing(src, dst)
    ensures |ps| == |dst|
  {
    seq(|dst|, d requires 0 <= d < |dst| => Pair(src[dst[d].src], dst[d].target))
  }

  /** The source rows are exactly the keys in use. */
  lemma KeysAreRows(src: seq<SrcRow>, dst: seq<DstRow>)
    requires Consistent(src, dst)
    ensures Keys(PairsOf(src, dst)) == Elements(src)
    ensures |Keys(PairsOf(src, dst))| == |src|
  {
    var ps := PairsOf(src, dst);
    forall k | k in Elements(src) ensures k in Keys(ps) {
      var s: nat :| s < |src| && src[s] == k;
      assert Refers(dst, s);
      var d :| 0 <= d < |dst| && dst[d].src == s;
      assert ps[d].key == k;
    }
    DistinctCardinality(src);
  }

  lemma BindAppends(src: seq<SrcRow>, dst: seq<DstRow>, key: SrcRow, t: Target, s: nat)
    requires Consistent(src, dst)
    requires if key in src then s < |src| && src[s] == key else s == |src|
    ensures var src' := if s == |src| then src + [key] else src;
            var dst' := dst + [DstRow(t, s)];
            Consistent(src', dst') && PairsOf(src', dst') == PairsOf(src, dst) + [Pair(key, t)]
  {
    var src' := if s == |src| then src + [key] else src;
    var dst' := dst + [DstRow(t, s)];
    forall i: nat | i < |src'| ensures Refers(dst', i) {
      if i < |src| {
        assert Refers(dst, i);
        var d :| 0 <= d < |dst| && dst[d].src == i;
        assert dst'[d].src == i;
      } else {
        assert dst'[|dst|].src == i;
      }
    }
    assert PairsOf(src', dst') == PairsOf(src, dst) + [Pair(key, t)];
  }

  /** Destination rows other than those of source row s with target t. */
  function OtherRows(dst: seq<DstRow>, s: nat, t: Target): (r: seq<DstRow>)
    ensures |r| <= |dst|
    ensures forall d :: d in r ==> d in dst
  {
    if dst == [] then []
    else if dst[0] == DstRow(t, s) then OtherRows(dst[1..], s, t)
    else [dst[0]] + OtherRows(dst[1..], s, t)
  }

  lemma OtherRowsPoint(src: seq<SrcRow>, dst: seq<DstRow>, s: nat, t: Target)
    requires Pointing(src, dst)
    ensures Pointing(src, OtherRows(dst, s, t))
  {
    var r := OtherRows(dst, s, t);
    forall d | 0 <= d < |r| ensures r[d].src < |src| {
      assert r[d] in dst;
    }
  }

  /** Removing rows removes exactly the equal pairs, because source keys are unique. */
  lemma {:induction false} OtherRowsPairs(src: seq<SrcRow>, dst: seq<DstRow>, s: nat, t: Target)
    requires Distinct(src) && Pointing(src, dst) && s < |src|
    ensures Pointing(src, OtherRows(dst, s, t))
    ensures PairsOf(src, OtherRows(dst, s, t)) == WithoutPair(PairsOf(src, dst), Pair(src[s], t))
  {
    OtherRowsPoint(src, dst, s, t);
    if dst != [] {
      OtherRowsPairs(src, dst[1..], s, t);
      var ps := PairsOf(src, dst);
      assert ps[1..] == PairsOf(src, dst[1..]);
      assert ps[0] == Pair(src[s], t) <==> dst[0] == DstRow(t, s);
      if dst[0] != DstRow(t, s) {
        assert PairsOf(src, OtherRows(dst, s, t))
            == [ps[0]] + PairsOf(src, OtherRows(dst[1..], s, t));
      }
    }
  }

  /** Rows of other sources survive the removal. */
  lemma {:induction false} OtherSourcesStay(dst: seq<DstRow>, s: nat, t: Target, i: nat)
    requires i != s && Refers(dst, i)
    ensures Refers(OtherRows(dst, s, t), i)
  {
    var r := OtherRows(dst[1..], s, t);
    if dst[0].src == i {
      assert OtherRows(dst, s, t)[0].src == i;
    } else {
      var d :| 0 <= d < |dst| && dst[d].src == i;
      assert dst[1..][d - 1].src == i;
      OtherSourcesStay(dst[1..], s, t, i);
      var e :| 0 <= e < |r| && r[e].src == i;
      assert OtherRows(dst, s, t)[if dst[0] == DstRow(t, s) then e else e + 1].src == i;
    }
  }

  function Lowered(d: DstRow, s: nat): DstRow {
    if d.src > s then d.(src := d.src - 1) else d
  }

  /** Destination rows re-indexed after source row s has been taken out. */
  function LoweredRows(dst: seq<DstRow>, s: nat): (r: seq<DstRow>)
    ensures |r| == |dst|
  {
    seq(|dst|, d requires 0 <= d < |dst| => Lowered(dst[d], s))
  }

  /** Dropping an unreferenced source row and re-indexing changes no pair. */
  lemma DropRow(src: seq<SrcRow>, dst: seq<DstRow>, s: nat)
    requires Distinct(src) && Pointing(src, dst) && s < |src| && !Refers(dst, s)
    requires forall i: nat :: i < |src| && i != s ==> Refers(dst, i)
    ensures var src' := src[..s] + src[s + 1..];
            Consistent(src', LoweredRows(dst, s))
            && PairsOf(src', LoweredRows(dst, s)) == PairsOf(src, dst)
  {
    var src', dst' := src[..s] + src[s + 1..], LoweredRows(dst, s);
    forall d | 0 <= d < |dst| ensures dst'[d].src < |src'| && src'[dst'[d].src] == src[dst[d].src] {
      assert dst[d].src != s;
    }
    forall i: nat | i < |src'| ensures Refers(dst', i) {
      var j := if i < s then i else i + 1;
      assert Refers(dst, j);
      var d :| 0 <= d < |dst| && dst[d].src == j;
      assert dst'[d].src == i;
    }
    assert PairsOf(src', dst') == PairsOf(src, dst);
  }

  /** The live rows after an unbind of target t from source row s. */
  function UnboundSrc(src: seq<SrcRow>, dst: seq<DstRow>, s: nat, t: Target): seq<SrcRow>
    requires s < |src|
  {
    if Refers(OtherRows(dst, s, t), s) then src else src[..s] + src[s + 1..]
  }

  function UnboundDst(dst: seq<DstRow>, s: nat, t: Target): seq<DstRow> {
    var r := OtherRows(dst, s, t);
    if Refers(r, s) then r else LoweredRows(r, s)
  }

  lemma UnbindRemoves(src: seq<SrcRow>, dst: seq<DstRow>, s: nat, t: Target)
    requires Consistent(src, dst) && s < |src|
    ensures var src', dst' := UnboundSrc(src, dst, s, t), UnboundDst(dst, s, t);
            Consistent(src', dst')
            && PairsOf(src', dst') == WithoutPair(PairsOf(src, dst), Pair(src[s], t))
  {
    var r := OtherRows(dst, s, t);
    OtherRowsPairs(src, dst, s, t);
    forall i: nat | i < |src| && i != s ensures Refers(r, i) {
      assert Refers(dst, i);
      OtherSourcesStay(dst, s, t, i);
    }
    if !Refers(r, s) {
      DropRow(src, r, s);
    }
  }

  /** Binding a pair that was absent and then unbinding it gives back the same list. */
  lemma BindThenUnbind(ps: seq<Pair>, srcCap: nat, dstCap: nat, r: Request)
    requires BindStatus(ps, srcCap, dstCap, r) == Ok
    requires Pair(KeyOf(r), TargetOf(r)) !in ps
    ensures UnbindStatus(Bound(ps, srcCap, dstCap, r), r) == Ok
    ensures Unbound(Bound(ps, srcCap, dstCap, r), r) == ps
  {
    var p := Pair(KeyOf(r), TargetOf(r));
    var qs := Bound(ps, srcCap, dstCap, r);
    assert qs[|ps|].key == KeyOf(r);
    RemoveLast(ps, p);
  }

  lemma {:induction false} RemoveLast(ps: seq<Pair>, p: Pair)
    requires p !in ps
    ensures WithoutPair(ps + [p], p) == ps
  {
    if ps != [] {
      assert (ps + [p])[1..] == ps[1..] + [p];
      RemoveLast(ps[1..], p);
    }
  }
}
