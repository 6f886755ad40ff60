/** The manufacturer dictionary of zb_address.c: 8-byte addresses are stored as a dictionary
    index for their first three bytes plus the last five. */
module Manufacturers {
  import opened Prelude
  import opened AddressModel

  type Prefix = s: seq<U8> | |s| == 3 witness [0, 0, 0]
  type LongAddress = s: seq<U8> | |s| == 8 witness [0, 0, 0, 0, 0, 0, 0, 0]

  /** A dictionary slot is unused or holds a prefix. Slot numbers must fit a byte. */
  type Dictionary = d: seq<Option<Prefix>> | |d| <= 256 witness []

  function PrefixOf(a: LongAddress): Prefix { a[..3] }

  function DeviceOf(a: LongAddress): DeviceId { a[3..] }

  /** The slot holding a prefix. */
  function Find(d: Dictionary, p: Prefix, from: nat): (r: Option<nat>)
    requires from <= |d|
    ensures r.Some? ==> from <= r.value < |d| && d[r.value] == Some(p)
    ensures r.None? ==> forall i :: from <= i < |d| ==> d[i] != Some(p)
    decreases |d| - from
  {
    if from == |d| then None
    else if d[from] == Some(p) then Some(from)
    else Find(d, p, from + 1)
  }

  /** The last unused slot among the first n: the scan keeps overwriting its candidate. */
  function LastFree(d: Dictionary, n: nat): (r: Option<nat>)
    requires n <= |d|
    ensures r.Some? ==> r.value < n && d[r.value] == None
    ensures r.None? ==> forall i :: 0 <= i < n ==> d[i] != None
  {
    if n == 0 then None
    else if d[n - 1] == None then Some(n - 1)
    else LastFree(d, n - 1)
  }

  datatype Outcome = Outcome(dict: Dictionary, code: Option<Compressed>)

  /** zb_ieee_addr_compress. Without a code the source stops on an assertion. */
  function Compress(d: Dictionary, a: LongAddress): (o: Outcome)
    ensures |o.dict| == |d|
  {
    var f := Find(d, PrefixOf(a), 0);
    var i := if f.Some? then f else LastFree(d, |d|);
    if i.None? then Outcome(d, None)
    else Outcome(d[i.value := Some(PrefixOf(a))], Some(Compressed(i.value, DeviceOf(a))))
  }

  predicate Decodable(d: Dictionary, c: Compressed) {
    c.manufacturer < |d| && d[c.manufacturer].Some?
  }

  /** ZB_ADDRESS_DECOMPRESS. */
  function Decompress(d: Dictionary, c: Compressed): LongAddress
    requires Decodable(d, c)
  {
    d[c.manufacturer].value + c.device
  }

  /** Compress a list of addresses one after the other. */
  function CompressAll(d: Dictionary, addrs: seq<LongAddress>): (d': Dictionary)
    ensures |d'| == |d|
    decreases |addrs|
  {
    if addrs == [] then d else CompressAll(Compress(d, addrs[0]).dict, addrs[1..])
  }

  /** Prefixes once entered stay where they are. */
  ghost predicate Extends(d: Dictionary, d': Dictionary) {
    |d| == |d'| && forall i :: 0 <= i < |d| && d[i].Some? ==> d'[i] == d[i]
  }

  ghost predicate NoRepeats(d: Dictionary) {
    forall i, j :: 0 <= i < j < |d| && d[i].Some? ==> d[i] != d[j]
  }

  lemma CompressKeepsNoRepeats(d: Dictionary, a: LongAddress)
    requires NoRepeats(d)
    ensures NoRepeats(Compress(d, a).dict)
  {
  }

  lemma {:induction false} RunExtends(d: Dictionary, addrs: seq<LongAddress>)
    ensures Extends(d, CompressAll(d, addrs))
    ensures NoRepeats(d) ==> NoRepeats(CompressAll(d, addrs))
    decreases |addrs|
  {
    if addrs != [] {
      RunExtends(Compress(d, addrs[0]).dict, addrs[1..]);
    }
  }

  /** Decompression undoes compression, now and after any further compressions. */
  lemma RoundTripForever(d: Dictionary, a: LongAddress, later: seq<LongAddress>)
    requires Compress(d, a).code.Some?
    ensures var o := Compress(d, a);
            var d' := CompressAll(o.dict, later);
            Decodable(d', o.code.value) && Decompress(d', o.code.value) == a
  {
    RunExtends(Compress(d, a).dict, later);
    assert a == a[..3] + a[3..];
  }

  /** Two addresses, compressed at any two moments of a run, get equal codes iff they are equal:
      comparing compressed addresses is comparing addresses. */
  lemma EqualCodesIff(d: Dictionary, a: LongAddress, between: seq<LongAddress>, b: LongAddress)
    requires NoRepeats(d)
    requires var o := Compress(d, a);
             o.code.Some? && Compress(CompressAll(o.dict, between), b).code.Some?
    ensures var o := Compress(d, a);
            o.code == Compress(CompressAll(o.dict, between), b).code <==> a == b
  {
    var o := Compress(d, a);
    var d' := CompressAll(o.dict, between);
    CompressKeepsNoRepeats(d, a);
    RunExtends(o.dict, between);
    RoundTripForever(d, a, between + [b]);
    RoundTripForever(d', b, []);
    RunSplits(o.dict, between, b);
    if a == b {
      var i := o.code.value.manufacturer;
      assert d'[i] == Some(PrefixOf(a));
    }
  }

  lemma {:induction false} RunSplits(d: Dictionary, addrs: seq<LongAddress>, b: LongAddress)
    ensures CompressAll(d, addrs + [b]) == Compress(CompressAll(d, addrs), b).dict
    decreases |addrs|
  {
    if addrs == [] {
      assert [b][1..] == [];
      assert CompressAll(Compress(d, b).dict, []) == Compress(d, b).dict;
    } else {
      assert (addrs + [b])[1..] == addrs[1..] + [b];
      RunSplits(Compress(d, addrs[0]).dict, addrs[1..], b);
    }
  }

  /** Exactly when the source's assertion fires: every slot is taken by another prefix. */
  lemma CompressFailsIff(d: Dictionary, a: LongAddress)
    ensures Compress(d, a).code.None? <==>
            forall i :: 0 <= i < |d| ==> d[i].Some? && d[i].value != PrefixOf(a)
  {
    if Compress(d, a).code.Some? {
      var i := Compress(d, a).code.value.manufacturer;
      assert d[i] == None || d[i] == Some(PrefixOf(a));
    }
  }

  /** Which slot an address gets: that of its prefix, with the dictionary as it was, or else the last unused
      one, which then holds the first three octets; the other five go along. */
  lemma CompressTakesLastFree(d: Dictionary, a: LongAddress)
    requires Compress(d, a).code.Some?
    ensures var o := Compress(d, a); var i := o.code.value.manufacturer;
      && i < |d| && o.code.value.device == a[3..] && o.dict == d[i := Some(a[..3])]
      && (if Some(a[..3]) in d then o.dict == d else d[i] == None && forall j :: i < j < |d| ==> d[j] != None)
  {
    if Find(d, PrefixOf(a), 0).None? {
      LastFreeIsLast(d, |d|);
    } else {
      assert d[Compress(d, a).code.value.manufacturer] == Some(PrefixOf(a));
    }
  }

  lemma {:induction false} LastFreeIsLast(d: Dictionary, n: nat)
    requires n <= |d| && LastFree(d, n).Some?
    ensures forall j :: LastFree(d, n).value < j < n ==> d[j] != None
  {
    if n > 0 && d[n - 1] != None {
      LastFreeIsLast(d, n - 1);
    }
  }

  ghost function Held(d: Dictionary): set<Prefix> {
    set i | 0 <= i < |d| && d[i].Some? :: d[i].value
  }

  ghost function PrefixesOf(addrs: seq<LongAddress>): set<Prefix> {
    set a | a in addrs :: PrefixOf(a)
  }

  function EmptyDictionary(n: nat): (d: Dictionary)
    requires n <= 256
  {
    seq(n, _ => None)
  }

  /** A dictionary with no free slot and no repeats holds as many prefixes as it has slots. */
  lemma FullDictionaryCount(d: Dictionary)
    requires NoRepeats(d) && forall i :: 0 <= i < |d| ==> d[i].Some?
    ensures |Held(d)| == |d|
  {
    var ps := seq(|d|, i requires 0 <= i < |d| => d[i].value);
    assert Distinct(ps) by {
      forall i, j | 0 <= i < j < |ps| ensures ps[i] != ps[j] {
        assert d[i] != d[j];
      }
    }
    DistinctCardinality(ps);
    forall p | p in Elements(ps) ensures p in Held(d) {
      var i :| 0 <= i < |ps| && ps[i] == p;
    }
    forall p | p in Held(d) ensures p in Elements(ps) {
      var i :| 0 <= i < |d| && d[i].Some? && d[i].value == p;
      assert ps[i] == p;
    }
    assert Elements(ps) == Held(d);
  }

  lemma PrefixesGrow(addrs: seq<LongAddress>, a: LongAddress)
    ensures PrefixesOf(addrs + [a]) == PrefixesOf(addrs) + {PrefixOf(a)}
  {
    forall p | p in PrefixesOf(addrs) + {PrefixOf(a)} ensures p in PrefixesOf(addrs + [a]) {
      var b :| b in addrs + [a] && PrefixOf(b) == p;
    }
  }

  lemma CompressHolds(d: Dictionary, a: LongAddress)
    requires Compress(d, a).code.Some?
    ensures Held(Compress(d, a).dict) == Held(d) + {PrefixOf(a)}
  {
    var d', k := Compress(d, a).dict, Compress(d, a).code.value.manufacturer;
    assert d'[k].value == PrefixOf(a);
    forall p | p in Held(d) ensures p in Held(d') {
      var i :| 0 <= i < |d| && d[i].Some? && d[i].value == p;
      assert d'[i] == d[i];
    }
  }

  /** The dictionary suffices for any run, in any order and with any repetitions, over at most as
      many manufacturers as it has slots: no compression in the run ever fails, and what is held is
      exactly what was seen. */
  lemma {:induction false} RunNeverFails(d: Dictionary, addrs: seq<LongAddress>, k: nat)
    requires NoRepeats(d) && k <= |addrs|
    requires |Held(d) + PrefixesOf(addrs)| <= |d|
    ensures Held(CompressAll(d, addrs[..k])) == Held(d) + PrefixesOf(addrs[..k])
    ensures k < |addrs| ==> Compress(CompressAll(d, addrs[..k]), addrs[k]).code.Some?
    decreases k
  {
    if k == 0 {
      assert addrs[..0] == [];
    } else {
      RunNeverFails(d, addrs, k - 1);
      var before, next := addrs[..k - 1], addrs[k - 1];
      assert addrs[..k] == before + [next];
      RunSplits(d, before, next);
      CompressHolds(CompressAll(d, before), next);
      PrefixesGrow(before, next);
    }
    if k < |addrs| {
      RunExtends(d, addrs[..k]);
      RoomForNext(d, CompressAll(d, addrs[..k]), addrs, k);
    }
  }

  lemma RoomForNext(d: Dictionary, d': Dictionary, addrs: seq<LongAddress>, k: nat)
    requires k < |addrs| && |d| == |d'| && NoRepeats(d')
    requires |Held(d) + PrefixesOf(addrs)| <= |d|
    requires Held(d') == Held(d) + PrefixesOf(addrs[..k])
    ensures Compress(d', addrs[k]).code.Some?
  {
    var p := PrefixOf(addrs[k]);
    assert p in PrefixesOf(addrs);
    if Compress(d', addrs[k]).code.None? {
      CompressFailsIff(d', addrs[k]);
      FullDictionaryCount(d');
      assert p !in Held(d');
      assert Held(d') + {p} <= Held(d) + PrefixesOf(addrs);
      SubsetCardinality(Held(d') + {p}, Held(d) + PrefixesOf(addrs));
      assert false;
    }
  }

  /** From the empty table: at most n manufacturers in all never overflow an n-slot dictionary. */
  lemma FreshRunNeverFails(n: nat, addrs: seq<LongAddress>, k: nat)
    requires n <= 256 && k < |addrs| && |PrefixesOf(addrs)| <= n
    ensures Compress(CompressAll(EmptyDictionary(n), addrs[..k]), addrs[k]).code.Some?
  {
    var d := EmptyDictionary(n);
    assert Held(d) == {};
    assert Held(d) + PrefixesOf(addrs) == PrefixesOf(addrs);
    RunNeverFails(d, addrs, k);
  }

  /** used_manufacturer and dev_manufacturer. */
  class ManufacturerTable {
    const used: array<bool>
    const prefixes: array<Prefix>

    ghost predicate Valid()
      reads used, prefixes
    {
      used.Length == prefixes.Length <= 256
    }

    ghost function Dict(): (d: Dictionary)
      requires Valid()
      reads used, prefixes
    {
      seq(used.Length, i requires 0 <= i < used.Length reads used, prefixes requires Valid() =>
        if used[i] then Some(prefixes[i]) else None)
    }

    constructor (n: nat)
      requires n <= 256
      ensures Valid() && fresh(used) && fresh(prefixes) && Dict() == EmptyDictionary(n)
    {
      used := new bool[n](_ => false);
      prefixes := new Prefix[n](_ => [0, 0, 0]);
    }

    /** zb_ieee_addr_compress. */
    method CompressAddress(a: LongAddress) returns (c: Option<Compressed>)
      requires Valid()
      modifies used, prefixes
      ensures Valid() && Outcome(Dict(), c) == Compress(old(Dict()), a)
    {
      var n := used.Length;
      var freeI := n;
      var i := 0;
      while i < n && !(used[i] && prefixes[i] == PrefixOf(a))
        invariant i <= n && Valid()
        invariant forall j :: 0 <= j < i ==> Dict()[j] != Some(PrefixOf(a))
        invariant LastFree(Dict(), i) == if freeI == n then None else Some(freeI)
      {
        if !used[i] {
          freeI := i;
        }
        i := i + 1;
      }
      FirstFound(Dict(), PrefixOf(a), i);
      if i == n {
        i := freeI;
      }
      c := None;
      if i != n {
        ghost var d := Dict();
        used[i] := true;
        prefixes[i] := PrefixOf(a);
        assert Dict() == d[i := Some(PrefixOf(a))];
        c := Some(Compressed(i, DeviceOf(a)));
      }
    }

    /** zb_ieee_addr_decompress. */
    method DecompressAddress(c: Compressed) returns (a: LongAddress)
      requires Valid() && Decodable(Dict(), c)
      ensures a == Decompress(Dict(), c)
    {
      assert Dict()[c.manufacturer] == Some(prefixes[c.manufacturer]);
      a := prefixes[c.manufacturer] + c.device;
    }
  }

  lemma {:induction false} FirstFound(d: Dictionary, p: Prefix, i: nat)
    requires i <= |d| && forall j :: 0 <= j < i ==> d[j] != Some(p)
    requires i < |d| ==> d[i] == Some(p)
    ensures Find(d, p, 0) == if i < |d| then Some(i) else None
  {
    SkipTo(d, p, 0, i);
  }

  lemma {:induction false} SkipTo(d: Dictionary, p: Prefix, from: nat, i: nat)
    requires from <= i <= |d| && forall j :: from <= j < i ==> d[j] != Some(p)
    ensures Find(d, p, from) == Find(d, p, i)
    decreases i - from
  {
    if from < i {
      SkipTo(d, p, from + 1, i);
    }
  }
}
