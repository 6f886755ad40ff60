/** The address table as zb_address.c keeps it: entries and a sorted array of references,
    both edited in place. The sorted index is proved to agree with the plain map at all times. */
module AddressTables {
  import opened Prelude
  import opened AddressModel
  import Memory

  // ---------- The sorted index, as a property of plain sequences ----------

  predicate OutOfOrder(m: seq<Entry>, s: seq<nat>, j: nat, k: nat) {
    j < k < |s| && s[j] < |m| && s[k] < |m| && m[s[j]].addr >= m[s[k]].addr
  }

  /** s lists references of used entries, in increasing order of short address. */
  ghost predicate OrderedRefs(m: seq<Entry>, s: seq<nat>) {
    && (forall k :: 0 <= k < |s| ==> s[k] < |m| && m[s[k]].used && m[s[k]].addr != NO_SHORT)
    && (forall j, k :: !OutOfOrder(m, s, j, k))
  }

  /** The order of the index around one of its positions. */
  lemma OrderAround(m: seq<Entry>, s: seq<nat>, i: nat)
    requires OrderedRefs(m, s) && i < |s|
    ensures forall k :: 0 <= k < i ==> m[s[k]].addr < m[s[i]].addr
    ensures forall k :: i < k < |s| ==> m[s[i]].addr < m[s[k]].addr
  {
    forall k | 0 <= k < i ensures m[s[k]].addr < m[s[i]].addr {
      assert !OutOfOrder(m, s, k, i);
    }
    forall k | i < k < |s| ensures m[s[i]].addr < m[s[k]].addr {
      assert !OutOfOrder(m, s, i, k);
    }
  }

  /** It depends on the listed entries only. */
  lemma OrderKept(m: seq<Entry>, after: seq<Entry>, s: seq<nat>)
    requires OrderedRefs(m, s) && |after| == |m|
    requires forall k :: 0 <= k < |s| ==> after[s[k]].used && after[s[k]].addr == m[s[k]].addr
    ensures OrderedRefs(after, s)
  {
    forall j, k ensures !OutOfOrder(after, s, j, k) {
      assert !OutOfOrder(m, s, j, k);
    }
  }

  /** s is exactly the sorted index of m: strictly increasing, and complete. */
  ghost predicate Indexed(m: seq<Entry>, s: seq<nat>) {
    && OrderedRefs(m, s)
    && (forall r: nat {:trigger r in s} :: r < |m| && m[r].used && m[r].addr != NO_SHORT ==> r in s)
  }

  /** s is the sorted index of m with reference `skip` left out. */
  ghost predicate IndexedBut(m: seq<Entry>, s: seq<nat>, skip: nat) {
    && OrderedRefs(m, s)
    && skip !in s
    && (forall r: nat {:trigger r in s} :: r < |m| && r != skip && m[r].used && m[r].addr != NO_SHORT ==> r in s)
  }

  lemma OrderedIsDistinct(m: seq<Entry>, s: seq<nat>)
    requires OrderedRefs(m, s)
    ensures Distinct(s)
  {
    forall j, k | 0 <= j < k < |s| ensures s[j] != s[k] {
      assert !OutOfOrder(m, s, j, k);
    }
  }

  lemma ListedAddressesDiffer(m: seq<Entry>, s: seq<nat>, i: nat, j: nat)
    requires OrderedRefs(m, s) && (SameShort(m, i, j) ==> i in s && j in s)
    ensures !SameShort(m, i, j)
  {
    if i in s && j in s && i != j {
      var p :| 0 <= p < |s| && s[p] == i;
      var q :| 0 <= q < |s| && s[q] == j;
      OrderAround(m, s, p);
      assert m[s[p]].addr != m[s[q]].addr;
    }
  }

  /** A complete strict index means short addresses are unique, and conversely there is only
      one such index: it is a function of the map. */
  lemma IndexedIsUniqueShort(m: seq<Entry>, s: seq<nat>)
    requires Indexed(m, s)
    ensures UniqueShort(m)
    ensures Distinct(s) && |s| <= |m|
  {
    forall i, j ensures !SameShort(m, i, j) {
      assert SameShort(m, i, j) ==> i in s && j in s;
      assert !SameShort(m, i, j) by { ListedAddressesDiffer(m, s, i, j); }
    }
    OrderedIsDistinct(m, s);
    Pigeonhole(s, |m|);
  }

  lemma {:induction false} IndexIsDetermined(m: seq<Entry>, s: seq<nat>, t: seq<nat>)
    requires Indexed(m, s) && Indexed(m, t)
    ensures s == t
  {
    IndexedIsUniqueShort(m, s);
    IndexedIsUniqueShort(m, t);
    assert Elements(s) == Elements(t);
    DistinctCardinality(s);
    DistinctCardinality(t);
    for k := 0 to |s|
      invariant s[..k] == t[..k]
    {
      LaterInIndex(m, s, t, k);
      LaterInIndex(m, t, s, k);
      assert s[..k + 1] == s[..k] + [s[k]] && t[..k + 1] == t[..k] + [t[k]];
    }
    assert s == s[..|s|] && t == t[..|t|];
  }

  /** After a common prefix, the k-th reference of one index is not before that of the other. */
  lemma LaterInIndex(m: seq<Entry>, s: seq<nat>, t: seq<nat>, k: nat)
    requires Indexed(m, s) && Indexed(m, t) && k < |s| && k < |t|
    requires s[..k] == t[..k]
    ensures m[t[k]].addr <= m[s[k]].addr
    ensures m[t[k]].addr == m[s[k]].addr ==> t[k] == s[k]
  {
    IndexedIsUniqueShort(m, s);
    assert s[k] in t;
    var i :| 0 <= i < |t| && t[i] == s[k];
    OrderAround(m, t, k);
    forall j | 0 <= j < k ensures t[j] != s[k] {
      assert t[j] == t[..k][j] == s[..k][j] == s[j];
    }
  }

  /** Any position that excludes all others decides the lookup. */
  lemma IndexDecidesLookup(m: seq<Entry>, s: seq<nat>, a: U16, l: nat)
    requires Indexed(m, s)
    requires forall k :: 0 <= k < |s| && k != l ==> m[s[k]].addr != a
    ensures FindShort(m, a) == if l < |s| && m[s[l]].addr == a then Some(s[l]) else None
  {
    IndexedIsUniqueShort(m, s);
    if l < |s| && m[s[l]].addr == a {
      FindShortIs(m, s[l], a);
    } else {
      forall r: nat | r < |m| && m[r].used && m[r].addr != NO_SHORT ensures m[r].addr != a {
        assert r in s;
        var k :| 0 <= k < |s| && s[k] == r;
      }
    }
  }

  /** The references before position l have addresses below a; those from l on do not. */
  ghost predicate AllBelow(m: seq<Entry>, s: seq<nat>, l: nat, a: int) {
    forall k :: 0 <= k < l && k < |s| && s[k] < |m| ==> m[s[k]].addr < a
  }

  ghost predicate NoneBelow(m: seq<Entry>, s: seq<nat>, l: nat, a: int) {
    forall k :: l <= k < |s| && s[k] < |m| ==> a <= m[s[k]].addr
  }

  /** One look of a binary search. */
  lemma BelowUpTo(m: seq<Entry>, s: seq<nat>, i: nat, a: int)
    requires OrderedRefs(m, s) && i < |s|
    ensures m[s[i]].addr < a ==> AllBelow(m, s, i + 1, a)
    ensures a <= m[s[i]].addr ==> NoneBelow(m, s, i, a)
  {
    OrderAround(m, s, i);
  }

  /** A binary search that ended at l, or an index of one reference with l at 0, decides the lookup. */
  lemma PositionDecides(m: seq<Entry>, s: seq<nat>, a: U16, l: nat)
    requires Indexed(m, s) && l <= |s|
    requires |s| > 1 ==> AllBelow(m, s, l, a) && NoneBelow(m, s, l, a)
    requires |s| <= 1 ==> l == 0
    ensures FindShort(m, a) == if l < |s| && m[s[l]].addr == a then Some(s[l]) else None
  {
    if l < |s| {
      OrderAround(m, s, l);
    }
    IndexDecidesLookup(m, s, a, l);
  }

  lemma InsertCompletesIndex(m: seq<Entry>, s: seq<nat>, r: nat, l: nat)
    requires r < |m| && IndexedBut(m, s, r) && l <= |s|
    requires m[r].used && m[r].addr != NO_SHORT
    requires AllBelow(m, s, l, m[r].addr) && NoneBelow(m, s, l, m[r].addr + 1)
    ensures Indexed(m, Spliced(s, l, r))
  {
    SplicedIsOrdered(m, s, r, l);
    forall q: nat | q < |m| && m[q].used && m[q].addr != NO_SHORT ensures q in Spliced(s, l, r) {
      assert q in s || q == r;
      InsertedMembers(s, r, l, q);
    }
  }

  lemma SplicedIsOrdered(m: seq<Entry>, s: seq<nat>, r: nat, l: nat)
    requires r < |m| && m[r].used && m[r].addr != NO_SHORT && OrderedRefs(m, s) && l <= |s|
    requires AllBelow(m, s, l, m[r].addr) && NoneBelow(m, s, l, m[r].addr + 1)
    ensures OrderedRefs(m, Spliced(s, l, r))
  {
    var t := Spliced(s, l, r);
    SplicedAt(s, l, r, t);
    forall j: nat, k: nat ensures !OutOfOrder(m, t, j, k) {
      SplicedInOrder(m, s, r, l, j, k);
    }
  }

  lemma SplicedInOrder(m: seq<Entry>, s: seq<nat>, r: nat, l: nat, j: nat, k: nat)
    requires r < |m| && OrderedRefs(m, s) && l <= |s|
    requires AllBelow(m, s, l, m[r].addr) && NoneBelow(m, s, l, m[r].addr + 1)
    ensures !OutOfOrder(m, Spliced(s, l, r), j, k)
  {
    var t := Spliced(s, l, r);
    if j < k < |t| {
      assert t[j] == if j < l then s[j] else if j == l then r else s[j - 1];
      assert t[k] == if k < l then s[k] else if k == l then r else s[k - 1];
      if j != l && k != l {
        assert !OutOfOrder(m, s, if j < l then j else j - 1, if k < l then k else k - 1);
      }
    }
  }

  lemma InsertedMembers(s: seq<nat>, r: nat, l: nat, q: nat)
    requires l <= |s| && (q == r || q in s)
    ensures q in Spliced(s, l, r)
  {
    SplicedAt(s, l, r, Spliced(s, l, r));
    if q == r {
      assert Spliced(s, l, r)[l] == q;
    } else {
      var k :| 0 <= k < |s| && s[k] == q;
      assert Spliced(s, l, r)[if k < l then k else k + 1] == q;
    }
  }

  /** First position of x in s. */
  function IndexOf(s: seq<nat>, x: nat): (k: nat)
    requires x in s
    ensures k < |s| && s[k] == x && x !in s[..k]
  {
    if s[0] == x then 0 else 1 + IndexOf(s[1..], x)
  }

  /** s with the first x taken out. */
  function Without(s: seq<nat>, x: nat): seq<nat> {
    if x in s then Cut(s, IndexOf(s, x)) else s
  }

  /** s with the hole at i closed and the last element left standing twice. */
  function Shifted(s: seq<nat>, i: nat): seq<nat>
    requires i < |s|
  {
    s[..i] + s[i + 1..] + [s[|s| - 1]]
  }

  /** Has a scan of the first i positions met x? */
  predicate Met(s: seq<nat>, x: nat, i: nat) {
    x in s && IndexOf(s, x) < i
  }

  /** The array after a deletion scan has looked at its first i positions. */
  function Compacted(s: seq<nat>, x: nat, i: nat): (t: seq<nat>)
    ensures |t| == |s|
  {
    if Met(s, x, i) then Shifted(s, IndexOf(s, x)) else s
  }

  lemma CompactionStep(s: seq<nat>, x: nat, i: nat)
    requires Distinct(s) && i < |s|
    ensures Met(s, x, i + 1) <==> Met(s, x, i) || s[i] == x
    ensures Compacted(s, x, i)[i] == x <==> s[i] == x
    ensures s[i] == x ==> !Met(s, x, i) && Compacted(s, x, i + 1) == Shifted(s, i)
  {
    if s[i] == x {
      assert IndexOf(s, x) == i;
    }
  }

  lemma CompactionEnd(s: seq<nat>, x: nat)
    ensures Met(s, x, |s|) <==> x in s
    ensures Without(s, x) == Compacted(s, x, |s|)[..|s| - (if Met(s, x, |s|) then 1 else 0)]
  {
  }

  lemma WithoutMembers(s: seq<nat>, x: nat)
    requires Distinct(s)
    ensures forall q :: q in Without(s, x) <==> q in s && q != x
  {
    if x in s {
      CutMembers(s, IndexOf(s, x));
    }
  }

  lemma CutMembers(s: seq<nat>, i: nat)
    requires Distinct(s) && i < |s|
    ensures forall q :: q in Cut(s, i) <==> q in s && q != s[i]
  {
    CutAt(s, i, Cut(s, i));
    assert s == s[..i] + [s[i]] + s[i + 1..];
  }

  lemma RemovalSkipsRef(m: seq<Entry>, s: seq<nat>, r: nat)
    requires Indexed(m, s)
    ensures IndexedBut(m, Without(s, r), r)
  {
    IndexedIsUniqueShort(m, s);
    WithoutMembers(s, r);
    if r in s {
      CutKeepsOrder(m, s, IndexOf(s, r));
    }
  }

  lemma CutKeepsOrder(m: seq<Entry>, s: seq<nat>, i: nat)
    requires OrderedRefs(m, s) && i < |s|
    ensures OrderedRefs(m, Cut(s, i))
  {
    var t := Cut(s, i);
    CutAt(s, i, t);
    forall j: nat, k: nat ensures !OutOfOrder(m, t, j, k) {
      assert !OutOfOrder(m, s, if j < i then j else j + 1, if k < i then k else k + 1);
    }
  }

  ghost function UsedSlots(m: seq<Entry>): set<nat> {
    set i: nat | i < |m| && m[i].used
  }

  /** The used slots in a range, as a scan has counted them. */
  ghost function UsedBetween(m: seq<Entry>, lo: nat, hi: nat): set<nat> {
    set i: nat | lo <= i < hi && i < |m| && m[i].used
  }

  lemma UsedBetweenStep(m: seq<Entry>, lo: nat, hi: nat)
    requires lo <= hi < |m|
    ensures UsedBetween(m, lo, hi + 1) == UsedBetween(m, lo, hi) + (if m[hi].used then {hi} else {})
    ensures |UsedBetween(m, lo, hi + 1)| == |UsedBetween(m, lo, hi)| + (if m[hi].used then 1 else 0)
  {
    assert UsedBetween(m, lo, hi + 1) == UsedBetween(m, lo, hi) + (if m[hi].used then {hi} else {});
  }

  /** A scan that has counted as many used slots as exist has seen all of them. */
  lemma AllUsedSeen(m: seq<Entry>, seen: set<nat>)
    requires seen <= UsedSlots(m) && |seen| >= |UsedSlots(m)|
    ensures seen == UsedSlots(m)
  {
    SubsetCardinality(seen, UsedSlots(m));
  }

  /** A probe may skip slots already known not to qualify. */
  lemma {:induction false} ProbeSkips(m: seq<Entry>, g: Goal, h: nat, k: nat)
    requires h < |m| && k <= |m|
    requires forall j :: 0 <= j < k ==> !Meets(m[ProbeAt(|m|, h, j)], g)
    ensures Probe(m, g, h, 0) == Probe(m, g, h, k)
  {
    if k > 0 {
      ProbeSkips(m, g, h, k - 1);
    }
  }

  /** The index a probe moves to next: (i + 1) % size. */
  lemma ProbeAdvances(n: nat, h: nat, k: nat)
    requires h < n && k + 1 < n
    ensures (ProbeAt(n, h, k) + 1) % n == ProbeAt(n, h, k + 1)
  {
    var i := ProbeAt(n, h, k);
    if i + 1 < n { assert (i + 1) % n == i + 1; } else { assert (i + 1) % n == 0; }
  }

  lemma ProbeWraps(n: nat, h: nat)
    requires h < n
    ensures (ProbeAt(n, h, n - 1) + 1) % n == h
  {
    var i := ProbeAt(n, h, n - 1);
    if h == 0 { assert i + 1 == n && n % n == 0; } else { assert i + 1 == h && h % n == h; }
  }

  lemma UsedAfterAdd(m: seq<Entry>, m': seq<Entry>, i: nat)
    requires i < |m| == |m'| && !m[i].used && m'[i].used
    requires forall j :: 0 <= j < |m| && j != i ==> m'[j].used == m[j].used
    ensures |UsedSlots(m')| == |UsedSlots(m)| + 1
  {
    assert UsedSlots(m') == UsedSlots(m) + {i};
  }

  lemma AddUsesOneMore(m: seq<Entry>, hand: nat, c: Option<Compressed>, a: U16)
    requires hand <= |m| && |m| > 0 && Add(m, hand, c, a).ref.Some?
    ensures |UsedSlots(Add(m, hand, c, a).map')| == |UsedSlots(m)| + 1
  {
    TickKeepsKeys(m, hand);
    UsedAfterAdd(m, Add(m, hand, c, a).map', Add(m, hand, c, a).ref.value);
  }

  lemma UsedAfterDelete(m: seq<Entry>, i: nat)
    requires i < |m| && m[i].used
    ensures |UsedSlots(Delete(m, i))| == |UsedSlots(m)| - 1
  {
    assert UsedSlots(m) == UsedSlots(Delete(m, i)) + {i};
  }

  lemma UsedUnchanged(m: seq<Entry>, m': seq<Entry>)
    requires |m| == |m'| && forall j :: 0 <= j < |m| ==> m'[j].used == m[j].used
    ensures UsedSlots(m') == UsedSlots(m)
  {
  }

  /** An index that leaves a slot out cannot fill the whole array. */
  lemma IndexHasRoom(m: seq<Entry>, s: seq<nat>, r: nat)
    requires r < |m| && IndexedBut(m, s, r)
    ensures |s| < |m|
  {
    OrderedIsDistinct(m, s);
    Pigeonhole(s + [r], |m|);
  }

  /** The entry an index leaves out may change freely. */
  lemma SkippedRefIsFree(m: seq<Entry>, s: seq<nat>, r: nat, e: Entry)
    requires r < |m| && IndexedBut(m, s, r)
    ensures IndexedBut(m[r := e], s, r)
  {
    assert forall k :: 0 <= k < |s| ==> s[k] != r;
    OrderKept(m, m[r := e], s);
  }

  /** Every slot the clock hand passed before e, starting at `hand` and wrapping, is not evictable. */
  lemma VictimIs(m: seq<Entry>, hand: nat, e: nat)
    requires hand <= |m| && e < |m| && Meets(m[e], Evictable)
    requires if e >= hand then forall i :: hand <= i < e ==> !Meets(m[i], Evictable)
             else (forall i :: hand <= i < |m| ==> !Meets(m[i], Evictable))
                  && (forall i :: 0 <= i < e ==> !Meets(m[i], Evictable))
    ensures Victim(m, hand) == Some(e)
  {
    var h := if hand == |m| then 0 else hand;
    var k := if e >= h then e - h else e + |m| - h;
    ProbeSkips(m, Evictable, h, k);
  }

  lemma FirstsAreVictim(m: seq<Entry>, hand: nat)
    requires hand <= |m|
    ensures forall e: nat :: FirstEvictable(m, hand, e) ==> Victim(m, hand) == Some(e)
  {
    forall e: nat | FirstEvictable(m, hand, e) ensures Victim(m, hand) == Some(e) {
      VictimIsFirst(m, hand, e);
    }
  }

  lemma NoVictim(m: seq<Entry>, hand: nat, seen: set<nat>)
    requires hand <= |m| && |m| > 0 && seen == UsedSlots(m)
    requires forall i :: i in seen ==> m[i].used && !Meets(m[i], Evictable)
    ensures Tick(m, hand) == m
  {
    forall i: nat | i < |m| && m[i].used ensures !Meets(m[i], Evictable) {
      assert i in UsedSlots(m);
    }
  }

  /** The wrapped scan ended without a find: it went all the way round, or it counted all. */
  lemma ScanSawAll(m: seq<Entry>, limit: nat, hand: nat)
    requires hand <= limit <= |m| && |m| > 0
    requires hand == limit || |UsedBetween(m, 0, hand)| + |UsedBetween(m, limit, |m|)| >= |UsedSlots(m)|
    requires forall i :: 0 <= i < hand || limit <= i < |m| ==> !Meets(m[i], Evictable)
    ensures Tick(m, limit) == m && forall i :: 0 <= i < |m| ==> !Meets(m[i], Evictable)
  {
    var seen := UsedBetween(m, 0, hand) + UsedBetween(m, limit, |m|);
    if hand == limit {
      assert seen == UsedSlots(m);
    } else {
      AllUsedSeen(m, seen);
    }
    NoVictim(m, limit, seen);
  }

  lemma TickKeepsIndex(m: seq<Entry>, hand: nat, s: seq<nat>)
    requires hand <= |m| && |m| > 0 && Indexed(m, s)
    ensures Indexed(Tick(m, hand), s)
    ensures UsedSlots(Tick(m, hand)) == UsedSlots(m)
    ensures UniqueKeys(m) ==> UniqueKeys(Tick(m, hand))
  {
    TickKeepsKeys(m, hand);
    OrderKept(m, Tick(m, hand), s);
    if UniqueKeys(m) {
      OneChangeKeepsUnique(m, Tick(m, hand), |m|);
    }
  }

  /** Filling in an unused slot: the index still lacks only that slot. */
  lemma NewEntryIndex(m: seq<Entry>, s: seq<nat>, i: nat, t: seq<Entry>)
    requires i < |m| == |t| && !m[i].used && Indexed(m, s)
    requires t == m[i := t[i]] && !t[i].used
    ensures IndexedBut(t, s, i)
    ensures t[i].addr == NO_SHORT ==> Indexed(t[i := t[i].(used := true)], s)
    ensures forall k :: 0 <= k < |s| ==> t[s[k]] == m[s[k]]
  {
    assert forall k :: 0 <= k < |s| ==> s[k] != i;
    OrderKept(m, t, s);
    OrderKept(m, t[i := t[i].(used := true)], s);
  }

  lemma NoListedShort(m: seq<Entry>, hand: nat, s: seq<nat>, a: U16)
    requires hand <= |m| && |m| > 0 && Indexed(m, s) && FindShort(m, a).None?
    ensures forall k :: 0 <= k < |s| && a != NO_SHORT ==> Tick(m, hand)[s[k]].addr != a
    ensures forall i :: 0 <= i < |m| && !m[i].used ==> !Tick(m, hand)[i].used
  {
    TickKeepsKeys(m, hand);
  }

  /** The index and the count depend only on an entry's used bit and short address. */
  lemma IndexIgnores(m: seq<Entry>, r: nat, e: Entry, s: seq<nat>)
    requires r < |m| && m[r].used == e.used && m[r].addr == e.addr
    ensures Indexed(m, s) ==> Indexed(m[r := e], s)
    ensures UsedSlots(m[r := e]) == UsedSlots(m)
  {
    if Indexed(m, s) {
      OrderKept(m, m[r := e], s);
    }
  }

  lemma UniquenessIgnores(m: seq<Entry>, r: nat, e: Entry)
    requires r < |m| && SameKeys(m[r], e)
    ensures UniqueKeys(m) ==> UniqueKeys(m[r := e])
  {
    if UniqueKeys(m) {
      OneChangeKeepsUnique(m, m[r := e], |m|);
    }
  }

  /** With the reference out of the index, its entry can take the new short address. */
  lemma MovedRef(m: seq<Entry>, s: seq<nat>, r: nat, a: U16, t: seq<nat>)
    requires r < |m| && m[r].used && Indexed(m, s) && m[r].addr != a
    requires t == if m[r].addr != NO_SHORT then Without(s, r) else s
    requires forall i :: 0 <= i < |m| && i != r && m[i].used ==> m[i].addr != a
    ensures IndexedBut(m[r := m[r].(addr := a)], t, r)
    ensures forall k :: 0 <= k < |t| ==> t[k] != r && m[t[k]].addr != a
  {
    RemovalSkipsRef(m, s, r);
    assert IndexedBut(m, t, r);
    SkippedRefIsFree(m, t, r, m[r].(addr := a));
  }

  /** addr_map, short_sorted and their counters. The capacity is ZB_IEEE_ADDR_TABLE_SIZE. */
  class AddressTable {
    const size: nat
    const entries: array<Entry>
    const sorted: array<nat>
    var nElements: nat
    var nSorted: nat
    var clockI: nat

    ghost predicate Shape()
      reads this, entries, sorted
    {
      && 0 < size == entries.Length == sorted.Length
      && nSorted <= size && clockI <= size
    }

    ghost function Map(): seq<Entry>
      reads entries
    {
      entries[..]
    }

    ghost function Index(): seq<nat>
      requires Shape()
      reads this, entries, sorted
    {
      sorted[..nSorted]
    }

    ghost predicate Valid()
      reads this, entries, sorted
    {
      && Shape()
      && Indexed(Map(), Index())
      && UniqueKeys(Map())
      && nElements == |UsedSlots(Map())|
    }

    constructor (capacity: nat)
      requires capacity > 0
      ensures Valid() && fresh(entries) && fresh(sorted)
      ensures size == capacity && Map() == seq(capacity, _ => FREE_ENTRY) && clockI == 0
    {
      size := capacity;
      entries := new Entry[capacity](_ => FREE_ENTRY);
      sorted := new nat[capacity](_ => 0);
      nElements, nSorted, clockI := 0, 0, 0;
      new;
      assert Map() == seq(capacity, _ => FREE_ENTRY);
      assert UsedSlots(Map()) == {};
    }

    /** short_search: binary search of the sorted index. */
    method ShortSearch(a: U16) returns (r: Option<nat>)
      requires Valid()
      ensures r == FindShort(Map(), a)
    {
      ghost var m, s := Map(), Index();
      var l := 0;
      if nSorted > 1 {
        var h := nSorted;
        while l < h
          invariant 0 <= l <= h <= nSorted
          invariant AllBelow(m, s, l, a) && NoneBelow(m, s, h, a)
        {
          var i := l + (h - l) / 2;
          assert s[i] == sorted[i];
          BelowUpTo(m, s, i, a);
          if a > entries[sorted[i]].addr {
            l := i + 1;
          } else {
            h := i;
          }
        }
      }
      PositionDecides(m, s, a, l);
      r := None;
      if l < nSorted {
        assert Index()[l] == sorted[l];
        if a == entries[sorted[l]].addr {
          r := Some(sorted[l]);
        }
      }
    }

    /** ieee_search: open-hash probe from the address's hash. */
    method IeeeSearch(c: Compressed) returns (r: Option<nat>)
      requires Valid()
      ensures r == FindLong(Map(), c)
    {
      var h := Hash(c, size);
      var i := h;
      for cnt := 0 to size
        invariant cnt < size ==> i == ProbeAt(size, h, cnt)
        invariant forall j :: 0 <= j < cnt ==> !Meets(Map()[ProbeAt(size, h, j)], LongAddress(c))
      {
        if entries[i].used && entries[i].ieee == c {
          ProbeSkips(Map(), LongAddress(c), h, cnt);
          return Some(i);
        }
        if cnt + 1 < size { ProbeAdvances(size, h, cnt); }
        i := (i + 1) % size;
      }
      ProbeSkips(Map(), LongAddress(c), h, size);
      return None;
    }

    /** del_short_sorted with the move length corrected to n - i - 1. */
    method DelShortSorted(ref: nat)
      requires Shape() && Distinct(Index())
      modifies this`nSorted, sorted
      ensures Shape() && Index() == Without(old(Index()), ref)
    {
      var dec := 0;
      ghost var s := Index();
      ghost var n := nSorted;
      for i := 0 to nSorted
        invariant Shape() && nSorted == n
        invariant Index() == Compacted(s, ref, i)
        invariant dec == if Met(s, ref, i) then 1 else 0
      {
        CompactionStep(s, ref, i);
        assert sorted[i] == Index()[i];
        if sorted[i] == ref {
          dec := dec + 1;
          ShiftLeft(i);
        }
      }
      CompactionEnd(s, ref);
      nSorted := nSorted - dec;
      assert Index() == Compacted(s, ref, n)[..nSorted];
    }

    /** The move of del_short_sorted: close the hole at i; the last listed element stays behind. */
    method ShiftLeft(i: nat)
      requires Shape() && i < nSorted
      modifies sorted
      ensures Index() == Shifted(old(Index()), i)
    {
      if i != nSorted - 1 {
        Memory.Move(sorted, i, i + 1, nSorted - i - 1);
      }
    }

    /** The binary search of add_short_sorted. */
    method InsertionPoint(a: U16) returns (l: nat)
      requires Shape() && OrderedRefs(Map(), Index())
      requires forall k :: 0 <= k < nSorted ==> Map()[Index()[k]].addr != a
      ensures l <= nSorted && AllBelow(Map(), Index(), l, a) && NoneBelow(Map(), Index(), l, a + 1)
    {
      ghost var m, s := Map(), Index();
      l := 0;
      if nSorted > 1 {
        var h := nSorted;
        while l < h
          invariant 0 <= l <= h <= nSorted
          invariant AllBelow(m, s, l, a) && NoneBelow(m, s, h, a + 1)
        {
          var i := l + (h - l) / 2;
          assert s[i] == sorted[i];
          BelowUpTo(m, s, i, a);
          BelowUpTo(m, s, i, a + 1);
          if a >= entries[sorted[i]].addr {
            l := i + 1;
          } else {
            h := i;
          }
        }
      }
      if l < nSorted {
        assert s[l] == sorted[l];
        BelowUpTo(m, s, l, a);
        BelowUpTo(m, s, l, a + 1);
        if a > entries[sorted[l]].addr {
          l := l + 1;
        }
      }
    }

    /** The shift and store at the end of add_short_sorted. */
    method InsertRef(l: nat, ref: nat)
      requires Shape() && l <= nSorted < size
      modifies this`nSorted, sorted
      ensures Shape() && Index() == Spliced(old(Index()), l, ref)
    {
      if l < nSorted {
        Memory.Move(sorted, l + 1, l, nSorted - l);
      }
      sorted[l] := ref;
      nSorted := nSorted + 1;
    }

    /** add_short_sorted: find the place, shift right, insert. The entry already carries its
        short address; its `used` bit may still be about to be set. */
    method AddShortSorted(ref: nat)
      requires Shape() && ref < size && entries[ref].addr != NO_SHORT
      requires IndexedBut(Map(), Index(), ref)
      requires forall k :: 0 <= k < nSorted ==> Map()[Index()[k]].addr != entries[ref].addr
      modifies this`nSorted, sorted
      ensures Shape()
      ensures Indexed(Map()[ref := Map()[ref].(used := true)], Index())
    {
      ghost var m, s := Map(), Index();
      IndexHasRoom(m, s, ref);
      var l := InsertionPoint(entries[ref].addr);
      ghost var m' := m[ref := m[ref].(used := true)];
      assert forall k :: 0 <= k < |s| ==> s[k] != ref && m'[s[k]] == m[s[k]];
      InsertRef(l, ref);
      SkippedRefIsFree(m, s, ref, m[ref].(used := true));
      InsertCompletesIndex(m', s, ref, l);
    }

    /** One of clock_tick's two scans: advance the hand up to `stop`, counting used entries, until
        an unlocked one is found and its ageing bit cleared, or nElements have been counted. */
    method Sweep(stop: nat, cnt0: nat) returns (cnt: nat, found: bool, ghost e: nat)
      requires Shape() && clockI <= stop <= size
      modifies this`clockI, entries
      ensures old(clockI) <= clockI <= stop
      ensures found ==> old(clockI) <= e < stop && Meets(old(Map())[e], Evictable) && clockI == e + 1
      ensures found ==> Map() == old(Map())[e := old(Map())[e].(clock := false)]
      ensures found ==> forall i :: old(clockI) <= i < e ==> !Meets(old(Map())[i], Evictable)
      ensures !found ==> Map() == old(Map()) && (clockI == stop || cnt >= nElements)
      ensures !found ==> cnt == cnt0 + |UsedBetween(Map(), old(clockI), clockI)|
      ensures !found ==> forall i :: old(clockI) <= i < clockI ==> !Meets(Map()[i], Evictable)
    {
      cnt, found, e := cnt0, false, 0;
      ghost var from := clockI;
      while clockI < stop && cnt < nElements
        invariant from <= clockI <= stop
        invariant Map() == old(Map())
        invariant cnt == cnt0 + |UsedBetween(Map(), from, clockI)|
        invariant forall i :: from <= i < clockI ==> !Meets(Map()[i], Evictable)
      {
        var i := clockI;
        clockI := clockI + 1;
        UsedBetweenStep(Map(), from, i);
        if entries[i].used {
          cnt := cnt + 1;
          if entries[i].lockCnt == 0 {
            e := i;
            entries[i] := entries[i].(clock := false);
            return cnt, true, e;
          }
        }
      }
    }

    /** clock_tick: the clock hand moves on and clears the ageing bit of the first used,
        unlocked entry it meets, looking at each used entry at most once. */
    method ClockTick()
      requires Valid()
      modifies this`clockI, entries
      ensures Valid()
      ensures Map() == Tick(old(Map()), old(clockI))
      ensures forall e: nat :: FirstEvictable(old(Map()), old(clockI), e) ==> clockI == e + 1
    {
      ghost var m, s := Map(), Index();
      var limit := clockI;
      ghost var e;
      var cnt, found;
      cnt, found, e := Sweep(size, 0);
      if found {
        VictimIs(m, limit, e);
      } else if cnt < nElements {
        clockI := 0;
        cnt, found, e := Sweep(limit, cnt);
        if found {
          VictimIs(m, limit, e);
        } else {
          ScanSawAll(m, limit, clockI);
        }
      } else {
        AllUsedSeen(m, UsedBetween(m, limit, clockI));
        NoVictim(m, limit, UsedBetween(m, limit, clockI));
      }
      TickKeepsIndex(m, limit, s);
      FirstsAreVictim(m, limit);
    }

    /** The writes of addr_add into the free slot it found. */
    method FillSlot(i: nat, c: Option<Compressed>, a: U16)
      requires Shape() && Indexed(Map(), Index()) && i < size && !entries[i].used
      requires forall k :: 0 <= k < nSorted && a != NO_SHORT ==> Map()[Index()[k]].addr != a
      modifies this`nSorted, this`nElements, entries, sorted
      ensures Shape() && Indexed(Map(), Index()) && nElements == old(nElements) + 1
      ensures Map() == old(Map())[i := old(Map())[i].(addr := a, clock := true, used := true,
                                         ieee := if c.Some? then c.value else ZERO_LONG)]
    {
      ghost var m, s := Map(), Index();
      entries[i] := entries[i].(addr := a, clock := true,
                                ieee := if c.Some? then c.value else ZERO_LONG);
      ghost var t := Map();
      assert t == m[i := t[i]];
      NewEntryIndex(m, s, i, t);
      if a != NO_SHORT {
        AddShortSorted(i);
      }
      assert Map() == t && Indexed(t[i := t[i].(used := true)], Index());
      if !entries[i].used {
        nElements := nElements + 1;
      }
      entries[i] := entries[i].(used := true);
    }

    /** addr_add. */
    method AddrAdd(c: Option<Compressed>, a: U16) returns (r: Option<nat>)
      requires Valid()
      requires FindShort(Map(), a).None?
      requires c.Some? ==> FindLong(Map(), c.value).None?
      modifies this, entries, sorted
      ensures Valid()
      ensures AddResult(Map(), r) == Add(old(Map()), old(clockI), c, a)
      ensures if AllUsed(old(Map())) then r == None && Map() == old(Map())
              else r.Some? && Created(old(Map()), Map(), r.value, if c.Some? then c.value else Compressed(0, [0, 0, 0, 0, 0]), a)
    {
      AddCreates(Map(), clockI, c, a);
      ghost var m, hand := Map(), clockI;
      AddKeepsUniqueKeys(m, hand, c, a);
      r := FreeSlotFrom(if c.Some? then Hash(c.value, size) else 0);
      if r.Some? {
        AddUsesOneMore(m, hand, c, a);
        NoListedShort(m, hand, Index(), a);
        ghost var s := Index();
        ClockTick();
        assert Index() == s && Map() == Tick(m, hand);
        FillSlot(r.value, c, a);
        assert Map() == Add(m, hand, c, a).map';
      }
    }

    /** The search loop of addr_add: the first unused slot in probe order. */
    method FreeSlotFrom(h: nat) returns (r: Option<nat>)
      requires Shape() && h < size
      ensures r == FirstFree(Map(), h)
    {
      var i := h;
      ghost var k := 0;
      var more := true;
      while more
        invariant k <= size && (more ==> k < size && i == ProbeAt(size, h, k))
        invariant !more ==> k == size
        invariant forall j :: 0 <= j < k ==> !Meets(Map()[ProbeAt(size, h, j)], FreeSlot)
        decreases size - k
      {
        if !entries[i].used {
          ProbeSkips(Map(), FreeSlot, h, k);
          return Some(i);
        }
        if k + 1 < size { ProbeAdvances(size, h, k); } else { ProbeWraps(size, h); }
        i := (i + 1) % size;
        k := k + 1;
        more := i != h;
      }
      ProbeSkips(Map(), FreeSlot, h, size);
      r := None;
    }

    /** zb_address_delete. */
    method DeleteRef(ref: nat)
      requires Valid() && ref < size && entries[ref].used
      modifies this, entries, sorted
      ensures Valid() && clockI == old(clockI)
      ensures Map() == Delete(old(Map()), ref) == old(Map())[ref := old(Map())[ref].(used := false)]
    {
      ghost var m, s := Map(), Index();
      IndexedIsUniqueShort(m, s);
      UsedAfterDelete(m, ref);
      DelShortSorted(ref);
      RemovalSkipsRef(m, s, ref);
      entries[ref] := entries[ref].(used := false);
      nElements := nElements - 1;
      SkippedRefIsFree(m, Index(), ref, m[ref].(used := false));
      DeleteKeepsUniqueKeys(m, ref);
    }

    /** zb_address_lock: the 4-bit counter must not overflow. */
    method LockRef(ref: nat)
      requires Valid() && ref < size && entries[ref].lockCnt < 15
      modifies entries
      ensures Valid() && Map() == Lock(old(Map()), ref) && FoundAt(old(Map()), Map(), ref, true)
    {
      SetBookkeeping(ref, entries[ref].(lockCnt := entries[ref].lockCnt + 1, clock := true));
    }

    /** zb_address_unlock: only a locked entry may be unlocked. */
    method UnlockRef(ref: nat)
      requires Valid() && ref < size && entries[ref].lockCnt > 0
      modifies entries
      ensures Valid() && Map() == Unlock(old(Map()), ref)
      ensures Map()[ref].lockCnt == old(Map())[ref].lockCnt - 1
    {
      SetBookkeeping(ref, entries[ref].(lockCnt := entries[ref].lockCnt - 1));
    }

    method TouchRef(ref: nat)
      requires Valid() && ref < size
      modifies entries
      ensures Valid() && Map() == Touch(old(Map()), ref)
    {
      SetBookkeeping(ref, entries[ref].(clock := true));
    }

    /** Any write that leaves an entry's keys and used bit alone. */
    method SetBookkeeping(ref: nat, e: Entry)
      requires Valid() && ref < size && SameKeys(entries[ref], e)
      modifies entries
      ensures Valid() && Map() == old(Map())[ref := e]
    {
      IndexIgnores(Map(), ref, e, Index());
      UniquenessIgnores(Map(), ref, e);
      entries[ref] := e;
      assert Map() == old(Map())[ref := e];
    }

    /** zb_address_by_ieee. */
    method ByLong(c: Compressed, create: bool, lock: bool) returns (r: Option<nat>)
      requires Valid()
      requires lock ==> Lockable(ByIeee(Map(), clockI, c, create))
      modifies this, entries, sorted
      ensures Valid()
      ensures AddResult(Map(), r) == Locked(ByIeee(old(Map()), old(clockI), c, create), lock)
      ensures LongLookup(old(Map()), Map(), r, c, create, lock)
    {
      ByIeeeLooksUp(Map(), clockI, c, create, lock);
      r := IeeeSearch(c);
      if r.Some? {
        TouchRef(r.value);
      } else if create {
        r := AddrAdd(Some(c), NO_SHORT);
      }
      if lock && r.Some? {
        LockRef(r.value);
      }
    }

    /** zb_address_by_short. */
    method ByShortAddr(a: U16, create: bool, lock: bool) returns (r: Option<nat>)
      requires Valid()
      requires lock ==> Lockable(ByShort(Map(), clockI, a, create))
      modifies this, entries, sorted
      ensures Valid()
      ensures AddResult(Map(), r) == Locked(ByShort(old(Map()), old(clockI), a, create), lock)
      ensures ShortLookup(old(Map()), Map(), r, a, create, lock)
    {
      ByShortLooksUp(Map(), clockI, a, create, lock);
      r := ShortSearch(a);
      if r.Some? {
        TouchRef(r.value);
      } else if create {
        r := AddrAdd(None, a);
      }
      if lock && r.Some? {
        LockRef(r.value);
      }
    }

    /** The re-sorting step of zb_address_update: an entry whose short address changes leaves the
        index under the old one and enters it under the new. */
    method ReplaceShort(ref: nat, a: U16)
      requires Shape() && Indexed(Map(), Index())
      requires ref < size && entries[ref].used && a != NO_SHORT
      requires forall i :: 0 <= i < size && i != ref && entries[i].used ==> entries[i].addr != a
      modifies this`nSorted, sorted, entries
      ensures Shape() && Indexed(Map(), Index())
      ensures Map() == old(Map())[ref := old(Map())[ref].(addr := a)]
    {
      ghost var m, s := Map(), Index();
      IndexedIsUniqueShort(m, s);
      if entries[ref].addr != a {
        if entries[ref].addr != NO_SHORT {
          DelShortSorted(ref);
        }
        MovedRef(m, s, ref, a, Index());
        entries[ref] := entries[ref].(addr := a);
        assert Map() == m[ref := m[ref].(addr := a)];
        AddShortSorted(ref);
        assert Map() == Map()[ref := Map()[ref].(used := true)];
      }
    }

    /** The overwrite at the end of zb_address_update: both keys go into entry `ref`. */
    method SettleRef(ref: nat, c: Compressed, a: U16)
      requires Valid() && a != NO_SHORT && ref < size && entries[ref].used
      requires forall i :: 0 <= i < size && i != ref && entries[i].used
                           ==> entries[i].addr != a && (entries[i].ieee != c || c == ZERO_LONG)
      modifies this, entries, sorted
      ensures Valid() && Map() == Settle(old(Map()), ref, c, a)
    {
      ghost var m := Map();
      SettleKeepsUniqueKeys(m, ref, c, a);
      UsedUnchanged(m, Settle(m, ref, c, a));
      IndexIgnores(m, ref, m[ref].(ieee := c), Index());
      entries[ref] := entries[ref].(ieee := c);
      assert Map() == m[ref := m[ref].(ieee := c)];
      ReplaceShort(ref, a);
      IndexIgnores(Map(), ref, Map()[ref].(clock := true), Index());
      entries[ref] := entries[ref].(clock := true);
      assert Map() == Settle(m, ref, c, a);
    }

    /** zb_address_update, under its assertion that no two different locked entries hold the
        two keys. On success the entry holds the pair and, unless the long address is the zero one, both
        lookups give it. */
    method UpdatePair(c: Compressed, a: U16, lock: bool) returns (r: Option<nat>)
      requires Valid() && a != NO_SHORT && !LockedConflict(Map(), c, a)
      requires lock ==> Lockable(Update(Map(), clockI, c, a))
      modifies this, entries, sorted
      ensures Valid()
      ensures AddResult(Map(), r) == Locked(Update(old(Map()), old(clockI), c, a), lock)
      ensures r.Some? ==> HasShort(Map()[r.value], a) && HasLong(Map()[r.value], c) && FindShort(Map(), a) == r
      ensures r.Some? && c != ZERO_LONG ==> FindLong(Map(), c) == r
    {
      r := UpdateUnlocked(c, a);
      if lock && r.Some? {
        LockRef(r.value);
      }
      if r.Some? {
        FindShortIs(Map(), r.value, a);
        if c != ZERO_LONG {
          FindLongIs(Map(), r.value, c);
        }
      }
    }

    /** Conflict resolution of zb_address_update: of two entries, delete an unlocked one, the
        first if possible, and keep the other. */
    method EvictOne(s: nat, l: nat) returns (kept: nat)
      requires Valid() && s < size && l < size && s != l && entries[s].used && entries[l].used
      requires entries[s].lockCnt == 0 || entries[l].lockCnt == 0
      modifies this, entries, sorted
      ensures Valid() && clockI == old(clockI)
      ensures kept == if old(entries[s].lockCnt) == 0 then l else s
      ensures Map() == Delete(old(Map()), if kept == l then s else l)
    {
      if entries[s].lockCnt == 0 {
        DeleteRef(s);
        kept := l;
      } else {
        DeleteRef(l);
        kept := s;
      }
    }

    /** zb_address_update up to its optional lock. */
    method UpdateUnlocked(c: Compressed, a: U16) returns (r: Option<nat>)
      requires Valid() && a != NO_SHORT && !LockedConflict(Map(), c, a)
      modifies this, entries, sorted
      ensures Valid()
      ensures AddResult(Map(), r) == Update(old(Map()), old(clockI), c, a)
    {
      var s := ShortSearch(a);
      var l := IeeeSearch(c);
      if s.Some? || l.Some? {
        EvictionClearsKeys(Map(), c, a);
        var ref := if s.Some? then s.value else l.value;
        if s.Some? && l.Some? && s != l {
          ref := EvictOne(s.value, l.value);
        }
        assert Map() == Evicted(old(Map()), c, a) && ref == Kept(old(Map()), c, a);
        SettleRef(ref, c, a);
        r := Some(ref);
      } else {
        r := AddrAdd(Some(c), a);
      }
    }
  }
}
