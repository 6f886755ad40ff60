/** The address translation map as a plain sequence of entries searched linearly: what
    zb_address.c means, without its sorted index, counters and in-place moves. */
module AddressModel {
  import opened Prelude

  /** "No short address": all ones. */
  const NO_SHORT: U16 := 0xFFFF

  type DeviceId = s: seq<U8> | |s| == 5 witness [0, 0, 0, 0, 0]

  /** A long address with its first three bytes replaced by a dictionary index. */
  datatype Compressed = Compressed(manufacturer: U8, device: DeviceId)

  const ZERO_LONG := Compressed(0, [0, 0, 0, 0, 0])

  /** lock_cnt is a 4-bit field, aps_dup_clock a 2-bit field. */
  type LockCount = x: int | 0 <= x < 16
  type DupClock = x: int | 0 <= x < 4

  datatype Entry = Entry(
    ieee: Compressed,
    addr: U16,
    used: bool,
    lockCnt: LockCount,
    clock: bool,
    dupCounter: U8,
    dupClock: DupClock)

  const FREE_ENTRY := Entry(ZERO_LONG, 0, false, 0, false, 0, 0)

  // ---------- Searching ----------

  predicate HasShort(e: Entry, a: U16) {
    e.used && e.addr == a && a != NO_SHORT
  }

  predicate HasLong(e: Entry, c: Compressed) {
    e.used && e.ieee == c
  }

  /** Linear scan for a short address. */
  function ScanShort(m: seq<Entry>, a: U16, from: nat): (r: Option<nat>)
    requires from <= |m|
    ensures r.Some? ==> from <= r.value < |m| && HasShort(m[r.value], a)
    ensures r.Some? ==> forall j :: from <= j < r.value ==> !HasShort(m[j], a)
    ensures r.None? ==> forall j :: from <= j < |m| ==> !HasShort(m[j], a)
    decreases |m| - from
  {
    if from == |m| then None
    else if HasShort(m[from], a) then Some(from)
    else ScanShort(m, a, from + 1)
  }

  function FindShort(m: seq<Entry>, a: U16): Option<nat> {
    ScanShort(m, a, 0)
  }

  /** The k-th position of a cyclic probe over n slots that starts at h. */
  function ProbeAt(n: nat, h: nat, k: nat): (i: nat)
    requires h < n && k < n
    ensures i < n
  {
    if h + k < n then h + k else h + k - n
  }

  /** What a cyclic probe of the table looks for. */
  datatype Goal = LongAddress(c: Compressed) | FreeSlot | Evictable

  predicate Meets(e: Entry, g: Goal) {
    match g
    case LongAddress(c) => HasLong(e, c)
    case FreeSlot => !e.used
    case Evictable => e.used && e.lockCnt == 0
  }

  /** First slot that meets the goal in cyclic order from h, having already passed k of them. */
  function Probe(m: seq<Entry>, g: Goal, h: nat, k: nat): (r: Option<nat>)
    requires h < |m| && k <= |m|
    ensures r.Some? ==> r.value < |m| && Meets(m[r.value], g)
    ensures r.None? ==> forall j :: k <= j < |m| ==> !Meets(m[ProbeAt(|m|, h, j)], g)
    decreases |m| - k
  {
    if k == |m| then None
    else if Meets(m[ProbeAt(|m|, h, k)], g) then Some(ProbeAt(|m|, h, k))
    else Probe(m, g, h, k + 1)
  }

  /** A failed probe has seen every slot. */
  lemma ProbeCovers(m: seq<Entry>, g: Goal, h: nat)
    requires h < |m|
    ensures Probe(m, g, h, 0).None? ==> forall i :: 0 <= i < |m| ==> !Meets(m[i], g)
  {
    if Probe(m, g, h, 0).None? {
      forall i | 0 <= i < |m| ensures !Meets(m[i], g) {
        assert i == ProbeAt(|m|, h, if i >= h then i - h else i + |m| - h);
      }
    }
  }

  /** Hash of a compressed long address: 5381 folded with four device bytes in 32-bit
      arithmetic, masked to 31 bits. */
  function Hash(c: Compressed, n: nat): (h: nat)
    requires n > 0
    ensures h < n
  {
    ((((5381 * 33 + c.device[0]) * 33 + c.device[2]) * 33 + c.device[3]) * 33 + c.device[4])
    % 0x8000_0000 % n
  }

  /** That is, a polynomial in 33 over device bytes 0, 2, 3 and 4. */
  lemma HashIsPolynomial(c: Compressed, n: nat)
    requires n > 0
    ensures Hash(c, n) ==
      (6381440901 + 35937 * c.device[0] + 1089 * c.device[2] + 33 * c.device[3] + c.device[4]) % 2147483648 % n
  {
  }

  function FindLong(m: seq<Entry>, c: Compressed): (r: Option<nat>)
    requires |m| > 0
    ensures r.Some? ==> r.value < |m| && HasLong(m[r.value], c)
    ensures r.None? ==> forall i :: 0 <= i < |m| ==> !HasLong(m[i], c)
  {
    ProbeCovers(m, LongAddress(c), Hash(c, |m|));
    Probe(m, LongAddress(c), Hash(c, |m|), 0)
  }

  function FirstFree(m: seq<Entry>, h: nat): (r: Option<nat>)
    requires h < |m|
    ensures r.Some? ==> r.value < |m| && !m[r.value].used
    ensures r.None? ==> forall i :: 0 <= i < |m| ==> m[i].used
  {
    ProbeCovers(m, FreeSlot, h);
    Probe(m, FreeSlot, h, 0)
  }

  // ---------- Operations on the plain map ----------

  function Touch(m: seq<Entry>, r: nat): seq<Entry>
    requires r < |m|
  {
    m[r := m[r].(clock := true)]
  }

  function Lock(m: seq<Entry>, r: nat): seq<Entry>
    requires r < |m| && m[r].lockCnt < 15
  {
    m[r := m[r].(lockCnt := m[r].lockCnt + 1, clock := true)]
  }

  function Unlock(m: seq<Entry>, r: nat): seq<Entry>
    requires r < |m| && m[r].lockCnt > 0
  {
    m[r := m[r].(lockCnt := m[r].lockCnt - 1)]
  }

  function Delete(m: seq<Entry>, r: nat): seq<Entry>
    requires r < |m|
  {
    m[r := m[r].(used := false)]
  }

  /** The clock hand's next victim: the first used, unlocked entry in cyclic order. */
  function Victim(m: seq<Entry>, hand: nat): (r: Option<nat>)
    requires hand <= |m| && |m| > 0
    ensures r.Some? ==> r.value < |m| && m[r.value].used && m[r.value].lockCnt == 0
    ensures r.None? ==> forall i :: 0 <= i < |m| ==> !(m[i].used && m[i].lockCnt == 0)
  {
    var h := if hand == |m| then 0 else hand;
    ProbeCovers(m, Evictable, h);
    Probe(m, Evictable, h, 0)
  }

  function Tick(m: seq<Entry>, hand: nat): (r: seq<Entry>)
    requires hand <= |m| && |m| > 0
    ensures |r| == |m|
  {
    var v := Victim(m, hand);
    if v.None? then m else m[v.value := m[v.value].(clock := false)]
  }

  datatype AddResult = AddResult(map': seq<Entry>, ref: Option<nat>)

  /** addr_add: the entry goes to the first unused slot in probe order; None on overflow. */
  function Add(m: seq<Entry>, hand: nat, c: Option<Compressed>, a: U16): (r: AddResult)
    requires hand <= |m| && |m| > 0
    ensures |r.map'| == |m|
    ensures r.ref.Some? ==> r.ref.value < |m|
  {
    var slot := FirstFree(m, if c.Some? then Hash(c.value, |m|) else 0);
    if slot.None? then AddResult(m, None)
    else
      var i := slot.value;
      var t := Tick(m, hand);
      AddResult(
        t[i := t[i].(addr := a, clock := true, used := true,
                     ieee := if c.Some? then c.value else ZERO_LONG)],
        slot)
  }

  function ByIeee(m: seq<Entry>, hand: nat, c: Compressed, create: bool): (r: AddResult)
    requires hand <= |m| && |m| > 0
    ensures |r.map'| == |m|
    ensures r.ref.Some? ==> r.ref.value < |m|
  {
    var f := FindLong(m, c);
    if f.Some? then AddResult(Touch(m, f.value), f)
    else if create then Add(m, hand, Some(c), NO_SHORT)
    else AddResult(m, None)
  }

  function ByShort(m: seq<Entry>, hand: nat, a: U16, create: bool): (r: AddResult)
    requires hand <= |m| && |m| > 0
    ensures |r.map'| == |m|
    ensures r.ref.Some? ==> r.ref.value < |m|
  {
    var f := FindShort(m, a);
    if f.Some? then AddResult(Touch(m, f.value), f)
    else if create then Add(m, hand, None, a)
    else AddResult(m, None)
  }

  /** May the entry an operation ends on be locked once more? */
  predicate Lockable(r: AddResult)
    requires r.ref.Some? ==> r.ref.value < |r.map'|
  {
    r.ref.Some? ==> r.map'[r.ref.value].lockCnt < 15
  }

  /** The optional lock at the end of the lookup and update operations. */
  function Locked(r: AddResult, lock: bool): AddResult
    requires r.ref.Some? ==> r.ref.value < |r.map'|
    requires lock ==> Lockable(r)
  {
    if lock && r.ref.Some? then AddResult(Lock(r.map', r.ref.value), r.ref) else r
  }

  /** Two different locked entries hold the two keys: the source asserts that this cannot happen. */
  predicate LockedConflict(m: seq<Entry>, c: Compressed, a: U16)
    requires |m| > 0
  {
    var s, l := FindShort(m, a), FindLong(m, c);
    s.Some? && l.Some? && s != l && m[s.value].lockCnt > 0 && m[l.value].lockCnt > 0
  }

  function Settle(m: seq<Entry>, r: nat, c: Compressed, a: U16): seq<Entry>
    requires r < |m|
  {
    m[r := m[r].(ieee := c, addr := a, clock := true)]
  }

  /** The entry an update ends up using when at least one key is known: the long address's entry
      if the short address is unknown or its own entry can be evicted, else the short one's. */
  function Kept(m: seq<Entry>, c: Compressed, a: U16): (r: nat)
    requires |m| > 0 && (FindShort(m, a).Some? || FindLong(m, c).Some?)
    ensures r < |m| && m[r].used
  {
    var s, l := FindShort(m, a), FindLong(m, c);
    if s.None? then l.value
    else if l.Some? && s != l && m[s.value].lockCnt == 0 then l.value
    else s.value
  }

  /** The entry an update deletes when its two keys are held by two entries: the short address's own
      if it is not locked, else the long one's if that is not. */
  function Loser(m: seq<Entry>, c: Compressed, a: U16): (r: Option<nat>)
    requires |m| > 0
    ensures r.Some? ==> r.value < |m| && m[r.value].used && m[r.value].lockCnt == 0
  {
    var s, l := FindShort(m, a), FindLong(m, c);
    if s.Some? && l.Some? && s != l then
      if m[s.value].lockCnt == 0 then s
      else if m[l.value].lockCnt == 0 then l
      else None
    else None
  }

  /** The map once the losing entry of a conflict, if there is one, has been deleted. */
  function Evicted(m: seq<Entry>, c: Compressed, a: U16): (r: seq<Entry>)
    requires |m| > 0
    ensures |r| == |m|
  {
    var loser := Loser(m, c, a);
    if loser.Some? then Delete(m, loser.value) else m
  }

  /** zb_address_update, with its assertion compiled out. */
  function Update(m: seq<Entry>, hand: nat, c: Compressed, a: U16): (r: AddResult)
    requires hand <= |m| && |m| > 0
    ensures |r.map'| == |m|
    ensures r.ref.Some? ==> r.ref.value < |m|
  {
    if FindShort(m, a).Some? || FindLong(m, c).Some? then
      var r := Kept(m, c, a);
      AddResult(Settle(Evicted(m, c, a), r, c, a), Some(r))
    else Add(m, hand, Some(c), a)
  }

  // ---------- What every operation keeps ----------

  /** Two used entries with one short address. */
  predicate SameShort(m: seq<Entry>, i: nat, j: nat) {
    i < j < |m| && m[i].used && m[j].used && m[i].addr == m[j].addr != NO_SHORT
  }

  ghost predicate UniqueShort(m: seq<Entry>) {
    forall i, j :: !SameShort(m, i, j)
  }

  /** Two used entries with one long address; an entry made from a short address alone carries the
      zero long address, and there can be many of those. */
  predicate SameLong(m: seq<Entry>, i: nat, j: nat) {
    i < j < |m| && m[i].used && m[j].used && m[i].ieee == m[j].ieee != ZERO_LONG
  }

  ghost predicate UniqueLong(m: seq<Entry>) {
    forall i, j :: !SameLong(m, i, j)
  }

  ghost predicate UniqueKeys(m: seq<Entry>) {
    UniqueShort(m) && UniqueLong(m)
  }

  ghost predicate SameKeys(e: Entry, f: Entry) {
    e.used == f.used && e.ieee == f.ieee && e.addr == f.addr
  }

  /** Entries other than r keep their keys or go, and what r now has nobody else has. */
  lemma OneChangeKeepsUnique(m: seq<Entry>, after: seq<Entry>, r: nat)
    requires UniqueKeys(m) && |after| == |m|
    requires forall i :: 0 <= i < |m| && i != r && after[i].used ==> SameKeys(m[i], after[i])
    requires forall i :: 0 <= i < |m| && i != r && after[i].used && r < |m| && after[r].used ==>
      (after[i].addr != after[r].addr || after[i].addr == NO_SHORT) && (after[i].ieee != after[r].ieee || after[i].ieee == ZERO_LONG)
    ensures UniqueKeys(after)
  {
    forall i, j ensures !SameShort(after, i, j) && !SameLong(after, i, j) {
      assert !SameShort(m, i, j) && !SameLong(m, i, j);
    }
  }

  lemma TickKeepsKeys(m: seq<Entry>, hand: nat)
    requires hand <= |m| && |m| > 0
    ensures forall i :: 0 <= i < |m| ==> Tick(m, hand)[i] == m[i].(clock := Tick(m, hand)[i].clock)
    ensures forall i :: 0 <= i < |m| && !m[i].used ==> Tick(m, hand)[i] == m[i]
  {
  }

  lemma AddKeepsUniqueKeys(m: seq<Entry>, hand: nat, c: Option<Compressed>, a: U16)
    requires hand <= |m| && |m| > 0 && UniqueKeys(m)
    requires FindShort(m, a).None?
    requires c.Some? ==> FindLong(m, c.value).None?
    ensures UniqueKeys(Add(m, hand, c, a).map')
  {
    TickKeepsKeys(m, hand);
    var r := Add(m, hand, c, a);
    OneChangeKeepsUnique(m, r.map', if r.ref.Some? then r.ref.value else |m|);
  }

  lemma DeleteKeepsUniqueKeys(m: seq<Entry>, r: nat)
    requires r < |m| && UniqueKeys(m)
    ensures UniqueKeys(Delete(m, r))
  {
    OneChangeKeepsUnique(m, Delete(m, r), r);
  }

  /** A lookup finds the entry that holds the key when keys are unique. */
  lemma FindShortIs(m: seq<Entry>, r: nat, a: U16)
    requires UniqueShort(m) && r < |m| && HasShort(m[r], a)
    ensures FindShort(m, a) == Some(r)
  {
    assert FindShort(m, a).Some? ==> !SameShort(m, FindShort(m, a).value, r);
  }

  lemma FindLongIs(m: seq<Entry>, r: nat, c: Compressed)
    requires UniqueLong(m) && r < |m| && HasLong(m[r], c) && c != ZERO_LONG
    ensures FindLong(m, c) == Some(r)
  {
    var f := FindLong(m, c);
    assert f.Some? ==> !SameLong(m, f.value, r) && !SameLong(m, r, f.value);
  }

  /** Writing both keys into one entry keeps keys unique when no other used entry has them. */
  lemma SettleKeepsUniqueKeys(m: seq<Entry>, r: nat, c: Compressed, a: U16)
    requires r < |m| && UniqueKeys(m)
    requires forall i :: 0 <= i < |m| && i != r && m[i].used
                         ==> (m[i].addr != a || a == NO_SHORT) && (m[i].ieee != c || c == ZERO_LONG)
    ensures UniqueKeys(Settle(m, r, c, a))
  {
    OneChangeKeepsUnique(m, Settle(m, r, c, a), r);
  }

  /** Both keys are real addresses. The zero long address is also what an entry without one carries. */
  predicate RealKeys(c: Compressed, a: U16) {
    c != ZERO_LONG && a != NO_SHORT
  }

  /** After conflict resolution the kept entry is the only possible holder of either key, the zero long
      address aside. */
  lemma EvictionClearsKeys(m: seq<Entry>, c: Compressed, a: U16)
    requires |m| > 0 && UniqueKeys(m) && a != NO_SHORT && (LockedConflict(m, c, a) ==> c == ZERO_LONG)
    requires FindShort(m, a).Some? || FindLong(m, c).Some?
    ensures Evicted(m, c, a)[Kept(m, c, a)].used
    ensures forall i :: 0 <= i < |m| && i != Kept(m, c, a) && Evicted(m, c, a)[i].used
                        ==> Evicted(m, c, a)[i].addr != a && (Evicted(m, c, a)[i].ieee != c || c == ZERO_LONG)
  {
    forall i | 0 <= i < |m| && m[i].used
      ensures m[i].addr == a ==> FindShort(m, a) == Some(i)
      ensures m[i].ieee == c && c != ZERO_LONG ==> FindLong(m, c) == Some(i)
    {
      if m[i].addr == a { FindShortIs(m, i, a); }
      if m[i].ieee == c && c != ZERO_LONG { FindLongIs(m, i, c); }
    }
  }

  lemma EvictionKeepsUniqueKeys(m: seq<Entry>, c: Compressed, a: U16)
    requires |m| > 0 && UniqueKeys(m)
    ensures UniqueKeys(Evicted(m, c, a))
  {
    OneChangeKeepsUnique(m, Evicted(m, c, a), |m|);
  }

  /** Exactly when the update keeps both keys unique: the asserted-away conflict is the only failure. */
  lemma UpdateKeepsUniqueKeysIff(m: seq<Entry>, hand: nat, c: Compressed, a: U16)
    requires hand <= |m| && |m| > 0 && UniqueKeys(m) && a != NO_SHORT
    ensures UniqueKeys(Update(m, hand, c, a).map') <==> (LockedConflict(m, c, a) ==> c == ZERO_LONG)
  {
    var s, l := FindShort(m, a), FindLong(m, c);
    if s.None? && l.None? {
      AddKeepsUniqueKeys(m, hand, Some(c), a);
    } else if LockedConflict(m, c, a) && c != ZERO_LONG {
      var m' := Update(m, hand, c, a).map';
      assert SameLong(m', s.value, l.value) || SameLong(m', l.value, s.value);
    } else {
      EvictionClearsKeys(m, c, a);
      EvictionKeepsUniqueKeys(m, c, a);
      SettleKeepsUniqueKeys(Evicted(m, c, a), Kept(m, c, a), c, a);
    }
  }

  /** Such a conflict: short address 5 and a long address are held by two locked entries, and updating
      the one with the other leaves the long address in both. */
  lemma LockedConflictDuplicatesKey()
    ensures var one, two := Compressed(1, [1, 0, 0, 0, 0]), Compressed(1, [2, 0, 0, 0, 0]);
            var m := [Entry(one, 5, true, 1, true, 0, 0), Entry(two, 6, true, 1, true, 0, 0)];
            UniqueKeys(m) && RealKeys(two, 5) && LockedConflict(m, two, 5) && !UniqueKeys(Update(m, 0, two, 5).map')
  {
    var one, two := Compressed(1, [1, 0, 0, 0, 0]), Compressed(1, [2, 0, 0, 0, 0]);
    var m := [Entry(one, 5, true, 1, true, 0, 0), Entry(two, 6, true, 1, true, 0, 0)];
    assert one.device[0] != two.device[0];
    assert ZERO_LONG.manufacturer == 0;
    FindShortIs(m, 0, 5);
    FindLongIs(m, 1, two);
    UpdateKeepsUniqueKeysIff(m, 0, two, 5);
  }

  /** Entries the update has no business with: they hold neither key. */
  ghost predicate Unrelated(e: Entry, c: Compressed, a: U16) {
    e.used && e.addr != a && e.ieee != c
  }

  lemma UpdateSparesUnrelated(m: seq<Entry>, hand: nat, c: Compressed, a: U16, i: nat)
    requires hand <= |m| && i < |m| && Unrelated(m[i], c, a)
    ensures var after := Update(m, hand, c, a).map'; after[i] == m[i].(clock := after[i].clock)
  {
    if FindShort(m, a).None? && FindLong(m, c).None? {
      AddKeepsEntry(m, hand, Some(c), a, i);
    }
  }

  /** The point of zb_address_update: afterwards the pair is known under one reference by both
      lookups, nobody else holds either key, and entries with other keys keep everything but
      possibly their ageing bit. */
  lemma UpdateBindsPair(m: seq<Entry>, hand: nat, c: Compressed, a: U16)
    requires hand <= |m| && |m| > 0 && UniqueKeys(m) && RealKeys(c, a)
    requires !LockedConflict(m, c, a)
    ensures var r := Update(m, hand, c, a);
      && (r.ref.Some? ==>
            && HasShort(r.map'[r.ref.value], a) && HasLong(r.map'[r.ref.value], c)
            && FindShort(r.map', a) == r.ref && FindLong(r.map', c) == r.ref
            && (forall i :: 0 <= i < |m| && i != r.ref.value ==>
                  !HasShort(r.map'[i], a) && !HasLong(r.map'[i], c)))
      && (forall i :: 0 <= i < |m| && Unrelated(m[i], c, a)
            ==> r.map'[i] == m[i].(clock := r.map'[i].clock))
      && (r.ref.None? ==> r.map' == m)
  {
    UpdateKeepsUniqueKeysIff(m, hand, c, a);
    var r := Update(m, hand, c, a);
    forall i | 0 <= i < |m| && Unrelated(m[i], c, a) ensures r.map'[i] == m[i].(clock := r.map'[i].clock) {
      UpdateSparesUnrelated(m, hand, c, a, i);
    }
    if r.ref.Some? {
      var i := r.ref.value;
      assert HasShort(r.map'[i], a) && HasLong(r.map'[i], c);
      FindShortIs(r.map', i, a);
      FindLongIs(r.map', i, c);
      forall j | 0 <= j < |m| && j != i ensures !HasShort(r.map'[j], a) && !HasLong(r.map'[j], c) {
        assert !SameShort(r.map', i, j) && !SameShort(r.map', j, i);
        assert !SameLong(r.map', i, j) && !SameLong(r.map', j, i);
      }
    }
  }

  /** Exactly when the update fails: a new pair and no free slot. */
  lemma UpdateFailsIff(m: seq<Entry>, hand: nat, c: Compressed, a: U16)
    requires hand <= |m| && |m| > 0
    ensures Update(m, hand, c, a).ref.None? <==>
            forall i :: 0 <= i < |m| ==> m[i].used && !HasShort(m[i], a) && m[i].ieee != c
  {
  }

  /** A locked entry is never evicted by an update, so references held elsewhere stay valid:
      it stays used with its lock count. */
  lemma UpdateNeverEvictsLocked(m: seq<Entry>, hand: nat, c: Compressed, a: U16, i: nat)
    requires hand <= |m| && |m| > 0 && i < |m| && m[i].used && m[i].lockCnt > 0
    ensures Update(m, hand, c, a).map'[i].used
    ensures Update(m, hand, c, a).map'[i].lockCnt == m[i].lockCnt
  {
    if FindShort(m, a).Some? || FindLong(m, c).Some? {
      assert Evicted(m, c, a)[i] == m[i];
    } else {
      AddKeepsEntry(m, hand, Some(c), a, i);
    }
  }

  /** Creating an entry touches no used one but for an ageing bit. */
  lemma AddKeepsEntry(m: seq<Entry>, hand: nat, c: Option<Compressed>, a: U16, i: nat)
    requires hand <= |m| && i < |m| && m[i].used
    ensures Add(m, hand, c, a).map'[i] == m[i].(clock := Add(m, hand, c, a).map'[i].clock)
  {
    TickKeepsKeys(m, hand);
  }

  // ---------- What lookups and updates do, field by field ----------

  /** A walk from h to e, wrapping behind the last slot, passes i. */
  predicate Passes(h: nat, e: nat, i: nat) {
    if h <= e then h <= i < e else h <= i || i < e
  }

  /** Slot i of m was unused and is the new entry; every other one keeps all but its ageing bit. */
  ghost predicate Created(m: seq<Entry>, after: seq<Entry>, i: nat, c: Compressed, a: U16) {
    && i < |m| == |after| && !m[i].used
    && after[i] == Entry(c, a, true, m[i].lockCnt, true, m[i].dupCounter, m[i].dupClock)
    && forall j :: 0 <= j < |m| && j != i ==> after[j] == m[j].(clock := after[j].clock)
  }

  lemma {:induction false} ProbeFindsFirst(m: seq<Entry>, g: Goal, h: nat, k: nat, i: nat)
    requires h < |m| && k <= |m| && Probe(m, g, h, k).Some? && i < |m|
    requires forall j :: 0 <= j < k ==> !Meets(m[ProbeAt(|m|, h, j)], g)
    requires Passes(h, Probe(m, g, h, k).value, i)
    ensures !Meets(m[i], g)
    decreases |m| - k
  {
    if Meets(m[ProbeAt(|m|, h, k)], g) {
      assert i == ProbeAt(|m|, h, if i >= h then i - h else i + |m| - h);
    } else {
      ProbeFindsFirst(m, g, h, k + 1, i);
    }
  }

  /** Slot e is the first used and unlocked one on a walk from the clock hand, which starts over at the end. */
  ghost predicate FirstEvictable(m: seq<Entry>, hand: nat, e: nat) {
    && e < |m| && m[e].used && m[e].lockCnt == 0
    && forall i :: 0 <= i < |m| && Passes(if hand == |m| then 0 else hand, e, i) ==> !(m[i].used && m[i].lockCnt == 0)
  }

  lemma VictimIsFirst(m: seq<Entry>, hand: nat, e: nat)
    requires hand <= |m| && FirstEvictable(m, hand, e)
    ensures Victim(m, hand) == Some(e)
  {
    var v, h := Victim(m, hand).value, if hand == |m| then 0 else hand;
    if Passes(h, v, e) {
      ProbeFindsFirst(m, Evictable, h, 0, e);
    }
    assert Passes(h, e, v) || Passes(h, v, e) || e == v;
  }

  /** A tick clears the ageing bit of that slot, and without one changes nothing. */
  lemma TickClearsFirst(m: seq<Entry>, hand: nat)
    requires hand <= |m| && |m| > 0
    ensures forall e: nat :: FirstEvictable(m, hand, e) ==> Tick(m, hand) == m[e := m[e].(clock := false)]
    ensures (forall i :: 0 <= i < |m| ==> !(m[i].used && m[i].lockCnt == 0)) ==> Tick(m, hand) == m
  {
    forall e: nat | FirstEvictable(m, hand, e) ensures Victim(m, hand) == Some(e) {
      VictimIsFirst(m, hand, e);
    }
  }

  /** Creating an entry: it fails exactly when all slots are used. Otherwise the entry, with a zero long
      address if none is known, takes the first unused slot from the hash of its long address on, or
      from slot 0. */
  lemma AddCreates(m: seq<Entry>, hand: nat, c: Option<Compressed>, a: U16)
    requires hand <= |m| && |m| > 0
    ensures var r := Add(m, hand, c, a);
      if forall i :: 0 <= i < |m| ==> m[i].used then r == AddResult(m, None)
      else
        && r.ref.Some? && Created(m, r.map', r.ref.value, if c.Some? then c.value else Compressed(0, [0, 0, 0, 0, 0]), a)
        && forall i :: 0 <= i < |m| && Passes(if c.Some? then Hash(c.value, |m|) else 0, r.ref.value, i) ==> m[i].used
  {
    TickKeepsKeys(m, hand);
    var r, h := Add(m, hand, c, a), if c.Some? then Hash(c.value, |m|) else 0;
    if r.ref.Some? {
      forall i | 0 <= i < |m| && Passes(h, r.ref.value, i) ensures m[i].used {
        ProbeFindsFirst(m, FreeSlot, h, 0, i);
      }
    }
  }

  /** Lookups depend on the holders of their key only. */
  lemma {:induction false} SameShortFound(m: seq<Entry>, after: seq<Entry>, a: U16, from: nat)
    requires |after| == |m| && from <= |m| && forall i :: 0 <= i < |m| ==> (HasShort(m[i], a) <==> HasShort(after[i], a))
    ensures ScanShort(after, a, from) == ScanShort(m, a, from)
    decreases |m| - from
  {
    if from < |m| {
      SameShortFound(m, after, a, from + 1);
    }
  }

  lemma {:induction false} SameProbeFound(m: seq<Entry>, after: seq<Entry>, g: Goal, h: nat, k: nat)
    requires |after| == |m| && h < |m| && k <= |m| && forall i :: 0 <= i < |m| ==> (Meets(m[i], g) <==> Meets(after[i], g))
    ensures Probe(after, g, h, k) == Probe(m, g, h, k)
    decreases |m| - k
  {
    if k < |m| {
      SameProbeFound(m, after, g, h, k + 1);
    }
  }

  lemma SameLongFound(m: seq<Entry>, after: seq<Entry>, c: Compressed)
    requires |after| == |m| > 0 && forall i :: 0 <= i < |m| ==> (HasLong(m[i], c) <==> HasLong(after[i], c))
    ensures FindLong(after, c) == FindLong(m, c)
  {
    SameProbeFound(m, after, LongAddress(c), Hash(c, |m|), 0);
  }

  /** A new entry is found under both its keys, and every other key where it was. */
  lemma CreatedIsFound(m: seq<Entry>, after: seq<Entry>, i: nat, c: Compressed, a: U16, b: U16, d: Compressed)
    requires Created(m, after, i, c, a)
    ensures FindShort(m, a).None? && a != NO_SHORT ==> FindShort(after, a) == Some(i)
    ensures FindLong(m, c).None? ==> FindLong(after, c) == Some(i)
    ensures b != a ==> FindShort(after, b) == FindShort(m, b)
    ensures d != c ==> FindLong(after, d) == FindLong(m, d)
  {
    if FindShort(m, a).None? && a != NO_SHORT {
      assert HasShort(after[i], a);
    }
    if FindLong(m, c).None? {
      assert HasLong(after[i], c);
    }
    if b != a { SameShortFound(m, after, b, 0); }
    if d != c { SameLongFound(m, after, d); }
  }

  /** The lookups find every key, but the two given, where it was. */
  ghost predicate OthersFound(m: seq<Entry>, after: seq<Entry>, c: Compressed, a: U16)
    requires |m| > 0 && |after| > 0
  {
    && (forall b: U16 :: b != a ==> FindShort(after, b) == FindShort(m, b))
    && (forall d: Compressed :: d != c ==> FindLong(after, d) == FindLong(m, d))
  }

  /** A lookup that met the entry in slot i: its ageing bit is set, with a lock it is locked once more, and
      nothing else changes. */
  ghost predicate FoundAt(m: seq<Entry>, after: seq<Entry>, i: nat, lock: bool) {
    && i < |m| == |after|
    && after[i].lockCnt == m[i].lockCnt + (if lock then 1 else 0)
    && after[i] == m[i].(clock := true, lockCnt := after[i].lockCnt)
    && forall j :: 0 <= j < |m| && j != i ==> after[j] == m[j]
  }

  /** A lookup that created the entry in slot i, for it was unused. */
  ghost predicate CreatedAt(m: seq<Entry>, after: seq<Entry>, i: nat, c: Compressed, a: U16, lock: bool)
    requires |m| > 0
  {
    && i < |m| == |after| && !m[i].used
    && after[i].lockCnt == m[i].lockCnt + (if lock then 1 else 0)
    && after[i] == Entry(c, a, true, after[i].lockCnt, true, m[i].dupCounter, m[i].dupClock)
    && (forall j :: 0 <= j < |m| && j != i ==> after[j] == m[j].(clock := after[j].clock))
    && OthersFound(m, after, c, a)
  }

  ghost predicate AllUsed(m: seq<Entry>) {
    forall i :: 0 <= i < |m| ==> m[i].used
  }

  /** What a lookup by short address promises: a known address is found where the search finds it; an
      unknown one is left unknown unless it is to be created and a slot is free; then it is found in that
      slot from now on. */
  ghost predicate ShortLookup(m: seq<Entry>, after: seq<Entry>, ref: Option<nat>, a: U16, create: bool, lock: bool)
    requires |m| > 0
  {
    var known := FindShort(m, a);
    if known.Some? then ref == known && FoundAt(m, after, known.value, lock)
    else if !create || AllUsed(m) then ref == None && after == m
    else
      && ref.Some? && CreatedAt(m, after, ref.value, Compressed(0, [0, 0, 0, 0, 0]), a, lock)
      && (a != 0xFFFF ==> FindShort(after, a) == ref)
  }

  /** And one by long address. */
  ghost predicate LongLookup(m: seq<Entry>, after: seq<Entry>, ref: Option<nat>, c: Compressed, create: bool, lock: bool)
    requires |m| > 0
  {
    var known := FindLong(m, c);
    if known.Some? then ref == known && FoundAt(m, after, known.value, lock)
    else if !create || AllUsed(m) then ref == None && after == m
    else ref.Some? && CreatedAt(m, after, ref.value, c, 0xFFFF, lock) && FindLong(after, c) == ref
  }

  lemma LockedCreation(m: seq<Entry>, r: AddResult, c: Compressed, a: U16, lock: bool)
    requires r.ref.Some? && Created(m, r.map', r.ref.value, c, a) && (lock ==> Lockable(r))
    ensures CreatedAt(m, Locked(r, lock).map', r.ref.value, c, a, lock)
    ensures FindShort(m, a).None? && a != NO_SHORT ==> FindShort(Locked(r, lock).map', a) == r.ref
    ensures FindLong(m, c).None? ==> FindLong(Locked(r, lock).map', c) == r.ref
  {
    var after := Locked(r, lock).map';
    LockKeepsLookups(r, lock);
    CreatedIsFound(m, r.map', r.ref.value, c, a, a, c);
    forall b: U16 | b != a ensures FindShort(after, b) == FindShort(m, b) {
      CreatedIsFound(m, r.map', r.ref.value, c, a, b, c);
    }
    forall d: Compressed | d != c ensures FindLong(after, d) == FindLong(m, d) {
      CreatedIsFound(m, r.map', r.ref.value, c, a, a, d);
    }
  }

  lemma LockKeepsLookups(r: AddResult, lock: bool)
    requires r.ref.Some? && r.ref.value < |r.map'| && (lock ==> Lockable(r))
    ensures forall b: U16 :: FindShort(Locked(r, lock).map', b) == FindShort(r.map', b)
    ensures forall d: Compressed :: FindLong(Locked(r, lock).map', d) == FindLong(r.map', d)
  {
    var after := Locked(r, lock).map';
    forall b: U16 ensures FindShort(after, b) == FindShort(r.map', b) {
      SameShortFound(r.map', after, b, 0);
    }
    forall d: Compressed ensures FindLong(after, d) == FindLong(r.map', d) {
      SameLongFound(r.map', after, d);
    }
  }

  lemma ByShortLooksUp(m: seq<Entry>, hand: nat, a: U16, create: bool, lock: bool)
    requires hand <= |m| && |m| > 0 && (lock ==> Lockable(ByShort(m, hand, a, create)))
    ensures var r := Locked(ByShort(m, hand, a, create), lock); ShortLookup(m, r.map', r.ref, a, create, lock)
  {
    if FindShort(m, a).None? && create {
      AddCreates(m, hand, None, a);
      if !AllUsed(m) {
        LockedCreation(m, ByShort(m, hand, a, create), ZERO_LONG, a, lock);
      }
    }
  }

  lemma ByIeeeLooksUp(m: seq<Entry>, hand: nat, c: Compressed, create: bool, lock: bool)
    requires hand <= |m| && |m| > 0 && (lock ==> Lockable(ByIeee(m, hand, c, create)))
    ensures var r := Locked(ByIeee(m, hand, c, create), lock); LongLookup(m, r.map', r.ref, c, create, lock)
  {
    if FindLong(m, c).None? && create {
      AddCreates(m, hand, Some(c), NO_SHORT);
      if !AllUsed(m) {
        LockedCreation(m, ByIeee(m, hand, c, create), c, NO_SHORT, lock);
      }
    }
  }

  /** A lock counts up, and unlocking takes it back; the ageing bit stays set. */
  lemma UnlockUndoesLock(m: seq<Entry>, r: nat)
    requires r < |m| && m[r].lockCnt < 15
    ensures FoundAt(m, Lock(m, r), r, true)
    ensures Lock(m, r)[r].lockCnt > 0 && Unlock(Lock(m, r), r) == m[r := m[r].(clock := true)]
  {
  }

  /** Which entries an update changes: with a pair of known keys, the entry kept takes both and the loser of a
      conflict goes, and nothing else changes. The short address's entry is kept if it is locked or
      the only one. */
  lemma UpdateChanges(m: seq<Entry>, hand: nat, c: Compressed, a: U16)
    requires hand <= |m| && |m| > 0 && (FindShort(m, a).Some? || FindLong(m, c).Some?)
    ensures var r, s, l := Update(m, hand, c, a), FindShort(m, a), FindLong(m, c);
      var conflict := s.Some? && l.Some? && s != l;
      && r.ref == (if s.None? || (conflict && m[s.value].lockCnt == 0) then l else s)
      && (forall i :: 0 <= i < |m| ==>
            if r.ref == Some(i) then r.map'[i] == m[i].(ieee := c, addr := a, clock := true)
            else if conflict && (s == Some(i) || l == Some(i)) && m[i].lockCnt == 0 then r.map'[i] == m[i].(used := false)
            else r.map'[i] == m[i])
  {
  }

  // ---------- Runs ----------

  /** One call from outside. The clock hand's position is arbitrary: it only picks whose ageing bit
      an insertion clears. */
  datatype Op =
    | OpByIeee(c: Compressed, create: bool, hand: nat)
    | OpByShort(a: U16, create: bool, hand: nat)
    | OpUpdate(c: Compressed, a: U16, hand: nat)
    | OpDelete(ref: nat)
    | OpLock(ref: nat)
    | OpUnlock(ref: nat)

  /** What the source asserts or asks of its callers. */
  predicate Legal(m: seq<Entry>, op: Op)
    requires |m| > 0
  {
    match op
    case OpByIeee(_, _, hand) => hand <= |m|
    case OpByShort(_, _, hand) => hand <= |m|
    case OpUpdate(c, a, hand) => hand <= |m| && a != NO_SHORT && !LockedConflict(m, c, a)
    case OpDelete(ref) => ref < |m| && m[ref].used
    case OpLock(ref) => ref < |m| && m[ref].lockCnt < 15
    case OpUnlock(ref) => ref < |m| && m[ref].lockCnt > 0
  }

  function Step(m: seq<Entry>, op: Op): (m': seq<Entry>)
    requires |m| > 0 && Legal(m, op)
    ensures |m'| == |m|
  {
    match op
    case OpByIeee(c, create, hand) => ByIeee(m, hand, c, create).map'
    case OpByShort(a, create, hand) => ByShort(m, hand, a, create).map'
    case OpUpdate(c, a, hand) => Update(m, hand, c, a).map'
    case OpDelete(ref) => Delete(m, ref)
    case OpLock(ref) => Lock(m, ref)
    case OpUnlock(ref) => Unlock(m, ref)
  }

  predicate LegalRun(m: seq<Entry>, ops: seq<Op>)
    requires |m| > 0
    decreases |ops|
  {
    ops != [] ==> Legal(m, ops[0]) && LegalRun(Step(m, ops[0]), ops[1..])
  }

  function Run(m: seq<Entry>, ops: seq<Op>): (m': seq<Entry>)
    requires |m| > 0 && LegalRun(m, ops)
    ensures |m'| == |m|
    decreases |ops|
  {
    if ops == [] then m else Run(Step(m, ops[0]), ops[1..])
  }

  lemma StepKeepsUniqueKeys(m: seq<Entry>, op: Op)
    requires |m| > 0 && UniqueKeys(m) && Legal(m, op)
    ensures UniqueKeys(Step(m, op))
  {
    match op
    case OpByIeee(c, create, hand) =>
      if FindLong(m, c).None? && create {
        AddKeepsUniqueKeys(m, hand, Some(c), NO_SHORT);
      } else {
        OneChangeKeepsUnique(m, Step(m, op), |m|);
      }
    case OpByShort(a, create, hand) =>
      if FindShort(m, a).None? && create {
        AddKeepsUniqueKeys(m, hand, None, a);
      } else {
        OneChangeKeepsUnique(m, Step(m, op), |m|);
      }
    case OpUpdate(c, a, hand) => UpdateKeepsUniqueKeysIff(m, hand, c, a);
    case OpDelete(ref) => DeleteKeepsUniqueKeys(m, ref);
    case OpLock(ref) => OneChangeKeepsUnique(m, Lock(m, ref), |m|);
    case OpUnlock(ref) => OneChangeKeepsUnique(m, Unlock(m, ref), |m|);
  }

  /** Every legal run, of any length, keeps short and long addresses unique. */
  lemma {:induction false} RunKeepsUniqueKeys(m: seq<Entry>, ops: seq<Op>)
    requires |m| > 0 && UniqueKeys(m) && LegalRun(m, ops)
    ensures UniqueKeys(Run(m, ops))
    decreases |ops|
  {
    if ops != [] {
      StepKeepsUniqueKeys(m, ops[0]);
      RunKeepsUniqueKeys(Step(m, ops[0]), ops[1..]);
    }
  }

  lemma StepKeepsLocked(m: seq<Entry>, op: Op, i: nat)
    requires |m| > 0 && Legal(m, op) && i < |m| && m[i].used && m[i].lockCnt > 0
    requires op != OpDelete(i) && op != OpUnlock(i)
    ensures Step(m, op)[i].used && Step(m, op)[i].lockCnt >= m[i].lockCnt
  {
    match op
    case OpByIeee(c, create, hand) => AddKeepsEntry(m, hand, Some(c), NO_SHORT, i);
    case OpByShort(a, create, hand) => AddKeepsEntry(m, hand, None, a, i);
    case OpUpdate(c, a, hand) => UpdateNeverEvictsLocked(m, hand, c, a, i);
    case OpDelete(ref) =>
    case OpLock(ref) =>
    case OpUnlock(ref) =>
  }

  /** What a lock is for: as long as nobody unlocks or deletes it explicitly, a locked reference
      stays allocated through any run of lookups, insertions and updates. */
  lemma {:induction false} RunKeepsLocked(m: seq<Entry>, ops: seq<Op>, i: nat)
    requires |m| > 0 && LegalRun(m, ops) && i < |m| && m[i].used && m[i].lockCnt > 0
    requires OpDelete(i) !in ops && OpUnlock(i) !in ops
    ensures Run(m, ops)[i].used && Run(m, ops)[i].lockCnt >= m[i].lockCnt
    decreases |ops|
  {
    if ops != [] {
      StepKeepsLocked(m, ops[0], i);
      RunKeepsLocked(Step(m, ops[0]), ops[1..], i);
    }
  }
}
