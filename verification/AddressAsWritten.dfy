/** del_short_sorted exactly as zb_address.c has it: the block move is one element too long, so
    the slot after the live range is pulled in and looked at by the same scan. */
module AddressAsWritten {
  import opened Prelude
  import opened AddressTables
  import Memory

  datatype Deletion = Deletion(slots: seq<nat>, n: int)

  /** The scan from position i, with dec matches so far. The slot s[n] after the live range is
      whatever an earlier deletion left there, or the byte after the array when it is full. */
  function ScanAsWritten(s: seq<nat>, n: nat, ref: nat, i: nat, dec: nat): Deletion
    requires n < |s|
    decreases n - i
  {
    if i >= n then Deletion(s, n - dec)
    else if s[i] == ref then
      ScanAsWritten(if i != n - 1 then s[..i] + s[i + 1..n + 1] + s[n..] else s, n, ref, i + 1, dec + 1)
    else ScanAsWritten(s, n, ref, i + 1, dec)
  }

  lemma {:induction false} ScanSkips(s: seq<nat>, n: nat, ref: nat, i: nat, j: nat, dec: nat)
    requires i <= j <= n < |s|
    requires forall k :: i <= k < j ==> s[k] != ref
    ensures ScanAsWritten(s, n, ref, i, dec) == ScanAsWritten(s, n, ref, j, dec)
    decreases j - i
  {
    if i < j {
      ScanSkips(s, n, ref, i + 1, j, dec);
    }
  }

  /** What the scan returns when the reference is listed at position k. */
  lemma ScanMeets(s: seq<nat>, n: nat, ref: nat, k: nat)
    requires k < n < |s| && Distinct(s[..n]) && s[k] == ref
    ensures var t := if k != n - 1 then s[..k] + s[k + 1..n + 1] + s[n..] else s;
            ScanAsWritten(s, n, ref, 0, 0)
            == Deletion(t, n - (if k != n - 1 && s[n] == ref then 2 else 1))
  {
    assert forall j :: 0 <= j < n && j != k ==> s[..n][j] != s[..n][k];
    ScanSkips(s, n, ref, 0, k, 0);
    if k != n - 1 {
      var t := s[..k] + s[k + 1..n + 1] + s[n..];
      assert t[n - 1] == s[n];
      forall j | k + 1 <= j < n - 1 ensures t[j] != ref {
        assert t[j] == s[j + 1];
      }
      ScanSkips(t, n, ref, k + 1, n - 1, 1);
    }
  }

  /** The scan left exactly the live references other than ref. */
  predicate DeletedOne(s: seq<nat>, n: nat, ref: nat)
    requires n < |s|
  {
    var d := ScanAsWritten(s, n, ref, 0, 0);
    0 <= d.n <= |d.slots| && d.slots[..d.n] == Without(s[..n], ref)
  }

  lemma DeletesListed(s: seq<nat>, n: nat, ref: nat, k: nat)
    requires k < n < |s| && Distinct(s[..n]) && s[k] == ref
    ensures DeletedOne(s, n, ref) <==> (k == n - 1 || s[n] != ref)
  {
    ScanMeets(s, n, ref, k);
    var t := if k != n - 1 then s[..k] + s[k + 1..n + 1] + s[n..] else s;
    WithoutListed(s, n, ref, k, t);
  }

  /** The first n - 1 slots after the move are the live references other than ref. */
  lemma WithoutListed(s: seq<nat>, n: nat, ref: nat, k: nat, t: seq<nat>)
    requires k < n < |s| && Distinct(s[..n]) && s[k] == ref
    requires t == if k != n - 1 then s[..k] + s[k + 1..n + 1] + s[n..] else s
    ensures t[..n - 1] == Without(s[..n], ref)
  {
    assert s[..n][k] == ref;
    IndexIs(s[..n], k);
    FrontOfMove(s, n, k, t);
  }

  lemma IndexIs(s: seq<nat>, k: nat)
    requires Distinct(s) && k < |s|
    ensures IndexOf(s, s[k]) == k
  {
  }

  lemma FrontOfMove(s: seq<nat>, n: nat, k: nat, t: seq<nat>)
    requires k < n < |s| && t == if k != n - 1 then s[..k] + s[k + 1..n + 1] + s[n..] else s
    ensures t[..n - 1] == Cut(s[..n], k)
  {
    CutAt(s[..n], k, Cut(s[..n], k));
  }

  /** Exactly when the text as written still removes just the one reference: the reference is not
      listed, or it is listed last, or the slot after the live range does not hold it too. */
  lemma DeletesOneIff(s: seq<nat>, n: nat, ref: nat)
    requires n < |s| && Distinct(s[..n])
    ensures DeletedOne(s, n, ref) <==> (ref !in s[..n] || s[n - 1] == ref || s[n] != ref)
  {
    if ref in s[..n] {
      var k := IndexOf(s[..n], ref);
      assert s[..n][k] == s[k] && s[..n][n - 1] == s[n - 1];
      DeletesListed(s, n, ref, k);
    } else {
      forall k | 0 <= k < n ensures s[k] != ref {
        assert s[..n][k] == s[k];
      }
      ScanSkips(s, n, ref, 0, n, 0);
    }
  }

  /** A zeroed table holding references 0 and 1: deleting reference 0 loses reference 1 as well. */
  lemma ZeroedTableLosesBoth()
    ensures ScanAsWritten([0, 1, 0], 2, 0, 0, 0).n == 0
  {
    ScanMeets([0, 1, 0], 2, 0, 0);
  }

  /** The loop as written. `slots` includes the one element the overlong move reads. */
  method DelShortSorted(slots: array<nat>, n: nat, ref: nat) returns (n': int)
    requires n < slots.Length
    modifies slots
    ensures Deletion(slots[..], n') == ScanAsWritten(old(slots[..]), n, ref, 0, 0)
  {
    var dec := 0;
    for i := 0 to n
      invariant ScanAsWritten(slots[..], n, ref, i, dec) == ScanAsWritten(old(slots[..]), n, ref, 0, 0)
    {
      if slots[i] == ref {
        dec := dec + 1;
        if i != n - 1 {
          ghost var s := slots[..];
          Memory.Move(slots, i, i + 1, n - i);
          assert slots[..] == s[..i] + s[i + 1..n + 1] + s[n..];
        }
      }
    }
    n' := n - dec;
  }
}
