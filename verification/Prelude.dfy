/** Small vocabulary shared by the other modules. */
module Prelude {

  datatype Option<+T> = None | Some(value: T)

  /** Fixed-width unsigned integers of the C code. */
  type U8 = x: int | 0 <= x < 0x100
  type U16 = x: int | 0 <= x < 0x1_0000

  function AtLeastOne(n: nat): nat {
    if n == 0 then 1 else n
  }

  ghost predicate Distinct<T>(s: seq<T>) {
    forall i, j :: 0 <= i < j < |s| ==> s[i] != s[j]
  }

  ghost predicate Apart<T>(s: seq<T>, t: seq<T>) {
    forall i, j :: 0 <= i < |s| && 0 <= j < |t| ==> s[i] != t[j]
  }

  ghost function Elements<T>(s: seq<T>): set<T> {
    set x | x in s
  }

  /** A repetition-free sequence has as many elements as positions. */
  lemma {:induction false} DistinctCardinality<T>(s: seq<T>)
    requires Distinct(s)
    ensures |Elements(s)| == |s|
  {
    if s != [] {
      var last := |s| - 1;
      DistinctCardinality(s[..last]);
      assert Elements(s) == Elements(s[..last]) + {s[last]};
    }
  }

  lemma SubsetCardinality<T>(a: set<T>, b: set<T>)
    requires a <= b
    ensures |a| <= |b|
    ensures |a| == |b| ==> a == b
  {
    assert b == a + (b - a);
  }

  /** The numbers below n. */
  ghost function Below(n: nat): (s: set<nat>)
    ensures |s| == n
    ensures forall i: nat :: i in s <==> i < n
  {
    if n == 0 then {} else Below(n - 1) + {n - 1}
  }

  /** Pigeonhole: distinct numbers below n are at most n many. */
  lemma Pigeonhole(s: seq<nat>, n: nat)
    requires Distinct(s)
    requires forall k :: 0 <= k < |s| ==> s[k] < n
    ensures |s| <= n
  {
    DistinctCardinality(s);
    SubsetCardinality(Elements(s), Below(n));
  }

  /** q with x put in at k. */
  function Spliced<T>(q: seq<T>, k: nat, x: T): (r: seq<T>)
    requires k <= |q|
    ensures |r| == |q| + 1
  {
    seq(|q| + 1, i requires 0 <= i <= |q| => if i < k then q[i] else if i == k then x else q[i - 1])
  }

  lemma SplicedIs<T>(q: seq<T>, k: nat, x: T)
    requires k <= |q|
    ensures Spliced(q, k, x) == q[..k] + [x] + q[k..]
  {
  }

  lemma SplicedAt<T>(q: seq<T>, k: nat, x: T, r: seq<T>)
    requires k <= |q| && r == Spliced(q, k, x)
    ensures forall i :: 0 <= i <= |q| ==> r[i] == if i < k then q[i] else if i == k then x else q[i - 1]
    ensures Distinct(q) && x !in q ==> Distinct(r)
  {
    forall i | 0 <= i <= |q| ensures r[i] == if i < k then q[i] else if i == k then x else q[i - 1] {
    }
  }

  /** q without its k-th element. */
  function Cut<T>(q: seq<T>, k: nat): (r: seq<T>)
    requires k < |q|
    ensures |r| == |q| - 1
  {
    q[..k] + q[k + 1..]
  }

  lemma CutAt<T>(q: seq<T>, k: nat, r: seq<T>)
    requires k < |q| && r == Cut(q, k)
    ensures forall i :: 0 <= i < |r| ==> r[i] == if i < k then q[i] else q[i + 1]
    ensures Distinct(q) ==> Distinct(r) && q[k] !in r
  {
    forall i | 0 <= i < |r| ensures r[i] == if i < k then q[i] else q[i + 1] {
    }
  }

  /** Passing over, or dropping, the first element behind a prefix. */
  lemma SplitAt<T>(kept: seq<T>, rest: seq<T>)
    requires rest != []
    ensures (kept + rest)[..|kept|] + (kept + rest)[|kept| + 1..] == kept + rest[1..]
    ensures kept + rest == kept + [rest[0]] + rest[1..]
  {
    assert (kept + rest)[..|kept|] == kept;
    assert (kept + rest)[|kept| + 1..] == rest[1..];
    assert rest == [rest[0]] + rest[1..];
  }

  lemma Reassociate<T>(a: seq<T>, b: seq<T>, c: seq<T>)
    ensures (a + b) + c == a + (b + c)
  {
  }
}
