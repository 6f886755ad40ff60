/** Three lists over a fixed pool of entries, each entry on exactly one of them and there once. */
module Partitions {
  import opened Prelude

  datatype ThreeLists<T> = ThreeLists(first: seq<T>, second: seq<T>, third: seq<T>, pool: set<T>)

  /** How often x is on the lists. */
  ghost function Count<T>(p: ThreeLists<T>, x: T): nat {
    multiset(p.first)[x] + multiset(p.second)[x] + multiset(p.third)[x]
  }

  /** Every entry of the pool is on the lists once, which leaves no room for any other. */
  ghost predicate Divide<T>(p: ThreeLists<T>) {
    && |p.first| + |p.second| + |p.third| == |p.pool|
    && forall x {:trigger Count(p, x)} | x in p.pool :: Count(p, x) == 1
  }

  type Partition<T> = p: ThreeLists<T> | Divide(p) ghost witness ThreeLists([], [], [], {})

  ghost function Total<T>(p: ThreeLists<T>): multiset<T> {
    multiset(p.first) + multiset(p.second) + multiset(p.third)
  }

  /** Counted with repetition, the lists together are the pool. */
  lemma TotalIsPool<T>(p: Partition<T>)
    ensures Total(p) == multiset(p.pool)
  {
    var m, all := Total(p), multiset(p.pool);
    assert |all| == |p.pool| && |m| == |all|;
    forall x | x in p.pool ensures m[x] == 1 {
      assert Count(p, x) == 1;
    }
    assert all <= m && m == all + (m - all);
    assert |m - all| == 0;
  }

  lemma TotalDivides<T>(p: ThreeLists<T>)
    requires Total(p) == multiset(p.pool)
    ensures Divide(p)
  {
    assert |Total(p)| == |p.pool|;
    forall x | x in p.pool ensures Count(p, x) == 1 {
      assert Total(p)[x] == multiset(p.pool)[x];
    }
  }

  lemma SplicedCount<T>(q: seq<T>, k: nat, x: T)
    requires k <= |q|
    ensures multiset(Spliced(q, k, x)) == multiset(q) + multiset{x}
  {
    SplicedIs(q, k, x);
    assert q == q[..k] + q[k..];
  }

  lemma CutCount<T>(q: seq<T>, k: nat)
    requires k < |q|
    ensures multiset(q) == multiset(Cut(q, k)) + multiset{q[k]}
  {
    assert q == q[..k] + [q[k]] + q[k + 1..];
  }

  lemma HeadCount<T>(q: seq<T>)
    requires q != []
    ensures multiset(q) == multiset(q[1..]) + multiset{q[0]}
  {
    assert q == [q[0]] + q[1..];
  }

  lemma OnceEach<T>(q: seq<T>)
    requires forall x :: multiset(q)[x] <= 1
    ensures Distinct(q)
  {
    forall i, j | 0 <= i < j < |q| ensures q[i] != q[j] {
      assert q == q[..j] + [q[j]] + q[j + 1..];
      assert q[i] == q[..j][i];
      assert q[i] in multiset(q[..j]);
      assert multiset(q)[q[j]] <= 1;
    }
  }

  lemma PartitionCount<T>(p: Partition<T>)
    ensures forall x :: multiset(p.first)[x] + multiset(p.second)[x] + multiset(p.third)[x] == if x in p.pool then 1 else 0
  {
    TotalIsPool(p);
    forall x ensures multiset(p.first)[x] + multiset(p.second)[x] + multiset(p.third)[x] == if x in p.pool then 1 else 0 {
      assert multiset(p.pool)[x] == Total(p)[x];
    }
  }

  /** What a partition is for: no entry is on two lists, */
  lemma PartitionApart<T>(p: Partition<T>)
    ensures Apart(p.first, p.second) && Apart(p.first, p.third) && Apart(p.second, p.third)
  {
    PartitionCount(p);
    ListsApart(p.first, p.second);
    ListsApart(p.first, p.third);
    ListsApart(p.second, p.third);
  }

  /** or on one list twice, */
  lemma PartitionDistinct<T>(p: Partition<T>)
    ensures Distinct(p.first) && Distinct(p.second) && Distinct(p.third)
  {
    PartitionCount(p);
    OnceEach(p.first);
    OnceEach(p.second);
    OnceEach(p.third);
  }

  /** and none is lost. */
  lemma PartitionCovers<T>(p: Partition<T>)
    ensures forall x :: x in p.pool <==> x in p.first || x in p.second || x in p.third
    ensures |p.first| + |p.second| + |p.third| == |p.pool|
  {
    PartitionCount(p);
    forall x ensures x in p.pool <==> x in p.first || x in p.second || x in p.third {
      assert x in p.first <==> multiset(p.first)[x] > 0;
      assert x in p.second <==> multiset(p.second)[x] > 0;
      assert x in p.third <==> multiset(p.third)[x] > 0;
    }
  }

  lemma PartitionWithin<T>(p: Partition<T>)
    ensures forall x :: x in p.first ==> x in p.pool
    ensures forall x :: x in p.second ==> x in p.pool
    ensures forall x :: x in p.third ==> x in p.pool
  {
    PartitionCovers(p);
  }

  lemma ListsApart<T>(q: seq<T>, r: seq<T>)
    requires forall x :: multiset(q)[x] + multiset(r)[x] <= 1
    ensures Apart(q, r)
  {
    forall i, j | 0 <= i < |q| && 0 <= j < |r| ensures q[i] != r[j] {
      assert q[i] in multiset(q) && r[j] in multiset(r);
      assert multiset(q)[q[i]] + multiset(r)[q[i]] <= 1;
    }
  }

  /** q backwards, as a stack holds what was pushed in the order of q. */
  ghost function Backwards<T>(q: seq<T>): (r: seq<T>)
    ensures |r| == |q| && forall i :: 0 <= i < |q| ==> r[i] == q[|q| - 1 - i]
    ensures multiset(r) == multiset(q)
  {
    if q == [] then [] else
      assert q == [q[0]] + q[1..];
      Backwards(q[1..]) + [q[0]]
  }

  lemma {:induction false} DistinctCount<T>(q: seq<T>)
    requires Distinct(q)
    ensures multiset(q) == multiset(Elements(q))
  {
    if q != [] {
      var last := |q| - 1;
      DistinctCount(q[..last]);
      assert q == q[..last] + [q[last]];
      assert Elements(q) == Elements(q[..last]) + {q[last]};
      assert q[last] !in q[..last];
    }
  }
}
