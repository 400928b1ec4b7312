/** The arithmetic of bucket counts behind online doubling in uthash.h. */
module HashLoad {
  import opened Bits
  import opened Links

  const INITIAL_NUM_BUCKETS := 32
  const INITIAL_NUM_BUCKETS_LOG2 := 5
  const BKT_CAPACITY_THRESH := 10

  datatype Bucket<T> = Bucket(hhHead: Node?<T>, count: nat, expandMult: nat)

  function Count<T>(b: Bucket<T>): nat { b.count }

  function Mult<T>(b: Bucket<T>): nat { b.expandMult }

  /** The items of a bucket beyond the ideal chain length. */
  function Excess<T>(ideal: nat): Bucket<T> -> nat {
    (b: Bucket<T>) => if b.count > ideal then b.count - ideal else 0
  }

  /** f added up over a sequence: of buckets, or of their chains. */
  function Total<A>(f: A -> nat, bs: seq<A>): nat {
    if |bs| == 0 then 0 else Total(f, bs[..|bs| - 1]) + f(bs[|bs| - 1])
  }

  lemma TotalAppend<A>(f: A -> nat, bs: seq<A>, b: A)
    ensures Total(f, bs + [b]) == Total(f, bs) + f(b)
  {
    assert (bs + [b])[..|bs|] == bs;
  }

  lemma {:induction false} TotalConcat<A>(f: A -> nat, a: seq<A>, b: seq<A>)
    ensures Total(f, a + b) == Total(f, a) + Total(f, b)
  {
    if |b| == 0 {
      assert a + b == a;
    } else {
      assert (a + b)[..|a + b| - 1] == a + b[..|b| - 1];
      TotalConcat(f, a, b[..|b| - 1]);
    }
  }

  lemma {:induction false} TotalUpdate<A>(f: A -> nat, bs: seq<A>, i: nat, b: A)
    requires i < |bs|
    ensures Total(f, bs[i := b]) + f(bs[i]) == Total(f, bs) + f(b)
  {
    if i == |bs| - 1 {
      assert bs[i := b][..i] == bs[..i];
    } else {
      assert bs[i := b][..|bs| - 1] == bs[..|bs| - 1][i := b];
      TotalUpdate(f, bs[..|bs| - 1], i, b);
    }
  }

  lemma CountWithin<T>(bs: seq<Bucket<T>>, i: nat)
    requires i < |bs|
    ensures bs[i].count <= Total(Count, bs)
  {
    TotalUpdate(Count, bs, i, bs[i].(count := 0));
  }

  /** The items beyond the ideal length, counted one by one: bucket b contributes the positions ideal, ..., count - 1. */
  lemma {:induction false} ExcessIsBeyond<T>(bs: seq<Bucket<T>>, ideal: nat)
    ensures |set b, i | 0 <= b < |bs| && ideal <= i < bs[b].count :: (b, i)| == Total(Excess(ideal), bs)
  {
    var all := set b, i | 0 <= b < |bs| && ideal <= i < bs[b].count :: (b, i);
    if |bs| > 0 {
      var n, last := |bs| - 1, bs[|bs| - 1];
      ExcessIsBeyond(bs[..n], ideal);
      var before := set b, i | 0 <= b < n && ideal <= i < bs[..n][b].count :: (b, i);
      PairsFrom(n, ideal, last.count);
      assert forall b :: 0 <= b < n ==> bs[..n][b] == bs[b];
      assert all == before + set i | ideal <= i < last.count :: (n, i);
    } else {
      assert all == {};
    }
  }

  lemma {:induction false} PairsFrom(n: nat, lo: nat, hi: nat)
    ensures |set i | lo <= i < hi :: (n, i)| == if hi > lo then hi - lo else 0
  {
    if hi > lo {
      PairsFrom(n, lo, hi - 1);
      assert (set i | lo <= i < hi :: (n, i)) == (set i | lo <= i < hi - 1 :: (n, i)) + {(n, hi - 1)};
    } else {
      assert (set i | lo <= i < hi :: (n, i)) == {};
    }
  }

  lemma {:induction false} TotalZero<A>(f: A -> nat, bs: seq<A>)
    requires forall b :: b in bs ==> f(b) == 0
    ensures Total(f, bs) == 0
  {
    if |bs| > 0 {
      TotalZero(f, bs[..|bs| - 1]);
    }
  }

  lemma {:induction false} TotalScaled<A>(f: A -> nat, g: A -> nat, k: nat, bs: seq<A>)
    requires forall b :: b in bs ==> k * f(b) <= g(b)
    ensures k * Total(f, bs) <= Total(g, bs)
  {
    if |bs| > 0 {
      var rest, last := bs[..|bs| - 1], bs[|bs| - 1];
      TotalScaled(f, g, k, rest);
      assert k * (Total(f, rest) + f(last)) == k * Total(f, rest) + k * f(last);
    }
  }

  /** What adding to a bucket without doubling leaves true of it. */
  ghost predicate WithinThreshold<T>(b: Bucket<T>) {
    if b.expandMult == 0 then b.count <= BKT_CAPACITY_THRESH
    else b.count < BKT_CAPACITY_THRESH * (b.expandMult + 1)
  }

  /** The joint invariant of a table that may still double. */
  ghost predicate Balanced<T>(bs: seq<Bucket<T>>) {
    && |bs| > 0
    && Total(Mult, bs) <= |bs|
    && forall i :: 0 <= i < |bs| ==> WithinThreshold(bs[i])
  }

  lemma {:induction false} ThresholdTotal<T>(bs: seq<Bucket<T>>)
    requires forall i :: 0 <= i < |bs| ==> WithinThreshold(bs[i])
    ensures Total(Count, bs) + (if Total(Mult, bs) > 0 then 1 else 0)
            <= BKT_CAPACITY_THRESH * |bs| + BKT_CAPACITY_THRESH * Total(Mult, bs)
  {
    if |bs| > 0 {
      ThresholdTotal(bs[..|bs| - 1]);
      assert WithinThreshold(bs[|bs| - 1]);
    }
  }

  /** Fewer than 20 items per bucket. */
  lemma LoadBound<T>(bs: seq<Bucket<T>>)
    requires Balanced(bs)
    ensures Total(Count, bs) < 20 * |bs|
  {
    ThresholdTotal(bs);
  }

  /** The expand_mult a doubling leaves in a bucket. */
  function MultAfter(count: nat, ideal: nat): nat
    requires ideal > 0
  {
    if count > ideal then count / ideal else 0
  }

  /** The whole number of ideal chains in an over-full bucket, and nothing in any other. */
  lemma MultAfterIs(count: nat, ideal: nat)
    requires ideal > 0
    ensures MultAfter(count, ideal) == if count > ideal then count / ideal else 0
  {
  }

  lemma MultAfterBounds(count: nat, ideal: nat)
    requires 0 < ideal <= BKT_CAPACITY_THRESH
    ensures ideal * MultAfter(count, ideal) <= count
    ensures if MultAfter(count, ideal) == 0 then count <= BKT_CAPACITY_THRESH
            else count < BKT_CAPACITY_THRESH * (MultAfter(count, ideal) + 1)
  {
    if count > ideal {
      var q, r := DivideInto(count, ideal);
      QuotientUnique(count, ideal, q, r);
      MulLess(0, q, ideal);
      Distribute(q, 1, ideal);
      Commute(q, ideal);
      Commute(q + 1, ideal);
      AtMostTimes(ideal, BKT_CAPACITY_THRESH, q + 1);
    }
  }

  lemma Commute(a: nat, b: nat)
    ensures a * b == b * a
  {
  }

  lemma AtMostTimes(a: nat, b: nat, k: nat)
    requires a <= b
    ensures a * k <= b * k
  {
    MulLess(a, b, k);
  }

  /** A doubling of a table with at most 20 items per old bucket restores the joint invariant. */
  lemma DoublingBalances<T>(bs: seq<Bucket<T>>, ideal: nat)
    requires |bs| > 0 && 0 < Total(Count, bs) <= BKT_CAPACITY_THRESH * |bs|
    requires ideal == CeilDiv(Total(Count, bs), |bs|)
    requires ideal > 0 && forall i :: 0 <= i < |bs| ==> bs[i].expandMult == MultAfter(bs[i].count, ideal)
    ensures ideal <= BKT_CAPACITY_THRESH && Balanced(bs)
  {
    hide Total, CeilDiv, MultAfter;
    var n, m, t := Total(Count, bs), |bs|, Total(Mult, bs);
    CeilDivBounds(n, m);
    AtMost(m, ideal - 1, BKT_CAPACITY_THRESH, n);
    forall i | 0 <= i < m
      ensures WithinThreshold(bs[i]) && ideal * bs[i].expandMult <= bs[i].count
    {
      MultAfterBounds(bs[i].count, ideal);
    }
    TotalScaled(Mult, Count, ideal, bs);
    NotMore(m, t, ideal, n);
  }

  lemma NotMore(m: nat, t: nat, ideal: nat, n: nat)
    requires ideal > 0 && m * ideal >= n && ideal * t <= n
    ensures t <= m
  {
    MulLess(m, t, ideal);
  }

  lemma AtMost(m: nat, x: nat, y: nat, n: nat)
    requires m * x < n <= y * m
    ensures x < y
  {
    MulLess(x, y, m);
    MulLess(y, x + 1, m);
    Distribute(x, 1, m);
  }

  /** One more item in a bucket that stays below its threshold. */
  lemma PushBalances<T>(bs: seq<Bucket<T>>, i: nat, b: Bucket<T>)
    requires Balanced(bs) && i < |bs| && b.count == bs[i].count + 1 && b.expandMult == bs[i].expandMult
    requires b.count < (b.expandMult + 1) * BKT_CAPACITY_THRESH
    ensures Balanced(bs[i := b])
  {
    TotalUpdate(Mult, bs, i, b);
  }

  /** One item fewer in a bucket. */
  lemma PopBalances<T>(bs: seq<Bucket<T>>, i: nat, b: Bucket<T>)
    requires Balanced(bs) && i < |bs| && b.count + 1 == bs[i].count && b.expandMult == bs[i].expandMult
    ensures Balanced(bs[i := b])
  {
    TotalUpdate(Mult, bs, i, b);
    assert WithinThreshold(bs[i]);
  }

  /** The invariant of a table filled by HASH_SELECT, where a doubling counts one item too few: the multipliers may
      add up to one more than there are buckets, but then no chain is at its threshold. */
  ghost predicate NearlyBalanced<T>(bs: seq<Bucket<T>>) {
    Balanced(bs)
    || (|bs| > BKT_CAPACITY_THRESH && Total(Mult, bs) <= |bs| + 1
        && forall i :: 0 <= i < |bs| ==> bs[i].count < BKT_CAPACITY_THRESH * (bs[i].expandMult + 1))
  }

  lemma {:induction false} StrictTotal<T>(bs: seq<Bucket<T>>)
    requires forall i :: 0 <= i < |bs| ==> bs[i].count < BKT_CAPACITY_THRESH * (bs[i].expandMult + 1)
    ensures Total(Count, bs) <= (BKT_CAPACITY_THRESH - 1) * |bs| + BKT_CAPACITY_THRESH * Total(Mult, bs)
  {
    if |bs| > 0 {
      StrictTotal(bs[..|bs| - 1]);
    }
  }

  /** It still means fewer than 20 items per bucket. */
  lemma NearLoadBound<T>(bs: seq<Bucket<T>>)
    requires NearlyBalanced(bs)
    ensures Total(Count, bs) < 20 * |bs|
  {
    if Balanced(bs) {
      LoadBound(bs);
    } else {
      StrictTotal(bs);
    }
  }

  lemma PushNearlyBalances<T>(bs: seq<Bucket<T>>, i: nat, b: Bucket<T>)
    requires NearlyBalanced(bs) && i < |bs| && b.count == bs[i].count + 1 && b.expandMult == bs[i].expandMult
    requires b.count < (b.expandMult + 1) * BKT_CAPACITY_THRESH
    ensures NearlyBalanced(bs[i := b])
  {
    if Balanced(bs) {
      PushBalances(bs, i, b);
    } else {
      TotalUpdate(Mult, bs, i, b);
    }
  }

  /** A doubling that works with one item too few leaves the weaker invariant. */
  lemma DoublingNearlyBalances<T>(bs: seq<Bucket<T>>, ideal: nat)
    requires |bs| > BKT_CAPACITY_THRESH && 1 < Total(Count, bs) <= BKT_CAPACITY_THRESH * |bs|
    requires ideal == CeilDiv(Total(Count, bs) - 1, |bs|)
    requires ideal > 0 && forall i :: 0 <= i < |bs| ==> bs[i].expandMult == MultAfter(bs[i].count, ideal)
    ensures NearlyBalanced(bs)
  {
    hide Total, CeilDiv, MultAfter;
    var n, m, t := Total(Count, bs), |bs|, Total(Mult, bs);
    CeilDivBounds(n - 1, m);
    AtMost(m, ideal - 1, BKT_CAPACITY_THRESH, n - 1);
    forall i | 0 <= i < m
      ensures WithinThreshold(bs[i]) && ideal * bs[i].expandMult <= bs[i].count
      ensures ideal == 1 ==> bs[i].count < BKT_CAPACITY_THRESH * (bs[i].expandMult + 1)
    {
      MultAfterBounds(bs[i].count, ideal);
      MultAfterOne(bs[i].count);
    }
    TotalScaled(Mult, Count, ideal, bs);
    OneTooFew(m, t, ideal, n);
  }

  lemma MultAfterOne(count: nat)
    ensures count < BKT_CAPACITY_THRESH * (MultAfter(count, 1) + 1)
  {
  }

  /** Multipliers add up to more than the buckets only if the ideal length is one. */
  lemma OneTooFew(m: nat, t: nat, ideal: nat, n: nat)
    requires ideal > 0 && m * ideal >= n - 1 && ideal * t <= n
    ensures t <= m || (ideal == 1 && t <= m + 1)
  {
    MulLess(m, t, ideal);
    MulLess(m + 1, t, ideal);
    Distribute(m, 1, ideal);
  }
}
