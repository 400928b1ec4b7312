/** Bucket chains of a uthash table as sequences, and what doubling the bucket count does to them. */
module HashChains {
  import opened Bits
  import opened Seqs
  import opened Links
  import opened HashLoad

  /** An element: its key bytes and whatever else the application keeps in it. */
  datatype Entry<K, V> = Entry(key: K, value: V)

  type Item<K, V> = Node<Entry<K, V>>

  /** HASH_TO_BKT for n buckets; n is a power of two and the mask is n - 1 (see Bits.AndMask). */
  function Slot<K, V>(fcn: K -> nat, x: Item<K, V>, n: nat): (r: nat)
    requires n > 0
    ensures r < n
  {
    fcn(x.data.key) % n
  }

  /** Masking the stored hash value selects that bucket. */
  lemma SlotMask<K, V>(fcn: K -> nat, x: Item<K, V>, n: nat, e: nat)
    requires n == Pow2(e) && x.hashv == fcn(x.data.key)
    ensures And(x.hashv, n - 1) == Slot(fcn, x, n)
  {
    AndMask(x.hashv, e);
  }

  /** c is a null-terminated doubly linked chain. */
  ghost predicate ChainLinked<K, V>(c: seq<Item<K, V>>)
    reads c`hhNext, c`hhPrev
  {
    && (forall i {:trigger c[i].hhNext} :: 0 <= i < |c| ==> c[i].hhNext == At(c, i + 1))
    && (forall i {:trigger c[i].hhPrev} :: 0 <= i < |c| ==> c[i].hhPrev == At(c, i - 1))
  }

  /** The chains hold exactly the elements of its, each once, in the bucket its hash selects. */
  ghost predicate Placed<K, V>(fcn: K -> nat, chains: seq<seq<Item<K, V>>>, its: seq<Item<K, V>>) {
    && |chains| > 0
    && (forall b :: 0 <= b < |chains| ==> Distinct(chains[b]))
    && (forall b, i :: 0 <= b < |chains| && 0 <= i < |chains[b]| ==>
          chains[b][i] in its && Slot(fcn, chains[b][i], |chains|) == b)
    && (forall x :: x in its ==> x in chains[Slot(fcn, x, |chains|)])
  }

  ghost predicate BucketsMatch<K, V>(bs: seq<Bucket<Entry<K, V>>>, chains: seq<seq<Item<K, V>>>) {
    && |bs| == |chains|
    && forall b :: 0 <= b < |bs| ==> bs[b].hhHead == At(chains[b], 0) && bs[b].count == |chains[b]|
  }

  /** A bucket as a doubling fills it. */
  ghost function Filled<K, V>(c: seq<Item<K, V>>, ideal: nat): Bucket<Entry<K, V>>
    requires ideal > 0
  {
    Bucket(At(c, 0), |c|, MultAfter(|c|, ideal))
  }

  lemma FilledIs<K, V>(c: seq<Item<K, V>>, ideal: nat)
    requires ideal > 0
    ensures var b := Filled(c, ideal);
            b.hhHead == At(c, 0) && b.count == |c| && b.expandMult == if |c| > ideal then |c| / ideal else 0
  {
  }

  /** The part of chain c that goes to bucket b of n, in reverse order. */
  ghost function Moved<K, V>(fcn: K -> nat, c: seq<Item<K, V>>, b: nat, n: nat): seq<Item<K, V>>
    requires n > 0
  {
    if |c| == 0 then []
    else
      var x, r := c[|c| - 1], Moved(fcn, c[..|c| - 1], b, n);
      if Slot(fcn, x, n) == b then [x] + r else r
  }

  lemma MovedStep<K, V>(fcn: K -> nat, c: seq<Item<K, V>>, j: nat, b: nat, n: nat)
    requires n > 0 && j < |c|
    ensures Moved(fcn, c[..j + 1], b, n)
            == if Slot(fcn, c[j], n) == b then [c[j]] + Moved(fcn, c[..j], b, n) else Moved(fcn, c[..j], b, n)
  {
    assert c[..j + 1][..j] == c[..j];
  }

  lemma {:induction false} MovedMembers<K, V>(fcn: K -> nat, c: seq<Item<K, V>>, b: nat, n: nat)
    requires n > 0
    ensures forall x :: x in Moved(fcn, c, b, n) ==> x in c && Slot(fcn, x, n) == b
    ensures forall x :: x in c && Slot(fcn, x, n) == b ==> x in Moved(fcn, c, b, n)
  {
    if |c| > 0 {
      assert c == c[..|c| - 1] + [c[|c| - 1]];
      MovedMembers(fcn, c[..|c| - 1], b, n);
    }
  }

  lemma {:induction false} MovedDistinct<K, V>(fcn: K -> nat, c: seq<Item<K, V>>, b: nat, n: nat)
    requires n > 0 && Distinct(c)
    ensures Distinct(Moved(fcn, c, b, n))
  {
    if |c| > 0 {
      MovedDistinct(fcn, c[..|c| - 1], b, n);
      MovedMembers(fcn, c[..|c| - 1], b, n);
    }
  }

  /** An element of bucket b of m moves to bucket b or b + m of 2m. */
  lemma SlotDoubles<K, V>(fcn: K -> nat, x: Item<K, V>, m: nat, n: nat)
    requires m > 0 && n == m + m
    ensures Slot(fcn, x, n) == Slot(fcn, x, m) || Slot(fcn, x, n) == Slot(fcn, x, m) + m
  {
    ModDouble(fcn(x.data.key), m, n);
  }

  /** Every element of chain b lands in one of the two new chains. */
  lemma {:induction false} MovedSizes<K, V>(fcn: K -> nat, c: seq<Item<K, V>>, b: nat, m: nat, n: nat)
    requires m > 0 && n == m + m && forall i :: 0 <= i < |c| ==> Slot(fcn, c[i], m) == b
    ensures |Moved(fcn, c, b, n)| + |Moved(fcn, c, b + m, n)| == |c|
  {
    if |c| > 0 {
      SlotDoubles(fcn, c[|c| - 1], m, n);
      MovedSizes(fcn, c[..|c| - 1], b, m, n);
    }
  }

  /** The new chains are the two halves of every old chain. */
  ghost predicate Split<K, V>(fcn: K -> nat, chains: seq<seq<Item<K, V>>>, after: seq<seq<Item<K, V>>>) {
    && |chains| > 0 && |after| == 2 * |chains|
    && forall b :: 0 <= b < |chains| ==>
         && after[b] == Moved(fcn, chains[b], b, |after|)
         && after[|chains| + b] == Moved(fcn, chains[b], |chains| + b, |after|)
  }

  lemma SplitChain<K, V>(fcn: K -> nat, chains: seq<seq<Item<K, V>>>, after: seq<seq<Item<K, V>>>, b: nat)
    requires Split(fcn, chains, after) && b < |after|
    ensures var a := if b < |chains| then b else b - |chains|;
            a < |chains| && after[b] == Moved(fcn, chains[a], b, |after|)
  {
    if b >= |chains| {
      assert after[|chains| + (b - |chains|)] == after[b];
    }
  }

  /** Doubling loses no element, duplicates none and puts each where its hash says. */
  lemma SplitPlaced<K, V>(fcn: K -> nat, chains: seq<seq<Item<K, V>>>, after: seq<seq<Item<K, V>>>,
                          its: seq<Item<K, V>>)
    requires Placed(fcn, chains, its) && Split(fcn, chains, after)
    ensures Placed(fcn, after, its)
  {
    var m, n := |chains|, |after|;
    forall b | 0 <= b < n
      ensures Distinct(after[b])
      ensures forall i :: 0 <= i < |after[b]| ==> after[b][i] in its && Slot(fcn, after[b][i], n) == b
    {
      SplitChain(fcn, chains, after, b);
      var a := if b < m then b else b - m;
      MovedDistinct(fcn, chains[a], b, n);
      MovedMembers(fcn, chains[a], b, n);
      forall i | 0 <= i < |after[b]|
        ensures after[b][i] in its && Slot(fcn, after[b][i], n) == b
      {
        assert after[b][i] in after[b] && after[b][i] in chains[a];
      }
    }
    forall x | x in its
      ensures x in after[Slot(fcn, x, n)]
    {
      SlotDoubles(fcn, x, m, n);
      var a, b := Slot(fcn, x, m), Slot(fcn, x, n);
      SplitChain(fcn, chains, after, b);
      MovedMembers(fcn, chains[a], b, n);
    }
  }

  lemma PushPlaced<K, V>(fcn: K -> nat, chains: seq<seq<Item<K, V>>>, its: seq<Item<K, V>>, x: Item<K, V>, b: nat)
    requires Placed(fcn, chains, its) && x !in its && b == Slot(fcn, x, |chains|)
    ensures Placed(fcn, chains[b := [x] + chains[b]], its + [x])
  {
    var after, n := chains[b := [x] + chains[b]], |chains|;
    forall a, i | 0 <= a < n && 0 <= i < |after[a]|
      ensures after[a][i] in its + [x] && Slot(fcn, after[a][i], n) == a
    {
      if a == b && i > 0 {
        assert after[a][i] == chains[a][i - 1];
      }
    }
    forall y | y in its + [x]
      ensures y in after[Slot(fcn, y, n)]
    {
      if y != x {
        assert y in chains[Slot(fcn, y, n)];
      }
    }
  }

  lemma RemovePlaced<K, V>(fcn: K -> nat, chains: seq<seq<Item<K, V>>>, its: seq<Item<K, V>>, x: Item<K, V>, b: nat)
    requires Placed(fcn, chains, its) && x in its && b == Slot(fcn, x, |chains|)
    ensures Placed(fcn, chains[b := Without(chains[b], x)], Without(its, x))
  {
    var after, n := chains[b := Without(chains[b], x)], |chains|;
    WithoutDistinct(chains[b], x);
    WithoutMembers(chains[b], x);
    WithoutMembers(its, x);
    forall a, i | 0 <= a < n && 0 <= i < |after[a]|
      ensures after[a][i] in Without(its, x) && Slot(fcn, after[a][i], n) == a
    {
      assert after[a][i] in after[a];
    }
    forall y | y in Without(its, x)
      ensures y in after[Slot(fcn, y, n)]
    {
      assert y in chains[Slot(fcn, y, n)];
    }
  }
}
