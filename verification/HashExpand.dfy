/** HASH_EXPAND_BUCKETS: relink every element into twice as many buckets, in place. */
module HashExpand {
  import opened Bits
  import opened Seqs
  import opened Links
  import opened HashLoad
  import opened HashChains

  /** The body of the inner loop: push one element on its new bucket. */
  method Relocate<K, V>(thh: Item<K, V>, buckets: array<Bucket<Entry<K, V>>>, bkt: nat, ideal: nat, nonideal0: nat,
                        ghost c: seq<Item<K, V>>)
    returns (nonideal: nat)
    requires ideal > 0 && bkt < buckets.Length && buckets[bkt] == Filled(c, ideal)
    requires thh !in c && Distinct(c) && ChainLinked(c)
    modifies buckets, thh`hhNext, thh`hhPrev, (if |c| > 0 then {c[0]} else {})`hhPrev
    ensures ChainLinked([thh] + c) && buckets[bkt] == Filled([thh] + c, ideal)
    ensures forall b :: 0 <= b < buckets.Length && b != bkt ==> buckets[b] == old(buckets[b])
    ensures nonideal == nonideal0 + if |c| + 1 > ideal then 1 else 0
  {
    nonideal := nonideal0;
    buckets[bkt] := buckets[bkt].(count := buckets[bkt].count + 1);
    if buckets[bkt].count > ideal {
      nonideal := nonideal + 1;
      buckets[bkt] := buckets[bkt].(expandMult := buckets[bkt].count / ideal);
    }
    thh.hhPrev := null;
    thh.hhNext := buckets[bkt].hhHead;
    if buckets[bkt].hhHead != null {
      buckets[bkt].hhHead.hhPrev := thh;
    }
    buckets[bkt] := buckets[bkt].(hhHead := thh);
  }

  /** The old elements from j on still carry their old links. */
  ghost predicate Waiting<K, V>(c: seq<Item<K, V>>, j: nat)
    reads c
  {
    forall i {:trigger c[i].hhNext} :: j <= i < |c| ==> c[i].hhNext == At(c, i + 1)
  }

  ghost function ExcessOf(count: nat, ideal: nat): nat {
    if count > ideal then count - ideal else 0
  }

  /** The new chain that holds what the first j elements of c contribute to bucket b of n. */
  ghost predicate Partial<K, V>(fcn: K -> nat, c: seq<Item<K, V>>, j: nat, b: nat, n: nat, part: seq<Item<K, V>>) {
    n > 0 && j <= |c| && part == Moved(fcn, c[..j], b, n)
  }

  lemma PartialMembers<K, V>(fcn: K -> nat, c: seq<Item<K, V>>, j: nat, b: nat, n: nat, part: seq<Item<K, V>>)
    requires Partial(fcn, c, j, b, n, part) && Distinct(c)
    ensures Distinct(part)
    ensures forall i :: 0 <= i < |part| ==> part[i] in c && Slot(fcn, part[i], n) == b
    ensures forall i, k :: 0 <= i < |part| && j <= k < |c| ==> part[i] != c[k]
  {
    MovedMembers(fcn, c[..j], b, n);
    MovedDistinct(fcn, c[..j], b, n);
    forall i | 0 <= i < |part|
      ensures part[i] in c[..j] && Slot(fcn, part[i], n) == b
    {
      assert part[i] in part;
    }
  }

  lemma PartialStep<K, V>(fcn: K -> nat, c: seq<Item<K, V>>, j: nat, b: nat, n: nat, part: seq<Item<K, V>>)
    requires Partial(fcn, c, j, b, n, part) && j < |c|
    ensures Partial(fcn, c, j + 1, b, n, if Slot(fcn, c[j], n) == b then [c[j]] + part else part)
  {
    MovedStep(fcn, c, j, b, n);
  }

  /** x can be pushed on dest: it is new there, and no element of other is x or the current head of dest. */
  ghost predicate Ready<K, V>(x: Item<K, V>, dest: seq<Item<K, V>>, other: seq<Item<K, V>>, c: seq<Item<K, V>>) {
    && Distinct(dest) && x !in dest && (|dest| > 0 ==> dest[0] in c)
    && forall i :: 0 <= i < |other| ==> other[i] != x && (|dest| > 0 ==> other[i] != dest[0])
  }

  lemma ReadyFor<K, V>(fcn: K -> nat, c: seq<Item<K, V>>, j: nat, b: nat, b': nat, n: nat,
                       dest: seq<Item<K, V>>, other: seq<Item<K, V>>)
    requires b != b' && Partial(fcn, c, j, b, n, dest) && Partial(fcn, c, j, b', n, other) && Distinct(c) && j < |c|
    ensures Ready(c[j], dest, other, c)
  {
    hide Partial, Slot;
    PartialMembers(fcn, c, j, b, n, dest);
    PartialMembers(fcn, c, j, b', n, other);
  }

  /** The element at j goes to one of the two new chains, which stay apart from each other and from the rest of c. */
  lemma MoveStep<K, V>(fcn: K -> nat, c: seq<Item<K, V>>, j: nat, b: nat, m: nat,
                       lo: seq<Item<K, V>>, hi: seq<Item<K, V>>)
    requires b < m && Partial(fcn, c, j, b, m + m, lo) && Partial(fcn, c, j, b + m, m + m, hi)
    requires Distinct(c) && j < |c| && Slot(fcn, c[j], m) == b
    ensures Slot(fcn, c[j], m + m) == b || Slot(fcn, c[j], m + m) == b + m
    ensures if Slot(fcn, c[j], m + m) == b
            then Ready(c[j], lo, hi, c) && Partial(fcn, c, j + 1, b, m + m, [c[j]] + lo)
                 && Partial(fcn, c, j + 1, b + m, m + m, hi)
            else Ready(c[j], hi, lo, c) && Partial(fcn, c, j + 1, b, m + m, lo)
                 && Partial(fcn, c, j + 1, b + m, m + m, [c[j]] + hi)
    ensures forall k :: j < k < |c| ==> c[k] != c[j]
  {
    hide Partial, Slot, Ready;
    SlotDoubles(fcn, c[j], m, m + m);
    ReadyFor(fcn, c, j, b, b + m, m + m, lo, hi);
    ReadyFor(fcn, c, j, b + m, b, m + m, hi, lo);
    PartialStep(fcn, c, j, b, m + m, lo);
    PartialStep(fcn, c, j, b + m, m + m, hi);
  }

  /** The two new buckets part-way through the old chain c. */
  ghost predicate Moving<K, V>(fcn: K -> nat, buckets: array<Bucket<Entry<K, V>>>, m: nat, b: nat, ideal: nat,
                               c: seq<Item<K, V>>, j: nat, lo: seq<Item<K, V>>, hi: seq<Item<K, V>>)
    requires ideal > 0 && b < m && buckets.Length == m + m
    reads buckets, c, lo, hi
  {
    && Partial(fcn, c, j, b, m + m, lo) && Partial(fcn, c, j, b + m, m + m, hi)
    && Waiting(c, j) && ChainLinked(lo) && ChainLinked(hi)
    && buckets[b] == Filled(lo, ideal) && buckets[b + m] == Filled(hi, ideal)
  }

  method MoveOne<K, V>(fcn: K -> nat, thh: Item<K, V>, buckets: array<Bucket<Entry<K, V>>>, m: nat,
                       ideal: nat, nonideal0: nat, ghost e: nat, ghost b: nat, ghost c: seq<Item<K, V>>, ghost j: nat,
                       ghost lo0: seq<Item<K, V>>, ghost hi0: seq<Item<K, V>>)
    returns (nonideal: nat, ghost lo: seq<Item<K, V>>, ghost hi: seq<Item<K, V>>)
    requires ideal > 0 && b < m && buckets.Length == m + m == Pow2(e)
    requires Distinct(c) && j < |c| && thh == c[j] && thh.hashv == fcn(thh.data.key) && Slot(fcn, thh, m) == b
    requires Moving(fcn, buckets, m, b, ideal, c, j, lo0, hi0)
    modifies buckets, c`hhNext, c`hhPrev
    ensures Moving(fcn, buckets, m, b, ideal, c, j + 1, lo, hi)
    ensures forall i :: 0 <= i < buckets.Length && i != b && i != b + m ==> buckets[i] == old(buckets[i])
    ensures nonideal + ExcessOf(|lo0|, ideal) + ExcessOf(|hi0|, ideal)
            == nonideal0 + ExcessOf(|lo|, ideal) + ExcessOf(|hi|, ideal)
  {
    hide Partial, Distinct, Slot, And, Pow2, ChainLinked, Filled;
    var bkt := And(thh.hashv, 2 * m - 1);
    SlotMask(fcn, thh, m + m, e);
    ghost var low := bkt == b;
    MoveStep(fcn, c, j, b, m, lo0, hi0);
    nonideal := Relocate(thh, buckets, bkt, ideal, nonideal0, if low then lo0 else hi0);
    lo, hi := if low then [thh] + lo0 else lo0, if low then hi0 else [thh] + hi0;
  }

  /** The inner loop: empty one old chain into the two new buckets b and b + m. */
  method MoveChain<K, V>(fcn: K -> nat, hhHead: Node?<Entry<K, V>>, buckets: array<Bucket<Entry<K, V>>>, m: nat,
                         ideal: nat, nonideal0: nat, ghost e: nat, ghost b: nat, ghost c: seq<Item<K, V>>)
    returns (nonideal: nat, ghost lo: seq<Item<K, V>>, ghost hi: seq<Item<K, V>>)
    requires ideal > 0 && b < m && buckets.Length == m + m == Pow2(e)
    requires hhHead == At(c, 0) && Distinct(c) && ChainLinked(c)
    requires forall x :: x in c ==> x.hashv == fcn(x.data.key) && Slot(fcn, x, m) == b
    requires buckets[b] == Filled([], ideal) && buckets[b + m] == Filled([], ideal)
    modifies buckets, c`hhNext, c`hhPrev
    ensures Moving(fcn, buckets, m, b, ideal, c, |c|, lo, hi)
    ensures buckets[b].count == |lo| && buckets[b].expandMult == if |lo| > ideal then |lo| / ideal else 0
    ensures buckets[b + m].count == |hi| && buckets[b + m].expandMult == if |hi| > ideal then |hi| / ideal else 0
    ensures forall i :: 0 <= i < buckets.Length && i != b && i != b + m ==> buckets[i] == old(buckets[i])
    ensures nonideal == nonideal0 + ExcessOf(|lo|, ideal) + ExcessOf(|hi|, ideal)
  {
    var thh := hhHead;
    ghost var j := 0;
    nonideal, lo, hi := nonideal0, [], [];
    while thh != null
      invariant j <= |c| && thh == At(c, j) && Moving(fcn, buckets, m, b, ideal, c, j, lo, hi)
      invariant forall i :: 0 <= i < buckets.Length && i != b && i != b + m ==> buckets[i] == old(buckets[i])
      invariant nonideal == nonideal0 + ExcessOf(|lo|, ideal) + ExcessOf(|hi|, ideal)
      decreases |c| - j
    {
      hide ChainLinked, Partial, Distinct;
      var next := thh.hhNext;
      nonideal, lo, hi := MoveOne(fcn, thh, buckets, m, ideal, nonideal, e, b, c, j, lo, hi);
      thh, j := next, j + 1;
    }
    FilledIs(lo, ideal);
    FilledIs(hi, ideal);
  }

  function Length<T>(c: seq<T>): nat { |c| }

  ghost function Surplus<T>(ideal: nat): seq<T> -> nat {
    (c: seq<T>) => ExcessOf(|c|, ideal)
  }

  ghost function TotalLength<T>(cs: seq<seq<T>>): nat {
    Total(Length, cs)
  }

  ghost function TotalExcess<T>(cs: seq<seq<T>>, ideal: nat): nat {
    Total(Surplus(ideal), cs)
  }

  lemma TotalExcessAppend<T>(cs: seq<seq<T>>, c: seq<T>, ideal: nat)
    ensures TotalExcess(cs + [c], ideal) == TotalExcess(cs, ideal) + ExcessOf(|c|, ideal)
  {
    TotalAppend(Surplus(ideal), cs, c);
  }

  lemma TotalsConcat<T>(a: seq<seq<T>>, b: seq<seq<T>>, ideal: nat)
    ensures TotalExcess(a + b, ideal) == TotalExcess(a, ideal) + TotalExcess(b, ideal)
    ensures TotalLength(a + b) == TotalLength(a) + TotalLength(b)
  {
    TotalConcat(Surplus(ideal), a, b);
    TotalConcat(Length, a, b);
  }

  lemma {:induction false} MatchedTotal<K, V>(bs: seq<Bucket<Entry<K, V>>>, cs: seq<seq<Item<K, V>>>)
    requires BucketsMatch(bs, cs)
    ensures Total(Count, bs) == TotalLength(cs)
  {
    if |cs| > 0 {
      MatchedTotal(bs[..|bs| - 1], cs[..|cs| - 1]);
    }
  }

  lemma {:induction false} FilledExcess<K, V>(bs: seq<Bucket<Entry<K, V>>>, cs: seq<seq<Item<K, V>>>, ideal: nat)
    requires ideal > 0 && |bs| == |cs| && forall b :: 0 <= b < |bs| ==> bs[b] == Filled(cs[b], ideal)
    ensures Total(Excess(ideal), bs) == TotalExcess(cs, ideal)
  {
    if |cs| > 0 {
      FilledExcess(bs[..|bs| - 1], cs[..|cs| - 1], ideal);
    }
  }

  /** Old chain b has been divided between lo and hi. */
  ghost predicate Halved<K, V>(fcn: K -> nat, chains: seq<seq<Item<K, V>>>, b: nat,
                               lo: seq<Item<K, V>>, hi: seq<Item<K, V>>)
    requires b < |chains|
  {
    var m := |chains|;
    lo == Moved(fcn, chains[b], b, m + m) && hi == Moved(fcn, chains[b], b + m, m + m)
  }

  lemma {:induction false} HalvedTotal<K, V>(fcn: K -> nat, chains: seq<seq<Item<K, V>>>,
      lows: seq<seq<Item<K, V>>>, highs: seq<seq<Item<K, V>>>, its: seq<Item<K, V>>, i: nat)
    requires Placed(fcn, chains, its) && i <= |lows| == |highs| <= |chains|
    requires forall b :: 0 <= b < |lows| ==> Halved(fcn, chains, b, lows[b], highs[b])
    ensures TotalLength(lows[..i]) + TotalLength(highs[..i]) == TotalLength(chains[..i])
  {
    if i > 0 {
      HalvedTotal(fcn, chains, lows, highs, its, i - 1);
      assert Halved(fcn, chains, i - 1, lows[i - 1], highs[i - 1]);
      MovedSizes(fcn, chains[i - 1], i - 1, |chains|, |chains| + |chains|);
      hide *;
      TotalLengthStep(lows, i);
      TotalLengthStep(highs, i);
      TotalLengthStep(chains, i);
    }
  }

  lemma TotalLengthStep<T>(cs: seq<seq<T>>, i: nat)
    requires 0 < i <= |cs|
    ensures TotalLength(cs[..i]) == TotalLength(cs[..i - 1]) + |cs[i - 1]|
  {
    assert cs[..i][..i - 1] == cs[..i - 1];
  }

  lemma HalvedMembers<K, V>(fcn: K -> nat, chains: seq<seq<Item<K, V>>>, b: nat,
                            lo: seq<Item<K, V>>, hi: seq<Item<K, V>>)
    requires b < |chains| && Halved(fcn, chains, b, lo, hi)
    ensures forall x :: x in lo ==> x in chains[b]
    ensures forall x :: x in hi ==> x in chains[b]
  {
    MovedMembers(fcn, chains[b], b, |chains| + |chains|);
    MovedMembers(fcn, chains[b], b + |chains|, |chains| + |chains|);
  }

  ghost predicate Apart<T>(a: seq<Node<T>>, b: seq<Node<T>>) {
    forall k, l :: 0 <= k < |a| && 0 <= l < |b| ==> a[k] != b[l]
  }

  lemma ChainsApart<K, V>(fcn: K -> nat, chains: seq<seq<Item<K, V>>>, its: seq<Item<K, V>>, i: nat, b: nat)
    requires Placed(fcn, chains, its) && i < |chains| && b < |chains| && b != i
    ensures Apart(chains[b], chains[i])
  {
    hide Slot;
  }

  /** Emptying chain i touches no element of any other chain, old or new. */
  lemma OthersApart<K, V>(fcn: K -> nat, chains: seq<seq<Item<K, V>>>, lows: seq<seq<Item<K, V>>>,
                          highs: seq<seq<Item<K, V>>>, its: seq<Item<K, V>>, i: nat)
    requires Placed(fcn, chains, its) && i == |lows| == |highs| < |chains|
    requires forall b :: 0 <= b < i ==> Halved(fcn, chains, b, lows[b], highs[b])
    ensures forall b :: i < b < |chains| ==> Apart(chains[b], chains[i])
    ensures forall b :: 0 <= b < i ==> Apart(lows[b], chains[i])
    ensures forall b :: 0 <= b < i ==> Apart(highs[b], chains[i])
  {
    hide Placed, Halved;
    forall b | i < b < |chains|
      ensures Apart(chains[b], chains[i])
    {
      ChainsApart(fcn, chains, its, i, b);
    }
    forall b | 0 <= b < i
      ensures Apart(lows[b], chains[i]) && Apart(highs[b], chains[i])
    {
      ChainsApart(fcn, chains, its, i, b);
      HalvedMembers(fcn, chains, b, lows[b], highs[b]);
      SubsetApart(lows[b], chains[b], chains[i]);
      SubsetApart(highs[b], chains[b], chains[i]);
    }
  }

  lemma SubsetApart<T>(a: seq<Node<T>>, b: seq<Node<T>>, c: seq<Node<T>>)
    requires Apart(b, c) && forall x :: x in a ==> x in b
    ensures Apart(a, c)
  {
    forall k, l | 0 <= k < |a| && 0 <= l < |c|
      ensures a[k] != c[l]
    {
      assert a[k] in a && a[k] in b;
    }
  }

  ghost predicate Inside<T>(c: seq<Node<T>>, its: seq<Node<T>>) {
    forall k :: 0 <= k < |c| ==> c[k] in its
  }

  /** The first i old chains are divided among the new buckets, the others still wait; the rest of the new buckets are empty. */
  ghost predicate Expanding<K, V>(fcn: K -> nat, buckets: array<Bucket<Entry<K, V>>>, m: nat, ideal: nat,
                                  chains: seq<seq<Item<K, V>>>, lows: seq<seq<Item<K, V>>>, highs: seq<seq<Item<K, V>>>,
                                  its: seq<Item<K, V>>, i: nat)
    requires ideal > 0 && buckets.Length == m + m && m == |chains|
    reads buckets, its
  {
    && i <= m && |lows| == |highs| == i
    && (forall b :: 0 <= b < i ==> Inside(lows[b], its) && Inside(highs[b], its))
    && (forall b :: i <= b < m ==> Inside(chains[b], its))
    && (forall b :: 0 <= b < i ==> Halved(fcn, chains, b, lows[b], highs[b]))
    && (forall b :: 0 <= b < i ==> ChainLinked(lows[b]) && ChainLinked(highs[b]))
    && (forall b :: i <= b < m ==> ChainLinked(chains[b]))
    && (forall b {:trigger buckets[b]} :: 0 <= b < m ==> buckets[b] == Filled(if b < i then lows[b] else [], ideal))
    && (forall b {:trigger buckets[b]} :: m <= b < m + m ==>
          buckets[b] == Filled(if b - m < i then highs[b - m] else [], ideal))
  }

  method ExpandOne<K, V>(fcn: K -> nat, hhHead: Node?<Entry<K, V>>, buckets: array<Bucket<Entry<K, V>>>, m: nat,
                         ideal: nat, nonideal0: nat, ghost e: nat, ghost i: nat, ghost chains: seq<seq<Item<K, V>>>,
                         ghost lows0: seq<seq<Item<K, V>>>, ghost highs0: seq<seq<Item<K, V>>>, ghost its: seq<Item<K, V>>)
    returns (nonideal: nat, ghost lows: seq<seq<Item<K, V>>>, ghost highs: seq<seq<Item<K, V>>>)
    requires ideal > 0 && buckets.Length == m + m == Pow2(e) && m == |chains| && i < m && hhHead == At(chains[i], 0)
    requires Placed(fcn, chains, its) && forall x :: x in its ==> x.hashv == fcn(x.data.key)
    requires Expanding(fcn, buckets, m, ideal, chains, lows0, highs0, its, i)
    modifies buckets, its`hhNext, its`hhPrev
    ensures Expanding(fcn, buckets, m, ideal, chains, lows, highs, its, i + 1)
    ensures nonideal + TotalExcess(lows0, ideal) + TotalExcess(highs0, ideal)
            == nonideal0 + TotalExcess(lows, ideal) + TotalExcess(highs, ideal)
  {
    hide Placed, Halved, ChainLinked, Pow2, Distinct, Moved, Slot, Filled, At, TotalExcess, ExcessOf, Partial, Waiting;
    ghost var c, lo, hi := chains[i], [], [];
    OthersApart(fcn, chains, lows0, highs0, its, i);
    ChainPlaced(fcn, chains, its, i);
    nonideal, lo, hi := MoveChain(fcn, hhHead, buckets, m, ideal, nonideal0, e, i, c);
    lows, highs := lows0 + [lo], highs0 + [hi];
    forall b | 0 <= b < i
      ensures lows[b] == lows0[b] && highs[b] == highs0[b]
      ensures ChainLinked(lows[b]) && ChainLinked(highs[b])
    {
      assert ChainLinked(lows0[b]) && ChainLinked(highs0[b]);
    }
    MovedAll(fcn, chains, i, lo, hi, its);
    TotalExcessAppend(lows0, lo, ideal);
    TotalExcessAppend(highs0, hi, ideal);
  }

  lemma ChainPlaced<K, V>(fcn: K -> nat, chains: seq<seq<Item<K, V>>>, its: seq<Item<K, V>>, i: nat)
    requires Placed(fcn, chains, its) && i < |chains|
    ensures Distinct(chains[i]) && Inside(chains[i], its)
    ensures forall x :: x in chains[i] ==> Slot(fcn, x, |chains|) == i
  {
  }

  lemma MovedAll<K, V>(fcn: K -> nat, chains: seq<seq<Item<K, V>>>, i: nat, lo: seq<Item<K, V>>, hi: seq<Item<K, V>>,
                       its: seq<Item<K, V>>)
    requires i < |chains| && Inside(chains[i], its)
    requires Partial(fcn, chains[i], |chains[i]|, i, |chains| + |chains|, lo)
    requires Partial(fcn, chains[i], |chains[i]|, i + |chains|, |chains| + |chains|, hi)
    ensures Halved(fcn, chains, i, lo, hi) && Inside(lo, its) && Inside(hi, its)
  {
    assert chains[i][..|chains[i]|] == chains[i];
    HalvedMembers(fcn, chains, i, lo, hi);
    forall x | x in lo || x in hi
      ensures x in its
    {
      assert x in chains[i];
    }
  }

  /** The table's buckets hold the chains. */
  ghost predicate Holds<K, V>(fcn: K -> nat, buckets: array<Bucket<Entry<K, V>>>, chains: seq<seq<Item<K, V>>>,
                              its: seq<Item<K, V>>)
    reads buckets, its`hhNext, its`hhPrev, its`hashv
  {
    && buckets.Length == |chains| && Placed(fcn, chains, its) && BucketsMatch(buckets[..], chains)
    && (forall b :: 0 <= b < |chains| ==> Inside(chains[b], its) && ChainLinked(chains[b]))
    && (forall k {:trigger its[k].hashv} :: 0 <= k < |its| ==> its[k].hashv == fcn(its[k].data.key))
  }

  lemma BeforeExpanding<K, V>(fcn: K -> nat, old_: array<Bucket<Entry<K, V>>>, buckets: array<Bucket<Entry<K, V>>>,
                              ideal: nat, chains: seq<seq<Item<K, V>>>, its: seq<Item<K, V>>)
    requires Holds(fcn, old_, chains, its) && ideal > 0 && buckets.Length == |chains| + |chains|
    requires forall b :: 0 <= b < buckets.Length ==> buckets[b] == Bucket(null, 0, 0)
    ensures Expanding(fcn, buckets, |chains|, ideal, chains, [], [], its, 0)
    ensures TotalExcess<Item<K, V>>([], ideal) == 0
  {
  }

  lemma HeadOf<K, V>(fcn: K -> nat, buckets: array<Bucket<Entry<K, V>>>, chains: seq<seq<Item<K, V>>>,
                     its: seq<Item<K, V>>)
    requires Holds(fcn, buckets, chains, its)
    ensures buckets.Length == |chains| && forall b :: 0 <= b < |chains| ==> buckets[b].hhHead == At(chains[b], 0)
    ensures Placed(fcn, chains, its) && forall x :: x in its ==> x.hashv == fcn(x.data.key)
  {
    forall b | 0 <= b < |chains|
      ensures buckets[b].hhHead == At(chains[b], 0)
    {
      assert buckets[..][b] == buckets[b];
    }
  }

  lemma AfterExpanding<K, V>(fcn: K -> nat, buckets: array<Bucket<Entry<K, V>>>, ideal: nat,
                             chains: seq<seq<Item<K, V>>>, lows: seq<seq<Item<K, V>>>, highs: seq<seq<Item<K, V>>>,
                             its: seq<Item<K, V>>)
    requires ideal > 0 && buckets.Length == |chains| + |chains| && Placed(fcn, chains, its)
    requires forall x :: x in its ==> x.hashv == fcn(x.data.key)
    requires Expanding(fcn, buckets, |chains|, ideal, chains, lows, highs, its, |chains|)
    ensures Split(fcn, chains, lows + highs) && Holds(fcn, buckets, lows + highs, its) && |lows + highs| == buckets.Length
    ensures forall b :: 0 <= b < buckets.Length ==> buckets[b] == Filled((lows + highs)[b], ideal)
    ensures Total(Excess(ideal), buckets[..]) == TotalExcess(lows, ideal) + TotalExcess(highs, ideal)
    ensures Total(Count, buckets[..]) == TotalLength(chains)
  {
    hide Expanding, Placed, Holds, Filled, Total, TotalLength, TotalExcess, Split, BucketsMatch, Inside, ChainLinked;
    var after := lows + highs;
    ExpandedHalves(fcn, buckets, ideal, chains, lows, highs, its);
    SplitAfter(fcn, chains, lows, highs, its);
    SplitPlaced(fcn, chains, after, its);
    FilledAfter(fcn, buckets, ideal, chains, lows, highs, its);
    IsHolding(fcn, buckets, after, its);
    FilledExcess(buckets[..], after, ideal);
    MatchedTotal(buckets[..], after);
    TotalsConcat(lows, highs, ideal);
  }

  lemma IsHolding<K, V>(fcn: K -> nat, buckets: array<Bucket<Entry<K, V>>>, chains: seq<seq<Item<K, V>>>,
                        its: seq<Item<K, V>>)
    requires buckets.Length == |chains| && Placed(fcn, chains, its) && BucketsMatch(buckets[..], chains)
    requires forall b :: 0 <= b < |chains| ==> Inside(chains[b], its) && ChainLinked(chains[b])
    requires forall x :: x in its ==> x.hashv == fcn(x.data.key)
    ensures Holds(fcn, buckets, chains, its)
  {
    hide Placed, BucketsMatch, Inside, ChainLinked;
  }

  lemma SplitAfter<K, V>(fcn: K -> nat, chains: seq<seq<Item<K, V>>>, lows: seq<seq<Item<K, V>>>,
                         highs: seq<seq<Item<K, V>>>, its: seq<Item<K, V>>)
    requires Placed(fcn, chains, its) && |lows| == |highs| == |chains| > 0
    requires forall b :: 0 <= b < |chains| ==> Halved(fcn, chains, b, lows[b], highs[b])
    ensures Split(fcn, chains, lows + highs)
    ensures TotalLength(lows) + TotalLength(highs) == TotalLength(chains)
  {
    hide Placed, TotalLength, Moved, Split;
    HalvesSplit(fcn, chains, lows, highs);
    HalvedTotal(fcn, chains, lows, highs, its, |chains|);
    assert lows[..|chains|] == lows;
    assert highs[..|chains|] == highs;
    assert chains[..|chains|] == chains;
  }

  lemma HalvesSplit<K, V>(fcn: K -> nat, chains: seq<seq<Item<K, V>>>, lows: seq<seq<Item<K, V>>>,
                          highs: seq<seq<Item<K, V>>>)
    requires |lows| == |highs| == |chains| > 0
    requires forall b :: 0 <= b < |chains| ==> Halved(fcn, chains, b, lows[b], highs[b])
    ensures Split(fcn, chains, lows + highs)
  {
    hide Moved;
    var after, m := lows + highs, |chains|;
    forall b | 0 <= b < m
      ensures after[b] == Moved(fcn, chains[b], b, |after|) && after[m + b] == Moved(fcn, chains[b], m + b, |after|)
    {
      assert Halved(fcn, chains, b, lows[b], highs[b]);
      assert after[b] == lows[b] && after[m + b] == highs[b];
    }
  }

  lemma ExpandedHalves<K, V>(fcn: K -> nat, buckets: array<Bucket<Entry<K, V>>>, ideal: nat,
                             chains: seq<seq<Item<K, V>>>, lows: seq<seq<Item<K, V>>>, highs: seq<seq<Item<K, V>>>,
                             its: seq<Item<K, V>>)
    requires ideal > 0 && buckets.Length == |chains| + |chains|
    requires Expanding(fcn, buckets, |chains|, ideal, chains, lows, highs, its, |chains|)
    ensures |lows| == |highs| == |chains|
    ensures Placed(fcn, chains, its) ==> |chains| > 0
    ensures forall b :: 0 <= b < |chains| ==> Halved(fcn, chains, b, lows[b], highs[b])
  {
  }

  lemma FilledAfter<K, V>(fcn: K -> nat, buckets: array<Bucket<Entry<K, V>>>, ideal: nat,
                          chains: seq<seq<Item<K, V>>>, lows: seq<seq<Item<K, V>>>, highs: seq<seq<Item<K, V>>>,
                          its: seq<Item<K, V>>)
    requires ideal > 0 && buckets.Length == |chains| + |chains|
    requires Expanding(fcn, buckets, |chains|, ideal, chains, lows, highs, its, |chains|)
    ensures forall b :: 0 <= b < buckets.Length ==> buckets[b] == Filled((lows + highs)[b], ideal)
    ensures forall b :: 0 <= b < buckets.Length ==> Inside((lows + highs)[b], its) && ChainLinked((lows + highs)[b])
    ensures BucketsMatch(buckets[..], lows + highs)
  {
    hide Halved, ChainLinked, Moved;
    var after := lows + highs;
    forall b | 0 <= b < buckets.Length
      ensures buckets[b] == Filled(after[b], ideal) && Inside(after[b], its) && ChainLinked(after[b])
    {
      if b < |chains| {
        assert after[b] == lows[b];
      } else {
        assert after[b] == highs[b - |chains|];
      }
    }
  }

  /** ideal_chain_maxlen for the doubled table: a shift, and one more if the mask leaves anything. */
  function IdealChainMaxlen(numItems: nat, m: nat, log2: nat): nat
    requires m > 0
  {
    numItems / Pow2(log2 + 1) + if And(numItems, 2 * m - 1) != 0 then 1 else 0
  }

  /** The shift and the mask compute the ceiling of items over new buckets. */
  lemma IdealIsCeiling(numItems: nat, m: nat, log2: nat)
    requires m == Pow2(log2) && numItems > 0
    ensures Pow2(log2 + 1) == m + m
    ensures IdealChainMaxlen(numItems, m, log2) == CeilDiv(numItems, m + m)
    ensures CeilDiv(numItems, m + m) > 0
  {
    AndMask(numItems, log2 + 1);
    CeilDivBounds(numItems, m + m);
  }

  /** The whole macro: new_buckets, ideal_chain_maxlen and nonideal_items, and where every element went. */
  method ExpandBuckets<K, V>(fcn: K -> nat, buckets: array<Bucket<Entry<K, V>>>, m: nat, log2: nat, numItems: nat,
                             ghost chains: seq<seq<Item<K, V>>>, ghost its: seq<Item<K, V>>)
    returns (newBuckets: array<Bucket<Entry<K, V>>>, ideal: nat, nonideal: nat, ghost after: seq<seq<Item<K, V>>>)
    requires m == buckets.Length == Pow2(log2) && numItems > 0 && Holds(fcn, buckets, chains, its)
    modifies its`hhNext, its`hhPrev
    ensures fresh(newBuckets) && Split(fcn, chains, after) && Holds(fcn, newBuckets, after, its)
    ensures ideal == CeilDiv(numItems, newBuckets.Length) && ideal > 0
    ensures forall b :: 0 <= b < newBuckets.Length ==> newBuckets[b] == Filled(after[b], ideal)
    ensures forall b :: 0 <= b < newBuckets.Length ==> newBuckets[b].count == |after[b]|
    ensures forall b :: 0 <= b < newBuckets.Length ==>
              newBuckets[b].expandMult == if newBuckets[b].count > ideal then newBuckets[b].count / ideal else 0
    ensures nonideal == Total(Excess(ideal), newBuckets[..])
    ensures Total(Count, newBuckets[..]) == TotalLength(chains)
  {
    hide Expanding, Holds, Placed, Split, Filled, TotalExcess, TotalLength, Total, Pow2, CeilDiv, IdealChainMaxlen;
    newBuckets := new Bucket<Entry<K, V>>[2 * m](_ => Bucket(null, 0, 0));
    ideal := IdealChainMaxlen(numItems, m, log2);
    nonideal := 0;
    IdealIsCeiling(numItems, m, log2);
    HeadOf(fcn, buckets, chains, its);
    ghost var lows, highs := [], [];
    BeforeExpanding(fcn, buckets, newBuckets, ideal, chains, its);
    for i := 0 to m
      invariant Expanding(fcn, newBuckets, m, ideal, chains, lows, highs, its, i)
      invariant nonideal == TotalExcess(lows, ideal) + TotalExcess(highs, ideal)
    {
      nonideal, lows, highs := ExpandOne(fcn, buckets[i].hhHead, newBuckets, m, ideal, nonideal, log2 + 1, i,
                                         chains, lows, highs, its);
    }
    AfterExpanding(fcn, newBuckets, ideal, chains, lows, highs, its);
    after := lows + highs;
    AllFilled(newBuckets[..], after, ideal);
  }

  lemma AllFilled<K, V>(bs: seq<Bucket<Entry<K, V>>>, cs: seq<seq<Item<K, V>>>, ideal: nat)
    requires ideal > 0 && |bs| <= |cs| && forall b :: 0 <= b < |bs| ==> bs[b] == Filled(cs[b], ideal)
    ensures forall b :: 0 <= b < |bs| ==> bs[b].count == |cs[b]|
    ensures forall b :: 0 <= b < |bs| ==>
              bs[b].expandMult == if bs[b].count > ideal then bs[b].count / ideal else 0
  {
    hide Filled;
    forall b | 0 <= b < |bs|
      ensures bs[b].count == |cs[b]| && bs[b].expandMult == if bs[b].count > ideal then bs[b].count / ideal else 0
    {
      FilledIs(cs[b], ideal);
    }
  }
}
