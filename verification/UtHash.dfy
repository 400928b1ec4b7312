/** The intrusive hash table of uthash.h: an insertion-ordered list and bucket chains over the same elements. */
module UtHash {
  import opened Bits
  import opened Seqs
  import opened Links
  import opened StableMerge
  import opened Walk
  import opened HashLoad
  import opened HashChains
  import HashBloom
  import HashExpand
  import ListSort

  /** Whether HASH_BLOOM is defined, and its value. */
  datatype BloomSetting = NoBloom | BloomBits(nbits: nat)

  lemma AfterDoubling<K, V>(fcn: K -> nat, buckets: array<Bucket<Entry<K, V>>>, was: seq<seq<Item<K, V>>>,
                            after: seq<seq<Item<K, V>>>, its: seq<Item<K, V>>, e: nat, ideal: nat)
    requires HashExpand.Holds(fcn, buckets, after, its) && Split(fcn, was, after) && |was| == Pow2(e) && ideal > 0
    requires forall b :: 0 <= b < buckets.Length ==> buckets[b] == Filled(after[b], ideal)
    ensures buckets.Length == |was| * 2 == Pow2(e + 1)
    ensures forall b :: 0 <= b < buckets.Length ==> buckets[b].expandMult == MultAfter(buckets[b].count, ideal)
  {
  }

  /** What holds around chain b before an operation relinks it. */
  lemma Touching<K, V>(fcn: K -> nat, buckets: array<Bucket<Entry<K, V>>>, chains: seq<seq<Item<K, V>>>,
                       its: seq<Item<K, V>>, b: nat)
    requires HashExpand.Holds(fcn, buckets, chains, its) && b < |chains|
    ensures b < buckets.Length == |chains| && Distinct(chains[b]) && ChainLinked(chains[b])
    ensures buckets[b].hhHead == At(chains[b], 0) && buckets[b].count == |chains[b]|
    ensures forall a :: 0 <= a < |chains| ==> ChainLinked(chains[a]) && HashExpand.Inside(chains[a], its)
    ensures forall a :: 0 <= a < |chains| && a != b ==> HashExpand.Apart(chains[a], chains[b])
    ensures Placed(fcn, chains, its) && BucketsMatch(buckets[..], chains)
    ensures forall x :: x in its ==> x.hashv == fcn(x.data.key)
  {
    assert buckets[..][b] == buckets[b];
    forall a | 0 <= a < |chains| && a != b
      ensures HashExpand.Apart(chains[a], chains[b])
    {
      HashExpand.ChainsApart(fcn, chains, its, b, a);
    }
  }

  lemma NewElsewhere<K, V>(chains: seq<seq<Item<K, V>>>, its: seq<Item<K, V>>, x: Item<K, V>)
    requires x !in its && forall a :: 0 <= a < |chains| ==> HashExpand.Inside(chains[a], its)
    ensures forall a :: 0 <= a < |chains| ==> HashExpand.Apart(chains[a], [x])
  {
  }

  /** The assignments of HASH_ADD_TO_BKT. */
  method LinkFirst<K, V>(buckets: array<Bucket<Entry<K, V>>>, bkt: nat, addhh: Item<K, V>, ghost c: seq<Item<K, V>>)
    requires bkt < buckets.Length && buckets[bkt].hhHead == At(c, 0)
    requires addhh !in c && Distinct(c) && ChainLinked(c)
    modifies buckets, addhh`hhNext, addhh`hhPrev, (if |c| > 0 then {c[0]} else {})`hhPrev
    ensures ChainLinked([addhh] + c)
    ensures buckets[..] == old(buckets[..])[bkt := Bucket(addhh, old(buckets[bkt].count) + 1, old(buckets[bkt].expandMult))]
  {
    buckets[bkt] := buckets[bkt].(count := buckets[bkt].count + 1);
    addhh.hhNext := buckets[bkt].hhHead;
    addhh.hhPrev := null;
    if buckets[bkt].hhHead != null {
      buckets[bkt].hhHead.hhPrev := addhh;
    }
    buckets[bkt] := buckets[bkt].(hhHead := addhh);
  }

  /** The assignments of HASH_DEL_IN_BKT. */
  method UnlinkHh<K, V>(buckets: array<Bucket<Entry<K, V>>>, bkt: nat, del: Item<K, V>, ghost c: seq<Item<K, V>>)
    requires bkt < buckets.Length && buckets[bkt].hhHead == At(c, 0) && buckets[bkt].count == |c|
    requires del in c && Distinct(c) && ChainLinked(c)
    modifies buckets, c`hhNext, c`hhPrev
    ensures ChainLinked(Without(c, del)) && |Without(c, del)| == |c| - 1
    ensures buckets[..] == old(buckets[..])[bkt := Bucket(At(Without(c, del), 0), |c| - 1, old(buckets[bkt].expandMult))]
  {
    ghost var i :| 0 <= i < |c| && c[i] == del;
    buckets[bkt] := buckets[bkt].(count := buckets[bkt].count - 1);
    if buckets[bkt].hhHead == del {
      buckets[bkt] := buckets[bkt].(hhHead := del.hhNext);
    }
    if del.hhPrev != null {
      del.hhPrev.hhNext := del.hhNext;
    }
    if del.hhNext != null {
      del.hhNext.hhPrev := del.hhPrev;
    }
    UnlinkedChain(c, i);
  }

  /** Both neighbours of c[i] now skip it: the rest is a chain. */
  lemma UnlinkedChain<K, V>(c: seq<Item<K, V>>, i: nat)
    requires i < |c| && Distinct(c)
    requires forall j {:trigger c[j].hhNext} :: 0 <= j < |c| && j != i ==>
               c[j].hhNext == if j + 1 == i then At(c, i + 1) else At(c, j + 1)
    requires forall j {:trigger c[j].hhPrev} :: 0 <= j < |c| && j != i ==>
               c[j].hhPrev == if j == i + 1 then At(c, i - 1) else At(c, j - 1)
    ensures var w := Without(c, c[i]); ChainLinked(w) && |w| == |c| - 1 && At(w, 0) == if i == 0 then At(c, 1) else c[0]
  {
    WithoutAt(c, i);
    var w := c[..i] + c[i + 1..];
    forall j | 0 <= j < |w|
      ensures w[j].hhNext == At(w, j + 1) && w[j].hhPrev == At(w, j - 1)
    {
      assert w[j] == if j < i then c[j] else c[j + 1];
    }
  }

  lemma HoldsPopped<K, V>(fcn: K -> nat, buckets: array<Bucket<Entry<K, V>>>, bs: seq<Bucket<Entry<K, V>>>,
                          chains: seq<seq<Item<K, V>>>, its: seq<Item<K, V>>, x: Item<K, V>, b: nat)
    requires Placed(fcn, chains, its) && BucketsMatch(bs, chains) && x in its && b == Slot(fcn, x, |chains|)
    requires forall a :: 0 <= a < |chains| && a != b ==> ChainLinked(chains[a])
    requires ChainLinked(Without(chains[b], x)) && |Without(chains[b], x)| == |chains[b]| - 1
    requires buckets[..] == bs[b := Bucket(At(Without(chains[b], x), 0), bs[b].count - 1, bs[b].expandMult)]
    requires forall y :: y in its ==> y.hashv == fcn(y.data.key)
    ensures HashExpand.Holds(fcn, buckets, chains[b := Without(chains[b], x)], Without(its, x))
  {
    hide Placed, ChainLinked, Slot, Without;
    RemovePlaced(fcn, chains, its, x, b);
    WithoutMembers(its, x);
    AllInside(fcn, chains[b := Without(chains[b], x)], Without(its, x));
    HashExpand.IsHolding(fcn, buckets, chains[b := Without(chains[b], x)], Without(its, x));
  }

  lemma InItsChain<K, V>(fcn: K -> nat, chains: seq<seq<Item<K, V>>>, its: seq<Item<K, V>>, x: Item<K, V>)
    requires Placed(fcn, chains, its) && x in its
    ensures x in chains[Slot(fcn, x, |chains|)]
  {
  }

  lemma AllInside<K, V>(fcn: K -> nat, chains: seq<seq<Item<K, V>>>, its: seq<Item<K, V>>)
    requires Placed(fcn, chains, its)
    ensures forall a :: 0 <= a < |chains| ==> HashExpand.Inside(chains[a], its)
  {
  }

  lemma HoldsPushed<K, V>(fcn: K -> nat, buckets: array<Bucket<Entry<K, V>>>, bs: seq<Bucket<Entry<K, V>>>,
                          chains: seq<seq<Item<K, V>>>, its: seq<Item<K, V>>, x: Item<K, V>, b: nat)
    requires Placed(fcn, chains, its) && BucketsMatch(bs, chains) && x !in its && b == Slot(fcn, x, |chains|)
    requires forall a :: 0 <= a < |chains| ==> HashExpand.Inside(chains[a], its)
    requires forall a :: 0 <= a < |chains| && a != b ==> ChainLinked(chains[a])
    requires ChainLinked([x] + chains[b]) && buckets[..] == bs[b := Bucket(x, bs[b].count + 1, bs[b].expandMult)]
    requires x.hashv == fcn(x.data.key) && forall y :: y in its ==> y.hashv == fcn(y.data.key)
    ensures HashExpand.Holds(fcn, buckets, chains[b := [x] + chains[b]], its + [x])
  {
    hide Placed, ChainLinked, Slot;
    PushPlaced(fcn, chains, its, x, b);
    HashExpand.IsHolding(fcn, buckets, chains[b := [x] + chains[b]], its + [x]);
  }

  ghost predicate UniqueKeys<K, V>(its: seq<Item<K, V>>) {
    forall i, j :: 0 <= i < j < |its| ==> its[i].data.key != its[j].data.key
  }

  lemma UniqueAppend<K, V>(its: seq<Item<K, V>>, x: Item<K, V>)
    requires UniqueKeys(its) && forall y :: y in its ==> y.data.key != x.data.key
    ensures UniqueKeys(its + [x])
  {
  }

  /** Both neighbours of s[i] now skip it: the rest is in application order. */
  lemma UnlinkedOrder<T>(s: seq<Node<T>>, i: nat)
    requires i < |s| && Distinct(s)
    requires forall j {:trigger s[j].next} :: 0 <= j < |s| && j != i ==>
               s[j].next == if j + 1 == i then At(s, i + 1) else At(s, j + 1)
    requires forall j {:trigger s[j].prev} :: 0 <= j < |s| && j != i ==>
               s[j].prev == if j == i + 1 then At(s, i - 1) else At(s, j - 1)
    ensures var w := Without(s, s[i]); Linked(AppOrder, w) && |w| == |s| - 1
    ensures var w := Without(s, s[i]); At(w, 0) == (if i == 0 then At(s, 1) else s[0])
                                       && Last(w) == (if i == |s| - 1 then At(s, i - 1) else s[|s| - 1])
  {
    WithoutAt(s, i);
    var w := s[..i] + s[i + 1..];
    forall j | 0 <= j < |w|
      ensures w[j].next == At(w, j + 1) && w[j].prev == At(w, j - 1)
    {
      assert w[j] == if j < i then s[j] else s[j + 1];
    }
    assert Distinct(w);
  }

  /** An element has no neighbours exactly if it is the only one. */
  lemma AloneOrNot<T>(s: seq<Node<T>>, x: Node<T>)
    requires Linked(AppOrder, s) && x in s
    ensures Distinct(s) && (x.prev == null && x.next == null <==> |s| == 1)
    ensures |s| == 1 ==> Without(s, x) == []
  {
    var i :| 0 <= i < |s| && s[i] == x;
    if |s| == 1 {
      WithoutAt(s, 0);
    }
  }

  lemma WithoutUnique<K, V>(its: seq<Item<K, V>>, x: Item<K, V>)
    requires UniqueKeys(its) && x in its
    ensures UniqueKeys(Without(its, x))
  {
    var i :| 0 <= i < |its| && its[i] == x;
    assert Distinct(its);
    WithoutAt(its, i);
  }

  lemma NotElsewhere<K, V>(fcn: K -> nat, chains: seq<seq<Item<K, V>>>, its: seq<Item<K, V>>, key: K)
    requires Placed(fcn, chains, its)
    requires forall i :: 0 <= i < |chains[fcn(key) % |chains|]| ==> chains[fcn(key) % |chains|][i].data.key != key
    ensures forall x :: x in its ==> x.data.key != key
  {
    forall x | x in its
      ensures x.data.key != key
    {
      assert x in chains[Slot(fcn, x, |chains|)];
    }
  }

  lemma SamePlaced<K, V>(fcn: K -> nat, chains: seq<seq<Item<K, V>>>, its: seq<Item<K, V>>, r: seq<Item<K, V>>)
    requires Placed(fcn, chains, its) && forall x :: x in r <==> x in its
    ensures Placed(fcn, chains, r)
  {
  }

  /** The head pointer an application keeps, with the UT_hash_table that its elements point to.
      While head is null there is no table and the other fields mean nothing. */
  class Table<K(==), V> {
    const fcn: K -> nat
    const bloom: BloomSetting
    var head: Node?<Entry<K, V>>
    var tail: Node?<Entry<K, V>>
    var buckets: array<Bucket<Entry<K, V>>>
    var numBuckets: nat
    var log2NumBuckets: nat
    var numItems: nat
    var idealChainMaxlen: nat
    var nonidealItems: nat
    var ineffExpands: nat
    var noexpand: nat
    var bloomBv: array<bv8>
    ghost var items: seq<Item<K, V>>
    ghost var chains: seq<seq<Item<K, V>>>

    /** The bucket side holds exactly the elements of its. */
    ghost predicate Bucketed(its: seq<Item<K, V>>)
      reads `numBuckets, `log2NumBuckets, `chains, `buckets, buckets, its`hhNext, its`hhPrev, its`hashv
    {
      && numBuckets == buckets.Length == Pow2(log2NumBuckets)
      && HashExpand.Holds(fcn, buckets, chains, its)
      && Total(Count, buckets[..]) == |its|
    }

    /** Doubling is given up exactly after two doublings in a row that did not help; there have been log2_num_buckets - 5
        doublings in all. */
    ghost predicate Expansions()
      reads `noexpand, `ineffExpands, `log2NumBuckets
    {
      noexpand <= 1 && (noexpand == 1 <==> ineffExpands > 1) && ineffExpands + 5 <= log2NumBuckets
    }

    /** While doubling is still allowed the joint load invariant holds. */
    ghost predicate MayDouble()
      reads `noexpand, `ineffExpands, `log2NumBuckets, `buckets, buckets
    {
      Expansions() && (noexpand == 0 ==> Balanced(buckets[..]))
    }

    /** The weaker invariant of a table filled by HASH_SELECT. */
    ghost predicate NearlyMayDouble()
      reads `noexpand, `ineffExpands, `log2NumBuckets, `buckets, buckets
    {
      Expansions() && (noexpand == 0 ==> NearlyBalanced(buckets[..]))
    }

    lemma BucketTotals(its: seq<Item<K, V>>)
      requires Bucketed(its)
      ensures |chains| == numBuckets && HashExpand.TotalLength(chains) == |its|
    {
      HashExpand.MatchedTotal(buckets[..], chains);
    }

    /** HASH_EXPAND_BUCKETS. */
    method ExpandBuckets(ghost its: seq<Item<K, V>>)
      requires Bucketed(its) && numItems > 0 && Expansions() && noexpand == 0
      modifies `buckets, `numBuckets, `log2NumBuckets, `idealChainMaxlen, `nonidealItems, `ineffExpands, `noexpand,
               `chains, its`hhNext, its`hhPrev
      ensures Bucketed(its) && fresh(buckets) && Expansions()
      ensures numBuckets == 2 * old(numBuckets) && Split(fcn, old(chains), chains)
      ensures idealChainMaxlen == CeilDiv(numItems, numBuckets)
      ensures nonidealItems == Total(Excess(idealChainMaxlen), buckets[..])
      ensures idealChainMaxlen > 0 && forall b :: 0 <= b < numBuckets ==>
                buckets[b].expandMult
                == if buckets[b].count > idealChainMaxlen then buckets[b].count / idealChainMaxlen else 0
      ensures ineffExpands == (if nonidealItems > numItems / 2 then old(ineffExpands) + 1 else 0)
      ensures noexpand == 1 <==> ineffExpands > 1
      ensures numItems == |its| <= 2 * BKT_CAPACITY_THRESH * old(numBuckets) ==> MayDouble()
      ensures numBuckets > BKT_CAPACITY_THRESH && BKT_CAPACITY_THRESH <= |its| == numItems + 1 ==>
                (|its| <= 2 * BKT_CAPACITY_THRESH * old(numBuckets) ==> NearlyMayDouble())
    {
      hide HashExpand.Holds, Split, Balanced, NearlyBalanced, CeilDiv, Pow2, Total, MultAfter, Filled,
           HashExpand.TotalLength;
      ghost var was := chains;
      BucketTotals(its);
      var ideal, nonideal;
      ghost var after;
      buckets, ideal, nonideal, after := HashExpand.ExpandBuckets(fcn, buckets, numBuckets, log2NumBuckets, numItems, chains, its);
      idealChainMaxlen, nonidealItems, chains := ideal, nonideal, after;
      AfterDoubling(fcn, buckets, was, after, its, log2NumBuckets, ideal);
      assert |buckets[..]| == buckets.Length;
      numBuckets := numBuckets * 2;
      log2NumBuckets := log2NumBuckets + 1;
      ineffExpands := if nonidealItems > numItems / 2 then ineffExpands + 1 else 0;
      if ineffExpands > 1 {
        noexpand := 1;
      }
      if numItems == |its| <= BKT_CAPACITY_THRESH * buckets.Length {
        DoublingBalances(buckets[..], ideal);
      } else if BKT_CAPACITY_THRESH <= numItems + 1 == |its| <= BKT_CAPACITY_THRESH * buckets.Length
                && buckets.Length > BKT_CAPACITY_THRESH {
        DoublingNearlyBalances(buckets[..], ideal);
      }
    }

    /** No doubling in between. */
    twostate predicate SameSize()
      reads `numBuckets, `log2NumBuckets, `idealChainMaxlen, `nonidealItems, `ineffExpands, `noexpand
    {
      && numBuckets == old(numBuckets) && log2NumBuckets == old(log2NumBuckets)
      && idealChainMaxlen == old(idealChainMaxlen) && nonidealItems == old(nonidealItems)
      && ineffExpands == old(ineffExpands) && noexpand == old(noexpand)
    }

    /** HASH_ADD_TO_BKT without the doubling. */
    method PushOnBkt(bkt: nat, addhh: Item<K, V>, ghost its: seq<Item<K, V>>)
      requires Bucketed(its) && addhh !in its && addhh.hashv == fcn(addhh.data.key) && bkt == Slot(fcn, addhh, numBuckets)
      modifies buckets, addhh`hhNext, addhh`hhPrev, its`hhPrev, `chains
      ensures Bucketed(its + [addhh]) && chains == old(chains)[bkt := [addhh] + old(chains)[bkt]]
      ensures buckets[..] == old(buckets[..])[bkt := Bucket(addhh, old(buckets[bkt].count) + 1, old(buckets[bkt].expandMult))]
    {
      hide HashExpand.Holds, ChainLinked, Placed, Total, Slot, Distinct, Pow2, BucketsMatch;
      BucketTotals(its);
      ghost var c, bs := chains[bkt], buckets[..];
      Touching(fcn, buckets, chains, its, bkt);
      NewElsewhere(chains, its, addhh);
      LinkFirst(buckets, bkt, addhh, c);
      TotalUpdate(Count, bs, bkt, buckets[..][bkt]);
      HoldsPushed(fcn, buckets, bs, chains, its, addhh, bkt);
      chains := chains[bkt := [addhh] + c];
    }

    /** One more item makes the bucket reach its threshold. */
    static predicate AtThreshold(b: Bucket<Entry<K, V>>) {
      b.count + 1 >= 10 * (b.expandMult + 1)
    }

    /** HASH_ADD_TO_BKT: push, and double when the bucket reaches its threshold. HASH_ADD_KEYPTR has counted the
        element before, HASH_SELECT counts it afterwards. */
    method AddToBkt(bkt: nat, addhh: Item<K, V>, ghost its: seq<Item<K, V>>)
      requires Bucketed(its) && Expansions() && |its| <= numItems <= |its| + 1
      requires addhh !in its && addhh.hashv == fcn(addhh.data.key) && bkt == Slot(fcn, addhh, numBuckets)
      modifies `buckets, `numBuckets, `log2NumBuckets, `idealChainMaxlen, `nonidealItems, `ineffExpands, `noexpand, `chains
      modifies buckets, addhh`hhNext, addhh`hhPrev, its`hhNext, its`hhPrev
      ensures Bucketed(its + [addhh]) && Expansions() && (buckets == old(buckets) || fresh(buckets))
      ensures old(MayDouble()) && numItems == |its| + 1 ==> MayDouble()
      ensures old(NearlyMayDouble()) && numItems == |its| && old(numBuckets) > BKT_CAPACITY_THRESH ==> NearlyMayDouble()
      ensures if old(noexpand) == 0 && AtThreshold(old(buckets[bkt]))
              then fresh(buckets) && numBuckets == 2 * old(numBuckets)
                   && Split(fcn, old(chains)[bkt := [addhh] + old(chains)[bkt]], chains)
              else buckets == old(buckets) && SameSize()
                   && chains == old(chains)[bkt := [addhh] + old(chains)[bkt]]
    {
      hide HashExpand.Holds, Placed, Total, Slot, Pow2, Balanced, NearlyBalanced, WithinThreshold;
      ghost var bs := buckets[..];
      ghost var counted := MayDouble() && numItems == |its| + 1;
      ghost var late := NearlyMayDouble() && numItems == |its| && numBuckets > BKT_CAPACITY_THRESH;
      SlotInTable(its, addhh);
      CountWithin(bs, bkt);
      if counted && noexpand == 0 {
        LoadBound(bs);
      } else if late && noexpand == 0 {
        NearLoadBound(bs);
      }
      PushOnBkt(bkt, addhh, its);
      if buckets[bkt].count >= (buckets[bkt].expandMult + 1) * BKT_CAPACITY_THRESH && noexpand != 1 {
        ExpandBuckets(its + [addhh]);
      } else if counted && noexpand == 0 {
        PushBalances(bs, bkt, buckets[bkt]);
      } else if late && noexpand == 0 {
        PushNearlyBalances(bs, bkt, buckets[bkt]);
      }
    }

    lemma SlotInTable(its: seq<Item<K, V>>, x: Item<K, V>)
      requires Bucketed(its)
      ensures Slot(fcn, x, numBuckets) < |buckets[..]| == numBuckets == |chains|
    {
    }

    /** Every element's hash value tests positive in the filter, if there is one. */
    ghost predicate BloomCovers(its: seq<Item<K, V>>)
      reads `bloomBv, bloomBv
    {
      bloom.BloomBits? ==>
        && bloomBv.Length == HashBloom.ByteLength(bloom.nbits)
        && forall k :: 0 <= k < |its| ==>
             HashBloom.TestBit(bloomBv[..], HashBloom.Index(fcn(its[k].data.key), bloom.nbits))
    }

    /** HASH_BLOOM_ADD */
    method BloomAdd(x: Item<K, V>, ghost its: seq<Item<K, V>>)
      requires BloomCovers(its) && x.hashv == fcn(x.data.key)
      modifies if bloom.BloomBits? then {bloomBv} else {}
      ensures BloomCovers(its + [x])
    {
      hide HashBloom.TestBit, HashBloom.Index, HashBloom.ByteLength, HashBloom.SetBit;
      if bloom.BloomBits? {
        ghost var bv := bloomBv[..];
        HashBloom.Add(bloomBv, bloom.nbits, x.hashv);
        forall k | 0 <= k < |its| + 1
          ensures HashBloom.TestBit(bloomBv[..], HashBloom.Index(fcn((its + [x])[k].data.key), bloom.nbits))
        {
          HashBloom.AddKeeps(bv, bloom.nbits, x.hashv, fcn((its + [x])[k].data.key));
        }
      }
    }

    /** HASH_BLOOM_TEST */
    predicate BloomTest(hashv: nat)
      requires bloom.BloomBits? ==> bloomBv.Length == HashBloom.ByteLength(bloom.nbits)
      reads `bloomBv, bloomBv
    {
      bloom.BloomBits? ==> HashBloom.TestBit(bloomBv[..], HashBloom.Index(hashv, bloom.nbits))
    }

    /** HASH_DEL_IN_BKT */
    method DelInBkt(bkt: nat, del: Item<K, V>, ghost its: seq<Item<K, V>>)
      requires Bucketed(its) && MayDouble() && Distinct(its) && del in its && bkt == Slot(fcn, del, numBuckets)
      modifies buckets, its`hhNext, its`hhPrev, `chains
      ensures Bucketed(Without(its, del)) && MayDouble() && |Without(its, del)| == |its| - 1
      ensures chains == old(chains)[bkt := Without(old(chains)[bkt], del)]
      ensures buckets[..] == old(buckets[..])[bkt := Bucket(At(chains[bkt], 0), old(buckets[bkt].count) - 1,
                                                            old(buckets[bkt].expandMult))]
    {
      hide HashExpand.Holds, ChainLinked, Placed, Total, Slot, Distinct, Pow2, BucketsMatch, Without, Balanced;
      BucketTotals(its);
      ghost var c, bs := chains[bkt], buckets[..];
      Touching(fcn, buckets, chains, its, bkt);
      InItsChain(fcn, chains, its, del);
      WithoutOnce(its, del);
      UnlinkHh(buckets, bkt, del, c);
      TotalUpdate(Count, bs, bkt, buckets[..][bkt]);
      HoldsPopped(fcn, buckets, bs, chains, its, del, bkt);
      if noexpand == 0 {
        PopBalances(bs, bkt, buckets[..][bkt]);
      }
      chains := chains[bkt := Without(c, del)];
    }

    ghost predicate AppOrdered()
      reads `items, `tail, `numItems, items`next, items`prev
    {
      Linked(AppOrder, items) && tail == Last(items) && numItems == |items|
    }

    ghost predicate TableOk()
      reads this, buckets, bloomBv, items
    {
      AppOrdered() && Bucketed(items) && MayDouble() && BloomCovers(items) && bloomBv as object != buckets
    }

    ghost predicate Valid()
      reads this, buckets, bloomBv, items
    {
      head == At(items, 0) && UniqueKeys(items) && (head != null ==> TableOk())
    }

    /** What a lookup relies on. */
    ghost predicate Findable()
      reads this, buckets, bloomBv, items
    {
      head == At(items, 0) && (head != null ==> Bucketed(items) && BloomCovers(items))
    }

    constructor (fcn: K -> nat, bloom: BloomSetting)
      ensures Valid() && items == [] && this.fcn == fcn && this.bloom == bloom
      ensures fresh(buckets) && fresh(bloomBv)
    {
      this.fcn, this.bloom := fcn, bloom;
      head, items, chains := null, [], [];
      buckets := new Bucket<Entry<K, V>>[0];
      bloomBv := new bv8[0];
    }

    /** No hash value tests positive in the filter, if there is one. */
    ghost predicate BloomEmpty()
      reads `bloomBv, bloomBv
    {
      bloom.BloomBits? ==>
        bloomBv.Length == HashBloom.ByteLength(bloom.nbits) && forall i :: 0 <= i < bloomBv.Length ==> bloomBv[i] == 0
    }

    /** HASH_BLOOM_MAKE */
    method BloomMake()
      modifies `bloomBv
      ensures fresh(bloomBv) && BloomCovers([]) && BloomEmpty()
    {
      hide HashBloom.ByteLength;
      bloomBv := new bv8[if bloom.BloomBits? then HashBloom.ByteLength(bloom.nbits) else 0](_ => 0);
    }

    method MakeBuckets()
      modifies `numBuckets, `log2NumBuckets, `buckets, `chains
      ensures fresh(buckets) && Bucketed([]) && Balanced(buckets[..]) && numBuckets == 32 && log2NumBuckets == 5
      ensures |chains| == buckets.Length == numBuckets
      ensures forall b :: 0 <= b < numBuckets ==> chains[b] == [] && buckets[b] == Bucket(null, 0, 0)
    {
      hide Bucketed, Balanced;
      numBuckets, log2NumBuckets := INITIAL_NUM_BUCKETS, INITIAL_NUM_BUCKETS_LOG2;
      buckets := new Bucket<Entry<K, V>>[INITIAL_NUM_BUCKETS](_ => Bucket(null, 0, 0));
      chains := seq(INITIAL_NUM_BUCKETS, _ => []);
      EmptyTable();
    }

    lemma EmptyTable()
      requires numBuckets == buckets.Length == |chains| == INITIAL_NUM_BUCKETS
      requires log2NumBuckets == INITIAL_NUM_BUCKETS_LOG2
      requires forall b :: 0 <= b < numBuckets ==> buckets[b] == Bucket(null, 0, 0) && chains[b] == []
      ensures Bucketed([]) && Balanced(buckets[..])
    {
      SmallPowers();
      TotalZero(Count, buckets[..]);
      TotalZero(Mult, buckets[..]);
    }

    /** HASH_MAKE_TABLE, called with the first element already in place. */
    method MakeTable()
      requires head != null
      modifies `tail, `numItems, `idealChainMaxlen, `nonidealItems, `ineffExpands, `noexpand
      modifies `numBuckets, `log2NumBuckets, `buckets, `chains, `bloomBv
      ensures tail == head && numItems == 0
      ensures fresh(buckets) && fresh(bloomBv) && Bucketed([]) && MayDouble() && BloomCovers([])
      ensures numBuckets == 32 && log2NumBuckets == 5 && noexpand == 0 && ineffExpands == 0
      ensures |chains| == buckets.Length == numBuckets
      ensures forall b :: 0 <= b < numBuckets ==> chains[b] == [] && buckets[b].count == 0 && buckets[b].expandMult == 0
      ensures bloomBv as object != buckets && BloomEmpty()
    {
      hide Bucketed, Balanced, BloomCovers;
      tail := head;
      numItems, idealChainMaxlen, nonidealItems, ineffExpands, noexpand := 0, 0, 0, 0, 0;
      MakeBuckets();
      BloomMake();
    }

    /** The first half of HASH_ADD_KEYPTR: make the table or link the element after the tail. */
    method LinkLast(add: Item<K, V>)
      requires Valid() && add !in items
      modifies this, items`next, add`next, add`prev
      ensures items == old(items) && Linked(AppOrder, items + [add]) && head == At(items + [add], 0) && tail == add
      ensures numItems == |items| && Bucketed(items) && MayDouble() && BloomCovers(items) && bloomBv as object != buckets
      ensures buckets == old(buckets) || fresh(buckets)
      ensures bloomBv == old(bloomBv) || fresh(bloomBv)
      ensures if old(head) == null
              then numBuckets == 32 && noexpand == 0 && ineffExpands == 0
                   && forall b :: 0 <= b < buckets.Length ==> buckets[b].count == 0 && buckets[b].expandMult == 0
              else buckets == old(buckets) && SameSize()
    {
      hide HashExpand.Holds, Total, Balanced, Pow2;
      add.next := null;
      if head == null {
        head := add;
        add.prev := null;
        MakeTable();
      } else {
        tail.next := add;
        add.prev := tail;
        tail := add;
      }
    }

    /** The second half: count the element, hash it, put it in its bucket and in the filter. */
    method IndexLast(add: Item<K, V>, ghost its: seq<Item<K, V>>)
      requires Bucketed(its) && MayDouble() && BloomCovers(its) && numItems == |its| && add !in its
      requires bloomBv as object != buckets
      modifies `buckets, `numBuckets, `log2NumBuckets, `idealChainMaxlen, `nonidealItems, `ineffExpands, `noexpand, `chains
      modifies `numItems, buckets, bloomBv, add`hhNext, add`hhPrev, add`hashv, its`hhNext, its`hhPrev
      ensures Bucketed(its + [add]) && MayDouble() && BloomCovers(its + [add]) && numItems == |its| + 1
      ensures bloomBv as object != buckets && (buckets == old(buckets) || fresh(buckets))
      ensures old(numBuckets) > 0 && fcn(add.data.key) % old(numBuckets) < old(buckets.Length)
      ensures if old(noexpand) == 0 && AtThreshold(old(buckets[fcn(add.data.key) % numBuckets]))
              then numBuckets == 2 * old(numBuckets) else SameSize()
    {
      hide Bucketed, Balanced, BloomCovers;
      numItems := numItems + 1;
      add.hashv := fcn(add.data.key);
      BucketOfKey(its, add.data.key);
      SlotByMask(its, add);
      AddToBkt(And(add.hashv, numBuckets - 1), add, its);
      BloomAdd(add, its);
    }

    /** HASH_ADD_KEYPTR */
    method Add(add: Item<K, V>)
      requires Valid() && add !in items && forall x :: x in items ==> x.data.key != add.data.key
      modifies this, buckets, bloomBv, items, add
      ensures Valid() && items == old(items) + [add]
      ensures buckets == old(buckets) || fresh(buckets)
      ensures bloomBv == old(bloomBv) || fresh(bloomBv)
      ensures if old(head) == null then numBuckets == 32 && noexpand == 0 && ineffExpands == 0
              else if old(noexpand) == 0 && (var b := old(buckets[fcn(add.data.key) % numBuckets]);
                                             b.count + 1 >= 10 * (b.expandMult + 1))
              then numBuckets == 2 * old(numBuckets)
              else numBuckets == old(numBuckets) && noexpand == old(noexpand) && ineffExpands == old(ineffExpands)
    {
      hide Bucketed, MayDouble, BloomCovers, Linked, UniqueKeys;
      ghost var its := items;
      if head != null {
        BucketOfKey(items, add.data.key);
      }
      UniqueAppend(its, add);
      LinkLast(add);
      IndexLast(add, its);
      items := its + [add];
      assert AppOrdered() && Bucketed(items) && MayDouble() && BloomCovers(items);
    }

    lemma BucketOfKey(its: seq<Item<K, V>>, key: K)
      requires Bucketed(its)
      ensures numBuckets > 0 && fcn(key) % numBuckets < buckets.Length
    {
    }

    lemma SlotByMask(its: seq<Item<K, V>>, x: Item<K, V>)
      requires Bucketed(its) && x.hashv == fcn(x.data.key)
      ensures numBuckets > 0 && And(x.hashv, numBuckets - 1) == Slot(fcn, x, numBuckets)
    {
      SlotMask(fcn, x, numBuckets, log2NumBuckets);
    }

    /** The application-order half of HASH_DELETE, for an element that is not alone. */
    method UnlinkOrder(del: Item<K, V>)
      requires head == At(items, 0) && Linked(AppOrder, items) && tail == Last(items) && del in items && |items| > 1
      modifies `head, `tail, items`next, items`prev
      ensures var its := Without(items, del); Linked(AppOrder, its) && head == At(its, 0) && tail == Last(its) && its != []
    {
      ghost var i :| 0 <= i < |items| && items[i] == del;
      if del == tail {
        tail := del.prev;
      }
      if del.prev != null {
        del.prev.next := del.next;
      } else {
        head := del.next;
      }
      if del.next != null {
        del.next.prev := del.prev;
      }
      UnlinkedOrder(items, i);
    }

    /** The bucket half of HASH_DELETE. */
    method Unindex(del: Item<K, V>, ghost its: seq<Item<K, V>>, ghost order: seq<Item<K, V>>)
      requires Bucketed(its) && MayDouble() && BloomCovers(its) && numItems == |its| && Distinct(its) && del in its
      requires bloomBv as object != buckets && Linked(AppOrder, order)
      modifies `numItems, `chains, buckets, its`hhNext, its`hhPrev
      ensures Bucketed(Without(its, del)) && MayDouble() && BloomCovers(Without(its, del))
      ensures numItems == |Without(its, del)| && bloomBv as object != buckets && Linked(AppOrder, order)
    {
      hide Bucketed, MayDouble, Without, BloomCovers, Distinct, Slot;
      HashKnown(its, del);
      SlotByMask(its, del);
      DelInBkt(And(del.hashv, numBuckets - 1), del, its);
      numItems := numItems - 1;
      StillCovers(its, del);
    }

    lemma HashKnown(its: seq<Item<K, V>>, x: Item<K, V>)
      requires Bucketed(its) && x in its
      ensures x.hashv == fcn(x.data.key)
    {
    }

    /** HASH_DELETE */
    method Delete(del: Item<K, V>)
      requires Valid() && del in items
      modifies `head, `tail, `numItems, `items, `chains, buckets, items
      ensures Valid() && items == Without(old(items), del)
    {
      hide Bucketed, MayDouble, Linked, UniqueKeys, Without, BloomCovers, Distinct;
      ghost var its, rest := items, Without(items, del);
      AloneOrNot(its, del);
      WithoutUnique(its, del);
      if del.prev == null && del.next == null {
        head := null;
        items := rest;
      } else {
        UnlinkOrder(del);
        Unindex(del, its, rest);
        items := rest;
        assert AppOrdered() && Bucketed(items) && MayDouble() && BloomCovers(items);
      }
    }

    /** Deleting leaves the filter alone; it still covers the rest. */
    lemma StillCovers(its: seq<Item<K, V>>, x: Item<K, V>)
      requires BloomCovers(its)
      ensures BloomCovers(Without(its, x))
    {
      hide HashBloom.TestBit, HashBloom.Index, HashBloom.ByteLength, Without;
      WithoutMembers(its, x);
      if bloom.BloomBits? {
        var w := Without(its, x);
        forall k | 0 <= k < |w|
          ensures HashBloom.TestBit(bloomBv[..], HashBloom.Index(fcn(w[k].data.key), bloom.nbits))
        {
          assert w[k] in w && w[k] in its;
        }
      }
    }

    /** HASH_FIND_IN_BKT */
    method FindInBkt(bkt: nat, key: K) returns (out: Node?<Entry<K, V>>)
      requires Bucketed(items) && bkt == fcn(key) % numBuckets
      ensures out != null ==> out in items && out.data.key == key
      ensures out == null ==> forall x :: x in items ==> x.data.key != key
    {
      hide Placed, Pow2, Total;
      BucketTotals(items);
      ghost var c, j := chains[bkt], 0;
      Touching(fcn, buckets, chains, items, bkt);
      out := buckets[bkt].hhHead;
      while out != null
        invariant j <= |c| && out == At(c, j) && forall i :: 0 <= i < j ==> c[i].data.key != key
        decreases |c| - j
      {
        if out.data.key == key {
          break;
        }
        out, j := out.hhNext, j + 1;
      }
      if out == null {
        NotElsewhere(fcn, chains, items, key);
      }
    }

    /** HASH_FIND */
    method Find(key: K) returns (out: Node?<Entry<K, V>>)
      requires Findable()
      ensures out != null ==> out in items && out.data.key == key
      ensures out == null ==> forall x :: x in items ==> x.data.key != key
    {
      hide Bucketed;
      out := null;
      if head != null {
        var hashv := fcn(key);
        SlotOfKey(hashv);
        var bkt := And(hashv, numBuckets - 1);
        if BloomTest(hashv) {
          out := FindInBkt(bkt, key);
        }
      }
    }

    lemma SlotOfKey(hashv: nat)
      requires Bucketed(items)
      ensures numBuckets > 0 && And(hashv, numBuckets - 1) == hashv % numBuckets
    {
      AndMask(hashv, log2NumBuckets);
    }

    /** A table that is not empty, spelled out: the application order linked both ways from head to tail; every bucket
        a chain linked both ways from its head with its length as count; every element in exactly the chain that its
        key's hash selects; a power of two buckets; doubling given up only after two doublings. */
    lemma TableIs()
      requires Valid() && head != null
      ensures |items| > 0 && head == items[0] && tail == items[|items| - 1] && numItems == |items|
      ensures forall i :: 0 <= i < |items| ==>
                && items[i].next == (if i == |items| - 1 then null else items[i + 1])
                && items[i].prev == (if i == 0 then null else items[i - 1])
      ensures numBuckets == buckets.Length == |chains| == Pow2(log2NumBuckets) && HashExpand.TotalLength(chains) == |items|
      ensures forall b :: 0 <= b < numBuckets ==>
                && buckets[b].hhHead == (if |chains[b]| == 0 then null else chains[b][0])
                && buckets[b].count == |chains[b]|
                && forall i :: 0 <= i < |chains[b]| ==>
                     && chains[b][i] in items && fcn(chains[b][i].data.key) % numBuckets == b
                     && chains[b][i].hhNext == (if i == |chains[b]| - 1 then null else chains[b][i + 1])
                     && chains[b][i].hhPrev == (if i == 0 then null else chains[b][i - 1])
      ensures numBuckets > 0 && forall x :: x in items ==> x in chains[fcn(x.data.key) % numBuckets]
      ensures noexpand <= 1 && (noexpand == 1 <==> ineffExpands > 1) && ineffExpands + 5 <= log2NumBuckets
    {
      BucketTotals(items);
      ShapeIs(AppOrder, items);
      forall b | 0 <= b < numBuckets
        ensures buckets[b].hhHead == At(chains[b], 0) && buckets[b].count == |chains[b]| && ChainLinked(chains[b])
      {
        Touching(fcn, buckets, chains, items, b);
      }
      hide HashExpand.Holds, Total, Pow2, HashExpand.TotalLength, Balanced;
    }

    /** While doubling is allowed there are fewer than 20 elements per bucket, and a chain is longer than
        10 only in a bucket whose expand_mult permits it. */
    lemma LoadBounded()
      requires Valid() && head != null && noexpand == 0
      ensures |items| < 20 * numBuckets
      ensures forall b :: 0 <= b < numBuckets ==> |chains[b]| <= 10 || |chains[b]| < 10 * (buckets[b].expandMult + 1)
    {
      LoadBound(buckets[..]);
      forall b | 0 <= b < numBuckets
        ensures |chains[b]| <= 10 || |chains[b]| < 10 * (buckets[b].expandMult + 1)
      {
        Touching(fcn, buckets, chains, items, b);
        assert WithinThreshold(buckets[..][b]);
      }
    }

    /** Giving up takes two doublings, so up to 64 buckets the bound needs no hypothesis. */
    lemma SmallTableLoadBounded()
      requires Valid() && head != null && numBuckets <= 64
      ensures noexpand == 0 && |items| < 20 * numBuckets
    {
      SmallPowers();
      if log2NumBuckets > 6 {
        Pow2Monotone(7, log2NumBuckets);
      }
      LoadBounded();
    }

    /** The bucket side, the keys and the filter do not depend on the application order. */
    lemma Reordered(r: seq<Item<K, V>>)
      requires Bucketed(items) && UniqueKeys(items) && BloomCovers(items) && multiset(r) == multiset(items) && Distinct(r)
      ensures Bucketed(r) && UniqueKeys(r) && BloomCovers(r) && |r| == |items|
    {
      hide HashBloom.TestBit, HashBloom.Index, HashBloom.ByteLength, Pow2, Total;
      SameMembers(r, items);
      assert |r| == |multiset(r)| && |items| == |multiset(items)|;
      forall k | 0 <= k < |r|
        ensures r[k] in items
      {
      }
      SamePlaced(fcn, chains, items, r);
    }

    /** HASH_SRT: only the application order changes; buckets, chains and hence lookups do not. */
    method Sort(cmp: (Item<K, V>, Item<K, V>) -> int)
      requires Valid()
      modifies `head, `tail, `items, items`next, items`prev
      ensures Valid() && items == SortFrom(cmp, old(items), 1)
      ensures head != null ==> buckets[..] == old(buckets[..])
    {
      hide Bucketed, MayDouble, BloomCovers, Linked, UniqueKeys, SortFrom;
      if head != null {
        ghost var its, r, passes, cmps, insize := items, items, 0, 0, 0;
        SortFromPermutes(cmp, items, 1);
        head, tail, r, passes, cmps, insize := ListSort.Sort(AppOrder, cmp, head, items);
        LinkedDistinct(AppOrder, r);
        Reordered(r);
        items := r;
        assert AppOrdered() && Bucketed(items) && MayDouble() && BloomCovers(items);
      }
    }

    lemma OrderOf()
      requires Valid()
      ensures Linked(AppOrder, items) && Distinct(items)
    {
    }

    /** The elements left behind by a walk, when it stands on s[i] and has not decided about it yet. */
    lemma IterNext(drop: Item<K, V> -> bool, s: seq<Item<K, V>>, i: nat)
      requires Valid() && Distinct(s) && i <= |s| && items == Swept(drop, s, i)
      ensures i < |s| ==> s[i] in items && s[i].next == At(s, i + 1)
    {
      hide TableOk, UniqueKeys, Swept;
      OrderOf();
      if i < |s| {
        WalkOn(AppOrder, drop, s, i);
      }
    }

    /** A loop body that deletes the elements it chooses. */
    method IterBody(drop: Item<K, V> -> bool, el: Item<K, V>, ghost s: seq<Item<K, V>>, ghost i: nat)
      requires Valid() && Distinct(s) && i < |s| && el == s[i] && items == Swept(drop, s, i)
      modifies `head, `tail, `numItems, `items, `chains, buckets, items
      ensures Valid() && items == Swept(drop, s, i + 1)
      ensures forall k :: 0 <= k < |items| ==> items[k] in s
    {
      hide Valid, Swept, Without;
      IterNext(drop, s, i);
      SweptStep(drop, s, i);
      SweptMembers(drop, s, i + 1);
      if drop(el) {
        Delete(el);
      }
    }

    /** HASH_ITER with a body that deletes the elements it chooses. */
    method IterDelete(drop: Item<K, V> -> bool) returns (ghost visited: seq<Item<K, V>>)
      requires Valid()
      modifies `head, `tail, `numItems, `items, `chains, buckets, items
      ensures Valid() && visited == old(items) && items == Filter(Not(drop), old(items))
    {
      hide TableOk, UniqueKeys, Swept, Filter;
      ghost var s, i := items, 0;
      SweptEnds(drop, s);
      OrderOf();
      IterNext(drop, s, 0);
      var el := head;
      var tmp := if head != null then head.next else null;
      visited := [];
      while el != null
        invariant Valid() && i <= |s| && el == At(s, i) && tmp == At(s, i + 1)
        invariant visited == s[..i] && items == Swept(drop, s, i) && forall k :: 0 <= k < |items| ==> items[k] in s
        decreases |s| - i
      {
        visited := visited + [el];
        IterBody(drop, el, s, i);
        el, i := tmp, i + 1;
        IterNext(drop, s, i);
        tmp := if tmp != null then tmp.next else null;
      }
    }
  }
}
