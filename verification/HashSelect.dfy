/** HASH_SELECT: put the elements of one hash that satisfy a condition into a second, empty one. */
module HashSelect {
  import opened Bits
  import opened Seqs
  import opened Links
  import opened StableMerge
  import opened HashLoad
  import opened HashChains
  import HashBloom
  import HashExpand
  import HashFsck
  import UtHash

  /** An element of both tables has two handles. handle takes the first to the second, which lies at a fixed offset:
      it has the same key, and no second handle is a first one. */
  ghost predicate SecondHandles<K, V>(handle: Item<K, V> -> Item<K, V>, its: seq<Item<K, V>>) {
    && (forall i {:trigger its[i].data} :: 0 <= i < |its| ==> handle(its[i]).data == its[i].data)
    && (forall i :: 0 <= i < |its| ==> handle(its[i]) !in its)
  }

  function Handles<K, V>(handle: Item<K, V> -> Item<K, V>, s: seq<Item<K, V>>): (r: seq<Item<K, V>>)
    ensures |r| == |s| && forall i :: 0 <= i < |s| ==> r[i] == handle(s[i])
  {
    seq(|s|, i requires 0 <= i < |s| => handle(s[i]))
  }

  /** The order in which buckets are walked. */
  ghost function Walked<T>(cs: seq<seq<T>>): seq<T> {
    if |cs| == 0 then [] else Walked(cs[..|cs| - 1]) + cs[|cs| - 1]
  }

  lemma {:induction false} WalkedMembers<T>(cs: seq<seq<T>>)
    ensures forall x :: x in Walked(cs) ==> exists b :: 0 <= b < |cs| && x in cs[b]
    ensures forall b :: 0 <= b < |cs| ==> forall x :: x in cs[b] ==> x in Walked(cs)
  {
    if |cs| > 0 {
      WalkedMembers(cs[..|cs| - 1]);
    }
  }

  lemma {:induction false} WalkedDistinct<T>(cs: seq<seq<T>>)
    requires forall b :: 0 <= b < |cs| ==> Distinct(cs[b])
    requires forall a, b :: 0 <= a < b < |cs| ==> forall x :: x in cs[a] ==> x !in cs[b]
    ensures Distinct(Walked(cs))
  {
    if |cs| > 0 {
      var rest, c := cs[..|cs| - 1], cs[|cs| - 1];
      WalkedDistinct(rest);
      WalkedMembers(rest);
      forall x | x in Walked(rest)
        ensures x !in c
      {
        var b :| 0 <= b < |rest| && x in rest[b];
        assert cs[b] == rest[b];
      }
      DistinctConcat(Walked(rest), c);
    }
  }

  lemma DistinctConcat<T>(a: seq<T>, b: seq<T>)
    requires Distinct(a) && Distinct(b) && forall x :: x in a ==> x !in b
    ensures Distinct(a + b)
  {
    forall i, j | 0 <= i < j < |a + b|
      ensures (a + b)[i] != (a + b)[j]
    {
      if i < |a| {
        assert a[i] in a;
      }
    }
  }

  lemma {:induction false} DistinctSameMembers<T>(s: seq<T>, r: seq<T>)
    requires Distinct(s) && Distinct(r) && forall x :: x in s <==> x in r
    ensures multiset(s) == multiset(r)
  {
    assert forall k :: 0 <= k < |r| ==> r[k] in s;
    if |s| > 0 {
      var i := SplitOff(s, r);
      DistinctSameMembers(s[1..], r[..i] + r[i + 1..]);
      hide Distinct;
      MultisetSplit(s, 0);
      MultisetSplit(r, i);
    }
  }

  lemma MultisetSplit<T>(s: seq<T>, i: nat)
    requires i < |s|
    ensures multiset(s) == multiset(s[..i] + s[i + 1..]) + multiset{s[i]}
    ensures i == 0 ==> s[..i] + s[i + 1..] == s[1..]
  {
    assert s == s[..i] + [s[i]] + s[i + 1..];
  }

  lemma SplitOff<T>(s: seq<T>, r: seq<T>) returns (i: nat)
    requires |s| > 0 && Distinct(s) && Distinct(r) && forall x :: x in s <==> x in r
    ensures i < |r| && r[i] == s[0] && Distinct(r[..i] + r[i + 1..])
    ensures forall x :: x in s[1..] <==> x in r[..i] + r[i + 1..]
  {
    var x := s[0];
    assert x in s;
    i :| 0 <= i < |r| && r[i] == x;
    WithoutAt(r, i);
    WithoutMembers(r, x);
    WithoutDistinct(r, x);
  }

  /** The walk meets every element once. */
  lemma WalkIsPermutation<K, V>(fcn: K -> nat, chains: seq<seq<Item<K, V>>>, its: seq<Item<K, V>>)
    requires Placed(fcn, chains, its) && Distinct(its)
    ensures Distinct(Walked(chains)) && multiset(Walked(chains)) == multiset(its)
    ensures forall x :: x in Walked(chains) ==> x in its
  {
    WalkedMembers(chains);
    WalkSoFar(fcn, chains, its, |chains| - 1);
    assert chains[..|chains|] == chains;
    DistinctSameMembers(Walked(chains), its);
  }

  /** One more bucket brings only elements the walk has not met. */
  lemma WalkSoFar<K, V>(fcn: K -> nat, chains: seq<seq<Item<K, V>>>, its: seq<Item<K, V>>, b: nat)
    requires Placed(fcn, chains, its) && b < |chains|
    ensures Walked(chains[..b + 1]) == Walked(chains[..b]) + chains[b] && Distinct(Walked(chains[..b + 1]))
    ensures forall x :: x in Walked(chains[..b + 1]) ==> x in its
  {
    var cs := chains[..b + 1];
    assert cs[..b] == chains[..b];
    WalkedMembers(cs);
    forall a, c | 0 <= a < c < |cs|
      ensures forall x :: x in cs[a] ==> x !in cs[c]
    {
      HashExpand.ChainsApart(fcn, chains, its, a, c);
    }
    WalkedDistinct(cs);
  }

  /** What is selected from the part of the walk behind us. */
  ghost function Selection<K, V>(cond: Item<K, V> -> bool, handle: Item<K, V> -> Item<K, V>, s: seq<Item<K, V>>)
    : seq<Item<K, V>>
  {
    Handles(handle, Filter(cond, s))
  }

  lemma SelectionStep<K, V>(cond: Item<K, V> -> bool, handle: Item<K, V> -> Item<K, V>, s: seq<Item<K, V>>,
                            x: Item<K, V>)
    ensures Selection(cond, handle, s + [x])
            == if cond(x) then Selection(cond, handle, s) + [handle(x)] else Selection(cond, handle, s)
  {
    FilterConcat(cond, s, [x]);
  }

  /** Second handles of other elements are other handles. */
  lemma SelectionMembers<K, V>(cond: Item<K, V> -> bool, handle: Item<K, V> -> Item<K, V>, s: seq<Item<K, V>>,
                               its: seq<Item<K, V>>)
    requires SecondHandles(handle, its) && UtHash.UniqueKeys(its) && forall x :: x in s ==> x in its
    ensures forall k :: 0 <= k < |Selection(cond, handle, s)| ==> Selection(cond, handle, s)[k] in Handles(handle, its)
    ensures forall x :: x in its && x !in s ==> handle(x) !in Selection(cond, handle, s)
  {
    var f := Filter(cond, s);
    FilterMembers(cond, s);
    forall k | 0 <= k < |f|
      ensures handle(f[k]) in Handles(handle, its) && handle(f[k]).data == f[k].data && f[k] in its && f[k] in s
    {
      assert f[k] in f && f[k] in s && f[k] in its;
      var i :| 0 <= i < |its| && its[i] == f[k];
      assert Handles(handle, its)[i] == handle(f[k]);
    }
    forall x | x in its && x !in s
      ensures handle(x) !in Selection(cond, handle, s)
    {
      var i :| 0 <= i < |its| && its[i] == x;
      forall k | 0 <= k < |f|
        ensures handle(f[k]) != handle(x)
      {
        var j :| 0 <= j < |its| && its[j] == f[k];
        assert its[j].data.key != its[i].data.key;
      }
    }
  }

  lemma SelectionUnique<K, V>(cond: Item<K, V> -> bool, handle: Item<K, V> -> Item<K, V>, s: seq<Item<K, V>>,
                              its: seq<Item<K, V>>)
    requires SecondHandles(handle, its) && UtHash.UniqueKeys(its) && Distinct(s) && forall x :: x in s ==> x in its
    ensures UtHash.UniqueKeys(Selection(cond, handle, s))
  {
    var f := Filter(cond, s);
    FilterMembers(cond, s);
    FilterDistinct(cond, s);
    forall i, j | 0 <= i < j < |f|
      ensures handle(f[i]).data.key != handle(f[j]).data.key
    {
      assert f[i] in f && f[j] in f && f[i] in its && f[j] in its;
    }
  }

  ghost predicate Doubling<K, V>(dst: UtHash.Table<K, V>)
    reads dst`noexpand, dst`ineffExpands, dst`numBuckets, dst`log2NumBuckets, dst`buckets, dst.buckets
  {
    dst.NearlyMayDouble() && dst.numBuckets > BKT_CAPACITY_THRESH
  }

  /** The second table part-way: everything is in order but the tail, which stays where the table was made, and the
      filter, which nothing is added to. */
  ghost predicate Selecting<K, V>(dst: UtHash.Table<K, V>)
    reads dst, dst.buckets, dst.bloomBv, dst.items
  {
    && dst.head == At(dst.items, 0)
    && (dst.head != null ==>
          && Linked(AppOrder, dst.items) && dst.tail == dst.head && dst.numItems == |dst.items|
          && dst.Bucketed(dst.items) && Doubling(dst) && dst.BloomEmpty() && dst.bloomBv as object != dst.buckets)
  }

  /** Its first half: link the element after the last one selected, or make the table. */
  method LinkSelected<K, V>(dst: UtHash.Table<K, V>, dstHh: Item<K, V>, lastElt: Node?<Entry<K, V>>)
    requires Selecting(dst) && lastElt == Last(dst.items) && dstHh !in dst.items
    modifies dst, dst.items`next, dstHh`next, dstHh`prev
    ensures dst.items == old(dst.items) && Linked(AppOrder, dst.items + [dstHh]) && dst.head == At(dst.items + [dstHh], 0)
    ensures dst.tail == dst.head && dst.numItems == |dst.items| && dst.Bucketed(dst.items) && Doubling(dst)
    ensures dst.BloomEmpty() && dst.bloomBv as object != dst.buckets
    ensures fresh(dst.buckets) || (old(dst.head) != null && dst.buckets == old(dst.buckets))
    ensures fresh(dst.bloomBv) || (old(dst.head) != null && dst.bloomBv == old(dst.bloomBv))
  {
    hide HashExpand.Holds, Total, Balanced, Pow2;
    dstHh.prev := lastElt;
    dstHh.next := null;
    if lastElt != null {
      lastElt.next := dstHh;
    }
    if dst.head == null {
      dst.head := dstHh;
      dst.MakeTable();
    }
  }

  /** Its second half: copy the hash value, put the element in its bucket and count it. */
  method IndexSelected<K, V>(dst: UtHash.Table<K, V>, srcHh: Item<K, V>, dstHh: Item<K, V>, ghost its: seq<Item<K, V>>)
    requires dst.Bucketed(its) && Doubling(dst) && dst.numItems == |its| && dst.BloomEmpty()
    requires dst.bloomBv as object != dst.buckets && Linked(AppOrder, its + [dstHh])
    requires dstHh !in its && srcHh.hashv == dst.fcn(dstHh.data.key)
    modifies dst`buckets, dst`numBuckets, dst`log2NumBuckets, dst`idealChainMaxlen, dst`nonidealItems, dst`ineffExpands,
             dst`noexpand, dst`chains, dst`numItems
    modifies dst.buckets, dstHh`hhNext, dstHh`hhPrev, dstHh`hashv, its`hhNext, its`hhPrev
    ensures dst.Bucketed(its + [dstHh]) && Doubling(dst) && dst.numItems == |its| + 1 && dst.BloomEmpty()
    ensures dst.bloomBv as object != dst.buckets && Linked(AppOrder, its + [dstHh])
    ensures fresh(dst.buckets) || dst.buckets == old(dst.buckets)
  {
    hide UtHash.Table.Bucketed, UtHash.Table.BloomEmpty, UtHash.Table.MayDouble, Linked, Slot, Pow2, Split, And,
         NearlyBalanced;
    dstHh.hashv := srcHh.hashv;
    dst.SlotByMask(its, dstHh);
    dst.AddToBkt(And(dstHh.hashv, dst.numBuckets - 1), dstHh, its);
    dst.numItems := dst.numItems + 1;
  }

  /** The body of the inner loop for an element that is selected. */
  method SelectOne<K, V>(dst: UtHash.Table<K, V>, srcHh: Item<K, V>, dstHh: Item<K, V>, lastElt: Node?<Entry<K, V>>)
    requires Selecting(dst) && lastElt == Last(dst.items) && dstHh !in dst.items
    requires srcHh.hashv == dst.fcn(dstHh.data.key)
    modifies dst, dst.items, dstHh, if dst.head != null then {dst.buckets} else {}
    ensures Selecting(dst) && dst.items == old(dst.items) + [dstHh]
    ensures fresh(dst.buckets) || (old(dst.head) != null && dst.buckets == old(dst.buckets))
    ensures fresh(dst.bloomBv) || (old(dst.head) != null && dst.bloomBv == old(dst.bloomBv))
  {
    hide UtHash.Table.Bucketed, UtHash.Table.BloomEmpty, Linked, Doubling;
    ghost var its := dst.items;
    LinkSelected(dst, dstHh, lastElt);
    IndexSelected(dst, srcHh, dstHh, its);
    dst.items := its + [dstHh];
  }

  /** The walk's current element, if selected, brings a new handle; the chain it is on has first handles only. */
  lemma Current<K, V>(cond: Item<K, V> -> bool, handle: Item<K, V> -> Item<K, V>, s: seq<Item<K, V>>,
                      done: seq<Item<K, V>>, c: seq<Item<K, V>>, j: nat, its: seq<Item<K, V>>)
    requires SecondHandles(handle, its) && UtHash.UniqueKeys(its) && Distinct(done + c)
    requires (forall x :: x in done + c ==> x in its) && j < |c| && s == done + c[..j]
    ensures c[j] in its && handle(c[j]) !in Selection(cond, handle, s) && handle(c[j]).data == c[j].data
    ensures handle(c[j]) in Handles(handle, its)
    ensures forall k :: 0 <= k < |Selection(cond, handle, s)| ==> Selection(cond, handle, s)[k] in Handles(handle, its)
    ensures done + c[..j + 1] == s + [c[j]]
  {
    hide Selection, UtHash.UniqueKeys;
    assert (done + c)[|done| + j] == c[j] && c[j] in done + c;
    assert c[j] !in s by {
      assert forall k :: 0 <= k < |s| ==> s[k] == (done + c)[k];
    }
    assert forall x :: x in s ==> x in done + c;
    SelectionMembers(cond, handle, s, its);
    var i :| 0 <= i < |its| && its[i] == c[j];
    assert Handles(handle, its)[i] == handle(c[j]);
  }

  lemma FirstHandlesOnly<K, V>(handle: Item<K, V> -> Item<K, V>, s: seq<Item<K, V>>, its: seq<Item<K, V>>)
    requires SecondHandles(handle, its) && forall x :: x in s ==> x in its
    ensures forall i :: 0 <= i < |s| ==> s[i] !in Handles(handle, its)
  {
    assert forall i :: 0 <= i < |s| ==> s[i] in its;
  }

  ghost predicate Hashed<K, V>(fcn: K -> nat, its: seq<Item<K, V>>)
    reads its`hashv
  {
    forall i {:trigger its[i].hashv} :: 0 <= i < |its| ==> its[i].hashv == fcn(its[i].data.key)
  }

  /** The body of the inner loop. */
  method Visit<K, V>(dst: UtHash.Table<K, V>, srcHh: Item<K, V>, cond: Item<K, V> -> bool,
                     handle: Item<K, V> -> Item<K, V>, last: Node?<Entry<K, V>>,
                     ghost s: seq<Item<K, V>>, ghost its: seq<Item<K, V>>)
    returns (lastElt: Node?<Entry<K, V>>)
    requires Selecting(dst) && last == Last(dst.items) && dst.items == Selection(cond, handle, s)
    requires srcHh in its && handle(srcHh) !in dst.items && handle(srcHh).data == srcHh.data
    requires forall k :: 0 <= k < |dst.items| ==> dst.items[k] in Handles(handle, its)
    requires handle(srcHh) in Handles(handle, its) && Hashed(dst.fcn, its)
    modifies dst, Handles(handle, its), if dst.head != null then {dst.buckets} else {}
    ensures Selecting(dst) && lastElt == Last(dst.items) && dst.items == Selection(cond, handle, s + [srcHh])
    ensures dst.head != null ==> fresh(dst.buckets) || (old(dst.head) != null && dst.buckets == old(dst.buckets))
    ensures dst.head != null ==> fresh(dst.bloomBv) || (old(dst.head) != null && dst.bloomBv == old(dst.bloomBv))
  {
    hide Selecting, Selection;
    lastElt := last;
    SelectionStep(cond, handle, s, srcHh);
    if cond(srcHh) {
      var dstHh := handle(srcHh);
      SelectOne(dst, srcHh, dstHh, lastElt);
      lastElt := dstHh;
    }
  }

  /** The inner loop: walk one chain of the first table. */
  method SelectChain<K, V>(dst: UtHash.Table<K, V>, hhHead: Node?<Entry<K, V>>, cond: Item<K, V> -> bool,
                           handle: Item<K, V> -> Item<K, V>, last: Node?<Entry<K, V>>,
                           ghost c: seq<Item<K, V>>, ghost done: seq<Item<K, V>>, ghost its: seq<Item<K, V>>)
    returns (lastElt: Node?<Entry<K, V>>)
    requires Selecting(dst) && last == Last(dst.items) && dst.items == Selection(cond, handle, done)
    requires hhHead == At(c, 0) && ChainLinked(c) && Distinct(done + c) && Hashed(dst.fcn, its)
    requires SecondHandles(handle, its) && UtHash.UniqueKeys(its) && forall x :: x in done + c ==> x in its
    modifies dst, Handles(handle, its), if dst.head != null then {dst.buckets} else {}
    ensures Selecting(dst) && lastElt == Last(dst.items) && dst.items == Selection(cond, handle, done + c)
    ensures dst.head != null ==> fresh(dst.buckets) || (old(dst.head) != null && dst.buckets == old(dst.buckets))
    ensures dst.head != null ==> fresh(dst.bloomBv) || (old(dst.head) != null && dst.bloomBv == old(dst.bloomBv))
  {
    hide Selecting, Selection, UtHash.UniqueKeys, SecondHandles, Distinct, Hashed;
    var srcHh := hhHead;
    ghost var j := 0;
    lastElt := last;
    FirstHandlesOnly(handle, its, its);
    assert forall x :: x in c ==> x in done + c;
    FirstHandlesOnly(handle, c, its);
    assert done + c[..0] == done;
    while srcHh != null
      invariant j <= |c| && srcHh == At(c, j) && ChainLinked(c)
      invariant Selecting(dst) && lastElt == Last(dst.items) && dst.items == Selection(cond, handle, done + c[..j])
      invariant dst.head != null ==> fresh(dst.buckets) || (old(dst.head) != null && dst.buckets == old(dst.buckets))
      invariant dst.head != null ==> fresh(dst.bloomBv) || (old(dst.head) != null && dst.bloomBv == old(dst.bloomBv))
      invariant Hashed(dst.fcn, its)
      decreases |c| - j
    {
      ghost var s := done + c[..j];
      Current(cond, handle, s, done, c, j, its);
      lastElt := Visit(dst, srcHh, cond, handle, lastElt, s, its);
      srcHh, j := srcHh.hhNext, j + 1;
    }
    assert c[..j] == c;
  }

  /** The bucket walk over a whole table. */
  ghost function TableWalk<K, V>(t: UtHash.Table<K, V>): seq<Item<K, V>>
    reads t
  {
    if t.head == null then [] else Walked(t.chains)
  }

  lemma WalkOfTable<K, V>(t: UtHash.Table<K, V>)
    requires t.Valid()
    ensures Distinct(TableWalk(t)) && multiset(TableWalk(t)) == multiset(t.items)
    ensures UtHash.UniqueKeys(t.items) && forall x :: x in TableWalk(t) ==> x in t.items
  {
    hide Walked, Placed, HashExpand.Inside, ChainLinked;
    if t.head != null {
      WalkIsPermutation(t.fcn, t.chains, t.items);
    }
  }

  /** What the inner loop finds at bucket b. */
  lemma AtBucket<K, V>(src: UtHash.Table<K, V>, b: nat)
    requires src.Valid() && src.head != null && b < src.numBuckets
    ensures |src.chains| == src.numBuckets == src.buckets.Length
    ensures src.buckets[b].hhHead == At(src.chains[b], 0) && ChainLinked(src.chains[b]) && Hashed(src.fcn, src.items)
    ensures Walked(src.chains[..b + 1]) == Walked(src.chains[..b]) + src.chains[b] && UtHash.UniqueKeys(src.items)
    ensures Distinct(Walked(src.chains[..b + 1])) && forall x :: x in Walked(src.chains[..b + 1]) ==> x in src.items
  {
    hide Walked, Total;
    UtHash.Touching(src.fcn, src.buckets, src.chains, src.items, b);
    WalkSoFar(src.fcn, src.chains, src.items, b);
  }

  /** HASH_SELECT with an empty second table: it ends with the second handles of exactly the selected elements, in
      the order in which the first table's buckets are walked; the first table is as it was. */
  method Select<K, V>(dst: UtHash.Table<K, V>, src: UtHash.Table<K, V>, cond: Item<K, V> -> bool,
                      handle: Item<K, V> -> Item<K, V>)
    requires src.Valid() && dst.Valid() && dst.head == null && dst != src && dst.fcn == src.fcn
    requires SecondHandles(handle, src.items)
    modifies dst, Handles(handle, src.items)
    ensures src.Valid() && Selecting(dst) && UtHash.UniqueKeys(dst.items)
    ensures dst.items == Handles(handle, Filter(cond, TableWalk(src)))
    ensures multiset(TableWalk(src)) == multiset(src.items)
  {
    hide UtHash.Table.Valid, Selecting, SecondHandles, UtHash.UniqueKeys, Walked;
    Untouched(dst, src, handle);
    WalkOfTable(src);
    var lastElt: Node?<Entry<K, V>> := null;
    if src.head != null {
      for srcBkt := 0 to src.numBuckets
        invariant src.Valid() && Selecting(dst) && lastElt == Last(dst.items)
        invariant dst.items == Selection(cond, handle, Walked(src.chains[..srcBkt]))
        invariant dst.head != null ==> fresh(dst.buckets) && fresh(dst.bloomBv)
      {
        AtBucket(src, srcBkt);
        lastElt := SelectChain(dst, src.buckets[srcBkt].hhHead, cond, handle, lastElt, src.chains[srcBkt],
                               Walked(src.chains[..srcBkt]), src.items);
      }
      assert src.chains[..|src.chains|] == src.chains;
    }
    SelectionUnique(cond, handle, TableWalk(src), src.items);
  }

  lemma Untouched<K, V>(dst: UtHash.Table<K, V>, src: UtHash.Table<K, V>, handle: Item<K, V> -> Item<K, V>)
    requires src.Valid() && dst.Valid() && dst.head == null && SecondHandles(handle, src.items)
    ensures Selecting(dst) && dst.items == [] && Walked(src.chains[..0]) == []
    ensures src.head != null ==> src.numBuckets == |src.chains|
    ensures forall i :: 0 <= i < |src.items| ==> src.items[i] !in Handles(handle, src.items)
  {
    FirstHandlesOnly(handle, src.items, src.items);
  }

  /** Lookups in the new table work exactly without a Bloom filter; with one, every lookup misses. */
  lemma SelectedLookups<K, V>(dst: UtHash.Table<K, V>)
    requires Selecting(dst)
    ensures dst.Findable() <==> dst.head == null || dst.bloom.NoBloom?
    ensures dst.head != null && dst.bloom.BloomBits? ==>
              dst.bloomBv.Length == HashBloom.ByteLength(dst.bloom.nbits) && forall hashv: nat :: !dst.BloomTest(hashv)
  {
    hide HashBloom.Index, HashBloom.ByteLength, HashBloom.Bit;
  }

  /** The new table is loaded no more than one filled by additions: fewer than 20 elements per bucket while it may
      double. */
  lemma SelectedLoad<K, V>(dst: UtHash.Table<K, V>)
    requires Selecting(dst) && dst.head != null && dst.noexpand == 0
    ensures |dst.items| < 20 * dst.numBuckets
  {
    hide NearlyBalanced, Total, HashExpand.Holds, Pow2, Linked;
    NearLoadBound(dst.buckets[..]);
  }

  /** The tail is right exactly when a single element was selected. */
  lemma SelectedTail<K, V>(dst: UtHash.Table<K, V>)
    requires Selecting(dst) && dst.head != null
    ensures dst.AppOrdered() <==> |dst.items| == 1
    ensures |dst.items| > 0 && (dst.tail == dst.items[|dst.items| - 1] <==> |dst.items| == 1)
  {
  }

  /** HASH_FSCK, which ends the macro, accepts the new table all the same. */
  lemma SelectedPassesCheck<K, V>(dst: UtHash.Table<K, V>)
    requires Selecting(dst)
    ensures var chains := if dst.head == null then [] else dst.chains;
            HashFsck.Walkable(dst, chains, dst.items)
            && (dst.head != null ==> HashFsck.Sound(dst, chains, dst.items))
  {
    hide HashFsck.Walkable, HashFsck.Sound, UtHash.Table.Bucketed, Linked;
    HashFsck.TablePasses(dst);
  }

  /** The new table holds the second handles of the elements selected, no others. */
  lemma SelectedMembers<K, V>(cond: Item<K, V> -> bool, handle: Item<K, V> -> Item<K, V>, walk: seq<Item<K, V>>,
                              its: seq<Item<K, V>>)
    requires SecondHandles(handle, its) && multiset(walk) == multiset(its)
    ensures forall x :: x in its && cond(x) ==> handle(x) in Handles(handle, Filter(cond, walk))
    ensures forall i :: 0 <= i < |Filter(cond, walk)| ==>
              var x := Filter(cond, walk)[i]; x in its && cond(x) && handle(x).data == x.data
  {
    var f := Filter(cond, walk);
    FilterMembers(cond, walk);
    SameMembers(walk, its);
    hide Filter;
    forall x | x in its && cond(x)
      ensures handle(x) in Handles(handle, f)
    {
      assert x in f;
      var i :| 0 <= i < |f| && f[i] == x;
      assert Handles(handle, f)[i] == handle(x);
    }
    forall i | 0 <= i < |f|
      ensures f[i] in its && cond(f[i]) && handle(f[i]).data == f[i].data
    {
      assert f[i] in f && f[i] in walk && f[i] in its;
      var j :| 0 <= j < |its| && its[j] == f[i];
      assert handle(its[j]).data == its[j].data;
    }
  }

  /** A lookup in the new table of a build without a filter: it finds the second handle of the element that the first
      table holds under the key, if that was selected, and nothing otherwise. */
  method FindSelected<K, V>(dst: UtHash.Table<K, V>, key: K, ghost cond: Item<K, V> -> bool,
                            ghost handle: Item<K, V> -> Item<K, V>, ghost walk: seq<Item<K, V>>,
                            ghost its: seq<Item<K, V>>)
    returns (out: Node?<Entry<K, V>>)
    requires Selecting(dst) && dst.bloom.NoBloom? && dst.items == Handles(handle, Filter(cond, walk))
    requires UtHash.UniqueKeys(dst.items) && SecondHandles(handle, its) && multiset(walk) == multiset(its)
    ensures forall x :: x in its && x.data.key == key && cond(x) ==> out == handle(x)
    ensures out != null ==> exists x :: x in its && x.data.key == key && cond(x)
  {
    hide Filter, Selecting, UtHash.Table.Findable;
    SelectedLookups(dst);
    SelectedMembers(cond, handle, walk, its);
    out := dst.Find(key);
    KeyOnce(dst.items, key, out);
  }

  lemma KeyOnce<K, V>(s: seq<Item<K, V>>, key: K, out: Node?<Entry<K, V>>)
    requires UtHash.UniqueKeys(s) && (out != null ==> out in s && out.data.key == key)
    requires out == null ==> forall x :: x in s ==> x.data.key != key
    ensures forall y :: y in s && y.data.key == key ==> out == y
    ensures out != null ==> exists i :: 0 <= i < |s| && s[i] == out
  {
  }
}
