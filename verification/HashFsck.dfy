/** HASH_FSCK: the integrity check that uthash runs after every addition and deletion under HASH_DEBUG. */
module HashFsck {
  import opened Links
  import opened HashLoad
  import opened HashChains
  import HashExpand
  import UtHash

  ghost predicate Forward<K, V>(c: seq<Item<K, V>>)
    reads c`hhNext
  {
    forall i {:trigger c[i].hhNext} :: 0 <= i < |c| ==> c[i].hhNext == At(c, i + 1)
  }

  ghost predicate Backward<K, V>(c: seq<Item<K, V>>)
    reads c`hhPrev
  {
    forall i {:trigger c[i].hhPrev} :: 0 <= i < |c| ==> c[i].hhPrev == At(c, i - 1)
  }

  ghost predicate ForwardOrder<K, V>(s: seq<Item<K, V>>)
    reads s`next
  {
    forall i {:trigger s[i].next} :: 0 <= i < |s| ==> s[i].next == At(s, i + 1)
  }

  ghost predicate BackwardOrder<K, V>(s: seq<Item<K, V>>)
    reads s`prev
  {
    forall i {:trigger s[i].prev} :: 0 <= i < |s| ==> s[i].prev == At(s, i - 1)
  }

  /** The pointers the check follows lead through these elements and end; nothing else is taken for granted. */
  ghost predicate Walkable<K, V>(t: UtHash.Table<K, V>, chains: seq<seq<Item<K, V>>>, s: seq<Item<K, V>>)
    reads t, t.buckets, s`next
    reads set b, i | 0 <= b < |chains| && 0 <= i < |chains[b]| :: chains[b][i]
  {
    && t.head == At(s, 0) && ForwardOrder(s)
    && (t.head != null ==>
          && t.numBuckets == t.buckets.Length == |chains|
          && forall b :: 0 <= b < |chains| ==> t.buckets[b].hhHead == At(chains[b], 0) && Forward(chains[b]))
  }

  /** What the check looks at, bucket by bucket. */
  ghost predicate BucketSound<K, V>(b: Bucket<Entry<K, V>>, c: seq<Item<K, V>>)
    reads c`hhPrev
  {
    Backward(c) && b.count == |c|
  }

  ghost predicate Sound<K, V>(t: UtHash.Table<K, V>, chains: seq<seq<Item<K, V>>>, s: seq<Item<K, V>>)
    requires t.buckets.Length == |chains|
    reads t, t.buckets, s`prev
    reads set b, i | 0 <= b < |chains| && 0 <= i < |chains[b]| :: chains[b][i]
  {
    && (forall b :: 0 <= b < |chains| ==> BucketSound(t.buckets[b], chains[b]))
    && HashExpand.TotalLength(chains) == t.numItems
    && BackwardOrder(s) && |s| == t.numItems
  }

  /** The loop over one bucket. */
  method CheckBucket<K, V>(b: Bucket<Entry<K, V>>, ghost c: seq<Item<K, V>>) returns (ok: bool, bktCount: nat)
    requires b.hhHead == At(c, 0) && Forward(c)
    ensures ok <==> BucketSound(b, c)
    ensures ok ==> bktCount == |c|
  {
    bktCount := 0;
    var thh, prev: Node?<Entry<K, V>> := b.hhHead, null;
    while thh != null
      invariant bktCount <= |c| && thh == At(c, bktCount) && prev == At(c, bktCount - 1)
      invariant forall i {:trigger c[i].hhPrev} :: 0 <= i < bktCount ==> c[i].hhPrev == At(c, i - 1)
      decreases |c| - bktCount
    {
      if prev != thh.hhPrev {
        return false, bktCount;
      }
      bktCount := bktCount + 1;
      prev := thh;
      thh := thh.hhNext;
    }
    ok := b.count == bktCount;
  }

  /** The loop over all buckets. */
  method CheckBuckets<K, V>(t: UtHash.Table<K, V>, ghost chains: seq<seq<Item<K, V>>>, ghost s: seq<Item<K, V>>)
    returns (ok: bool, count: nat)
    requires t.head != null && Walkable(t, chains, s)
    ensures ok <==> forall b :: 0 <= b < |chains| ==> BucketSound(t.buckets[b], chains[b])
    ensures ok ==> count == HashExpand.TotalLength(chains)
  {
    hide BucketSound, Forward;
    count := 0;
    for i := 0 to t.numBuckets
      invariant forall b :: 0 <= b < i ==> BucketSound(t.buckets[b], chains[b])
      invariant count == HashExpand.TotalLength(chains[..i])
    {
      var bktCount;
      ok, bktCount := CheckBucket(t.buckets[i], chains[i]);
      if !ok {
        return false, count;
      }
      count := count + bktCount;
      assert chains[..i + 1][..i] == chains[..i];
    }
    assert chains[..|chains|] == chains;
    ok := true;
  }

  /** The traversal in application order. */
  method CheckOrder<K, V>(t: UtHash.Table<K, V>, ghost s: seq<Item<K, V>>) returns (ok: bool)
    requires t.head == At(s, 0) && ForwardOrder(s)
    ensures ok <==> BackwardOrder(s) && |s| == t.numItems
  {
    var count: nat := 0;
    var thh, prev: Node?<Entry<K, V>> := t.head, null;
    while thh != null
      invariant count <= |s| && thh == At(s, count) && prev == At(s, count - 1)
      invariant forall i {:trigger s[i].prev} :: 0 <= i < count ==> s[i].prev == At(s, i - 1)
      decreases |s| - count
    {
      count := count + 1;
      if prev != thh.prev {
        return false;
      }
      prev := thh;
      thh := thh.next;
    }
    ok := count == t.numItems;
  }

  lemma BucketIs<K, V>(b: Bucket<Entry<K, V>>, c: seq<Item<K, V>>)
    ensures BucketSound(b, c) <==>
              b.count == |c| && forall i {:trigger c[i].hhPrev} :: 0 <= i < |c| ==> c[i].hhPrev == if i == 0 then null else c[i - 1]
  {
  }

  lemma OrderIs<K, V>(s: seq<Item<K, V>>)
    ensures BackwardOrder(s) <==> forall i {:trigger s[i].prev} :: 0 <= i < |s| ==> s[i].prev == if i == 0 then null else s[i - 1]
  {
  }

  /** What the check demands, spelled out. */
  lemma SoundIs<K, V>(t: UtHash.Table<K, V>, chains: seq<seq<Item<K, V>>>, s: seq<Item<K, V>>)
    requires t.buckets.Length == |chains|
    ensures Sound(t, chains, s) <==>
              && (forall i {:trigger s[i].prev} :: 0 <= i < |s| ==> s[i].prev == if i == 0 then null else s[i - 1])
              && |s| == t.numItems && HashExpand.TotalLength(chains) == t.numItems
              && forall b :: 0 <= b < |chains| ==>
                   && t.buckets[b].count == |chains[b]|
                   && forall i {:trigger chains[b][i].hhPrev} :: 0 <= i < |chains[b]| ==>
                        chains[b][i].hhPrev == if i == 0 then null else chains[b][i - 1]
  {
    hide BucketSound, BackwardOrder, HashExpand.TotalLength;
    OrderIs(s);
    forall b | 0 <= b < |chains|
      ensures BucketSound(t.buckets[b], chains[b]) <==>
                && t.buckets[b].count == |chains[b]|
                && forall i {:trigger chains[b][i].hhPrev} :: 0 <= i < |chains[b]| ==>
                     chains[b][i].hhPrev == if i == 0 then null else chains[b][i - 1]
    {
      BucketIs(t.buckets[b], chains[b]);
    }
  }

  /** HASH_FSCK, with false for HASH_OOPS: it accepts exactly the tables whose back links and counts agree with
      what the forward links reach. */
  method Fsck<K, V>(t: UtHash.Table<K, V>, ghost chains: seq<seq<Item<K, V>>>, ghost s: seq<Item<K, V>>)
    returns (ok: bool)
    requires Walkable(t, chains, s)
    ensures ok <==> t.head == null || Sound(t, chains, s)
    ensures t.head != null ==>
              (ok <==>
                && (forall i {:trigger s[i].prev} :: 0 <= i < |s| ==> s[i].prev == if i == 0 then null else s[i - 1])
                && |s| == t.numItems && HashExpand.TotalLength(chains) == t.numItems
                && forall b :: 0 <= b < |chains| ==>
                     && t.buckets[b].count == |chains[b]|
                     && forall i {:trigger chains[b][i].hhPrev} :: 0 <= i < |chains[b]| ==>
                          chains[b][i].hhPrev == if i == 0 then null else chains[b][i - 1])
  {
    hide BucketSound, Forward, ForwardOrder, BackwardOrder;
    if t.head == null {
      return true;
    }
    SoundIs(t, chains, s);
    var count;
    ok, count := CheckBuckets(t, chains, s);
    if !ok {
      return;
    }
    if count != t.numItems {
      return false;
    }
    ok := CheckOrder(t, s);
  }

  /** The check does not look at the tail, the filter or the keys. */
  lemma TablePasses<K, V>(t: UtHash.Table<K, V>)
    requires t.head == At(t.items, 0)
    requires t.head != null ==> Linked(AppOrder, t.items) && t.numItems == |t.items| && t.Bucketed(t.items)
    ensures var chains := if t.head == null then [] else t.chains;
            Walkable(t, chains, t.items) && (t.head != null ==> Sound(t, chains, t.items))
  {
    if t.head != null {
      t.BucketTotals(t.items);
      forall b | 0 <= b < |t.chains|
        ensures t.buckets[b].hhHead == At(t.chains[b], 0) && Forward(t.chains[b]) && BucketSound(t.buckets[b], t.chains[b])
      {
        UtHash.Touching(t.fcn, t.buckets, t.chains, t.items, b);
      }
    }
  }

  /** Every table the operations leave behind passes. */
  lemma ValidTablePasses<K, V>(t: UtHash.Table<K, V>)
    requires t.Valid()
    ensures var chains := if t.head == null then [] else t.chains;
            Walkable(t, chains, t.items) && (t.head != null ==> Sound(t, chains, t.items))
  {
    hide Walkable, Sound, UtHash.Table.Bucketed, UtHash.UniqueKeys;
    TablePasses(t);
  }
}
