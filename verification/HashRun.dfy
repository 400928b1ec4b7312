/** Whole runs against a uthash table, compared with an insertion-ordered finite map. */
module HashRun {
  import opened Seqs
  import opened Links
  import opened StableMerge
  import opened HashLoad
  import opened HashChains
  import opened Wrappers
  import UtHash

  /** What a client does: add an element under a key that is not in use, look a key up, delete by key, sort the hash,
      walk it deleting what it chooses. */
  datatype Command<!K, !V> =
    | Put(key: K, value: V)
    | Get(key: K)
    | Remove(key: K)
    | Arrange(cmp: (Entry<K, V>, Entry<K, V>) -> int)
    | Purge(drop: Entry<K, V> -> bool)

  function IndexOf<K(==), V>(s: seq<Entry<K, V>>, key: K): (i: nat)
    ensures i <= |s| && (i < |s| ==> s[i].key == key) && forall j :: 0 <= j < i ==> s[j].key != key
  {
    if |s| == 0 || s[0].key == key then 0 else 1 + IndexOf(s[1..], key)
  }

  function Lookup<K(==), V>(s: seq<Entry<K, V>>, key: K): Option<V> {
    var i := IndexOf(s, key);
    if i < |s| then Some(s[i].value) else None
  }

  predicate ByKey<K, V>(c: Command<K, V>) {
    c.Put? || c.Get? || c.Remove?
  }

  /** The answer is the value that s holds under the key, and None exactly if it holds none. */
  ghost predicate Found<K, V>(s: seq<Entry<K, V>>, key: K, answer: Option<V>) {
    && (answer == None <==> forall i :: 0 <= i < |s| ==> s[i].key != key)
    && (answer.Some? ==> Entry(key, answer.value) in s)
    && (forall i :: 0 <= i < |s| && s[i].key == key ==> answer == Some(s[i].value))
  }

  /** One command on the ordered map: new keys go to the end; only sorting changes the order of the others. */
  function After<K(==), V>(s: seq<Entry<K, V>>, c: Command<K, V>): seq<Entry<K, V>> {
    match c
    case Put(k, v) => if IndexOf(s, k) < |s| then s else s + [Entry(k, v)]
    case Get(_) => s
    case Remove(k) => var i := IndexOf(s, k); if i < |s| then s[..i] + s[i + 1..] else s
    case Arrange(cmp) => SortFrom(cmp, s, 1)
    case Purge(drop) => Filter(Not(drop), s)
  }

  /** What a command answers: the value found, if any; for Put, the value that was already there. */
  function Answer<K(==), V>(s: seq<Entry<K, V>>, c: Command<K, V>): Option<V> {
    if ByKey(c) then Lookup(s, c.key) else None
  }

  function Final<K(==), V>(s: seq<Entry<K, V>>, cs: seq<Command<K, V>>): seq<Entry<K, V>> {
    if |cs| == 0 then s else After(Final(s, cs[..|cs| - 1]), cs[|cs| - 1])
  }

  /** The answers of a run, each taken in the state its command found. */
  function Answers<K(==), V>(s: seq<Entry<K, V>>, cs: seq<Command<K, V>>): seq<Option<V>> {
    if |cs| == 0 then []
    else Answers(s, cs[..|cs| - 1]) + [Answer(Final(s, cs[..|cs| - 1]), cs[|cs| - 1])]
  }

  ghost predicate Keyed<K, V>(s: seq<Entry<K, V>>) {
    forall i, j :: 0 <= i < j < |s| ==> s[i].key != s[j].key
  }

  lemma LookupAt<K, V>(s: seq<Entry<K, V>>, i: nat)
    requires Keyed(s) && i < |s|
    ensures IndexOf(s, s[i].key) == i && Lookup(s, s[i].key) == Some(s[i].value)
  {
  }

  lemma LookupAbsent<K, V>(s: seq<Entry<K, V>>, key: K)
    requires forall i :: 0 <= i < |s| ==> s[i].key != key
    ensures IndexOf(s, key) == |s| && Lookup(s, key) == None
  {
  }

  /** The ordered map is a map: keys stay unique, and a command by key changes what is found under that key only. */
  lemma LookupAfter<K, V>(s: seq<Entry<K, V>>, c: Command<K, V>, key: K)
    requires Keyed(s) && ByKey(c)
    ensures Keyed(After(s, c))
    ensures Lookup(After(s, c), key) == if key != c.key || c.Get? then Lookup(s, key)
                                        else if c.Remove? then None
                                        else if Lookup(s, key) == None then Some(c.value) else Lookup(s, key)
  {
    hide Lookup, IndexOf, SortFrom, Filter;
    var r, i, n := After(s, c), IndexOf(s, c.key), IndexOf(s, key);
    LookupAbsentOrAt(s, key);
    if r != s {
      if c.Put? {
        if n < |s| {
          assert r[n] == s[n];
          LookupAt(r, n);
        } else if key == c.key {
          assert r[|s|] == Entry(key, c.value);
          LookupAt(r, |s|);
        } else {
          LookupAbsent(r, key);
        }
      } else {
        assert forall j :: 0 <= j < |r| ==> r[j] == if j < i then s[j] else s[j + 1];
        if n == |s| || n == i {
          LookupAbsent(r, key);
        } else {
          var m := if n < i then n else n - 1;
          assert r[m] == s[n];
          LookupAt(r, m);
        }
      }
    }
  }

  lemma LookupAbsentOrAt<K, V>(s: seq<Entry<K, V>>, key: K)
    requires Keyed(s)
    ensures var n := IndexOf(s, key); Lookup(s, key) == if n < |s| then Some(s[n].value) else None
    ensures forall j :: 0 <= j < |s| && j != IndexOf(s, key) ==> s[j].key != key
  {
  }

  /** Two lists without repeated keys and with the same entries under a key give the same answer for it. */
  lemma SameEntriesSameLookup<K, V>(s: seq<Entry<K, V>>, r: seq<Entry<K, V>>, key: K)
    requires Keyed(s) && Keyed(r) && forall e: Entry<K, V> :: e.key == key ==> (e in s <==> e in r)
    ensures Lookup(s, key) == Lookup(r, key)
  {
    hide Lookup, IndexOf;
    LookupAbsentOrAt(s, key);
    LookupAbsentOrAt(r, key);
    var i := IndexOf(s, key);
    assert forall j :: 0 <= j < |r| && r[j].key == key ==> r[j] in s;
    if i < |s| {
      assert s[i] in r;
      var k :| 0 <= k < |r| && r[k] == s[i];
    }
  }

  lemma KeyedPermutation<K, V>(s: seq<Entry<K, V>>, r: seq<Entry<K, V>>)
    requires Keyed(s) && multiset(r) == multiset(s)
    ensures Keyed(r)
  {
    SameMembers(r, s);
    forall i, j | 0 <= i < j < |r|
      ensures r[i].key != r[j].key
    {
      assert r[i] in s && r[j] in s;
      var k :| 0 <= k < |s| && s[k] == r[i];
      var l :| 0 <= l < |s| && s[l] == r[j];
      if k == l {
        Twice(r, i, j);
        Once(s, k);
      }
    }
  }

  lemma Twice<T>(r: seq<T>, i: nat, j: nat)
    requires i < j < |r| && r[i] == r[j]
    ensures multiset(r)[r[i]] >= 2
  {
    assert r == r[..j] + [r[j]] + r[j + 1..];
    assert r[i] in r[..j];
  }

  lemma Once<K, V>(s: seq<Entry<K, V>>, k: nat)
    requires Keyed(s) && k < |s|
    ensures multiset(s)[s[k]] == 1
  {
    assert s == s[..k] + [s[k]] + s[k + 1..];
    assert s[k] !in s[..k] && s[k] !in s[k + 1..];
  }

  /** Sorting changes no lookup. */
  lemma LookupArranged<K, V>(s: seq<Entry<K, V>>, cmp: (Entry<K, V>, Entry<K, V>) -> int, key: K)
    requires Keyed(s)
    ensures Keyed(After(s, Arrange(cmp))) && Lookup(After(s, Arrange(cmp)), key) == Lookup(s, key)
  {
    hide Lookup, SortFrom;
    var r := SortFrom(cmp, s, 1);
    SortFromPermutes(cmp, s, 1);
    SameMembers(r, s);
    KeyedPermutation(s, r);
    SameEntriesSameLookup(s, r, key);
  }

  /** A purge takes away exactly the entries it chooses. */
  lemma LookupPurged<K, V>(s: seq<Entry<K, V>>, drop: Entry<K, V> -> bool, key: K)
    requires Keyed(s)
    ensures Keyed(After(s, Purge(drop)))
    ensures var i := IndexOf(s, key);
            Lookup(After(s, Purge(drop)), key) == if i < |s| && !drop(s[i]) then Some(s[i].value) else None
  {
    hide Lookup, IndexOf;
    var r, i := Filter(Not(drop), s), IndexOf(s, key);
    FilterMembers(Not(drop), s);
    KeyedFilter(Not(drop), s);
    hide Filter;
    LookupAbsentOrAt(s, key);
    if i < |s| && !drop(s[i]) {
      assert s[i] in r;
      var k :| 0 <= k < |r| && r[k] == s[i];
      LookupAt(r, k);
    } else {
      forall k | 0 <= k < |r|
        ensures r[k].key != key
      {
        assert r[k] in r && r[k] in s;
      }
      LookupAbsent(r, key);
    }
  }

  /** What a command makes of the contents: a new key goes to the end, a removal closes the gap, a purge keeps the
      others in order, and nothing else changes. */
  lemma AfterIs<K, V>(s: seq<Entry<K, V>>, c: Command<K, V>)
    requires Keyed(s)
    ensures c.Put? ==> After(s, c) == if forall e :: e in s ==> e.key != c.key then s + [Entry(c.key, c.value)] else s
    ensures c.Get? ==> After(s, c) == s
    ensures c.Remove? ==> forall i :: 0 <= i < |s| && s[i].key == c.key ==> After(s, c) == s[..i] + s[i + 1..]
    ensures c.Remove? && (forall e :: e in s ==> e.key != c.key) ==> After(s, c) == s
    ensures c.Purge? ==> After(s, c) == Filter(Not(c.drop), s)
  {
    hide IndexOf, SortFrom, Filter;
    if c.Put? || c.Remove? {
      LookupAbsentOrAt(s, c.key);
      var i := IndexOf(s, c.key);
      if i < |s| {
        assert s[i] in s;
      } else {
        forall e | e in s
          ensures e.key != c.key
        {
          var j :| 0 <= j < |s| && s[j] == e;
        }
      }
    }
  }

  /** A run that ends with a sort leaves the same entries, sorted, with those that compare equal in their old order. */
  lemma ArrangedRun<K, V>(cs: seq<Command<K, V>>, cmp: (Entry<K, V>, Entry<K, V>) -> int)
    requires TotalPreorder(cmp, set e | e in Final([], cs))
    ensures var s, r := Final([], cs), Final([], cs + [Arrange(cmp)]);
            && multiset(r) == multiset(s) && |r| == |s| && (forall i, j :: 0 <= i < j < |r| ==> cmp(r[i], r[j]) <= 0)
            && KeepsTies(cmp, s, r, set e | e in s)
  {
    assert (cs + [Arrange(cmp)])[..|cs|] == cs;
    StableSort(cmp, Final([], cs));
    hide SortFrom, Final;
  }

  lemma ArrangedKeyed<K, V>(s: seq<Entry<K, V>>, cmp: (Entry<K, V>, Entry<K, V>) -> int)
    requires Keyed(s)
    ensures Keyed(After(s, Arrange(cmp)))
  {
    SortFromPermutes(cmp, s, 1);
    KeyedPermutation(s, SortFrom(cmp, s, 1));
  }

  lemma PurgedKeyed<K, V>(s: seq<Entry<K, V>>, drop: Entry<K, V> -> bool)
    requires Keyed(s)
    ensures Keyed(After(s, Purge(drop)))
  {
    KeyedFilter(Not(drop), s);
  }

  lemma {:induction false} KeyedFilter<K, V>(f: Entry<K, V> -> bool, s: seq<Entry<K, V>>)
    requires Keyed(s)
    ensures Keyed(Filter(f, s))
  {
    if |s| > 0 {
      KeyedFilter(f, s[1..]);
      FilterMembers(f, s[1..]);
      var r := Filter(f, s[1..]);
      forall j | 0 <= j < |r|
        ensures r[j].key != s[0].key
      {
        assert r[j] in r && r[j] in s[1..];
      }
    }
  }

  function Entries<K, V>(its: seq<Item<K, V>>): (r: seq<Entry<K, V>>)
    ensures |r| == |its| && forall i :: 0 <= i < |its| ==> r[i] == its[i].data
  {
    seq(|its|, i requires 0 <= i < |its| => its[i].data)
  }

  lemma EntriesConcat<K, V>(a: seq<Item<K, V>>, b: seq<Item<K, V>>)
    ensures Entries(a + b) == Entries(a) + Entries(b)
  {
  }

  lemma EntriesWithout<K, V>(its: seq<Item<K, V>>, i: nat, w: seq<Item<K, V>>)
    requires i < |its| && w == its[..i] + its[i + 1..]
    ensures Entries(w) == Entries(its)[..i] + Entries(its)[i + 1..]
    ensures forall j :: 0 <= j < |w| ==> w[j] in its
  {
  }

  /** A comparison, or a condition, on elements that looks at their entries only. */
  function OnEntries<K, V>(cmp: (Entry<K, V>, Entry<K, V>) -> int): (Item<K, V>, Item<K, V>) -> int {
    (x: Item<K, V>, y: Item<K, V>) => cmp(x.data, y.data)
  }

  function OfEntry<K, V>(f: Entry<K, V> -> bool): Item<K, V> -> bool {
    (x: Item<K, V>) => f(x.data)
  }

  lemma {:induction false} EntriesMerge<K, V>(cmp: (Entry<K, V>, Entry<K, V>) -> int, p: seq<Item<K, V>>,
                                              q: seq<Item<K, V>>)
    ensures Entries(Merge(OnEntries(cmp), p, q)) == Merge(cmp, Entries(p), Entries(q))
    decreases |p| + |q|
  {
    if |p| > 0 && |q| > 0 {
      assert Entries(p)[1..] == Entries(p[1..]) && Entries(q)[1..] == Entries(q[1..]);
      if cmp(p[0].data, q[0].data) <= 0 {
        EntriesMerge(cmp, p[1..], q);
      } else {
        EntriesMerge(cmp, p, q[1..]);
      }
    }
  }

  lemma {:induction false} EntriesPass<K, V>(cmp: (Entry<K, V>, Entry<K, V>) -> int, s: seq<Item<K, V>>, k: nat)
    requires k >= 1
    ensures Entries(Pass(OnEntries(cmp), s, k)) == Pass(cmp, Entries(s), k)
  {
    if |s| > 0 {
      var m, e := Min(k, |s|), Min(2 * k, |s|);
      var es, a, b, rest := Entries(s), s[..m], s[m..e], s[e..];
      EntriesPass(cmp, rest, k);
      assert Entries(a) == es[..m] && Entries(b) == es[m..e] && Entries(rest) == es[e..] && |es| == |s|;
      hide *;
      PassBegins(OnEntries(cmp), s, k, m, e);
      PassBegins(cmp, es, k, m, e);
      EntriesMerge(cmp, a, b);
      EntriesConcat(Merge(OnEntries(cmp), a, b), Pass(OnEntries(cmp), rest, k));
    }
  }

  lemma PassBegins<T>(cmp: (T, T) -> int, s: seq<T>, k: nat, m: nat, e: nat)
    requires k >= 1 && |s| > 0 && m == Min(k, |s|) && e == Min(2 * k, |s|)
    ensures m <= e <= |s| && Pass(cmp, s, k) == Merge(cmp, s[..m], s[m..e]) + Pass(cmp, s[e..], k)
  {
  }

  /** Sorting elements by their entries sorts the entries. */
  lemma {:induction false} EntriesSort<K, V>(cmp: (Entry<K, V>, Entry<K, V>) -> int, s: seq<Item<K, V>>, k: nat)
    requires k >= 1
    ensures Entries(SortFrom(OnEntries(cmp), s, k)) == SortFrom(cmp, Entries(s), k)
    decreases |s| - k
  {
    hide Pass, Entries;
    EntriesPass(cmp, s, k);
    if |s| > 2 * k {
      EntriesSort(cmp, Pass(OnEntries(cmp), s, k), 2 * k);
    }
  }

  lemma {:induction false} EntriesFilter<K, V>(drop: Entry<K, V> -> bool, s: seq<Item<K, V>>)
    ensures Entries(Filter(Not(OfEntry(drop)), s)) == Filter(Not(drop), Entries(s))
  {
    if |s| > 0 {
      assert Entries(s)[1..] == Entries(s[1..]);
      EntriesFilter(drop, s[1..]);
    }
  }

  lemma FoundAt<K, V>(s: seq<Entry<K, V>>, i: nat)
    requires Keyed(s) && i < |s|
    ensures Found(s, s[i].key, Some(s[i].value))
  {
  }

  /** A command whose key is in use: what it answers and what it leaves. */
  lemma KeyInUse<K, V>(its: seq<Item<K, V>>, c: Command<K, V>, x: Item<K, V>)
    requires UtHash.UniqueKeys(its) && ByKey(c) && x in its && x.data.key == c.key
    ensures Lookup(Entries(its), c.key) == Some(x.data.value) && Found(Entries(its), c.key, Some(x.data.value))
    ensures After(Entries(its), c) == if c.Remove? then Entries(Without(its, x)) else Entries(its)
    ensures forall i :: 0 <= i < |Without(its, x)| ==> Without(its, x)[i] in its
  {
    hide Lookup, IndexOf, Without;
    var i :| 0 <= i < |its| && its[i] == x;
    assert Keyed(Entries(its)) && Entries(its)[i] == x.data;
    LookupAt(Entries(its), i);
    FoundAt(Entries(its), i);
    hide Found;
    assert Distinct(its);
    WithoutAt(its, i);
    EntriesWithout(its, i, Without(its, x));
  }

  /** A command whose key is not in use. */
  lemma KeyNotInUse<K, V>(its: seq<Item<K, V>>, c: Command<K, V>)
    requires ByKey(c) && forall x :: x in its ==> x.data.key != c.key
    ensures Lookup(Entries(its), c.key) == None && Found(Entries(its), c.key, None)
    ensures After(Entries(its), c) == if c.Put? then Entries(its) + [Entry(c.key, c.value)] else Entries(its)
  {
    forall i | 0 <= i < |its|
      ensures Entries(its)[i].key != c.key
    {
      assert its[i] in its;
    }
    LookupAbsent(Entries(its), c.key);
  }

  lemma EntriesAppend<K, V>(its: seq<Item<K, V>>, n: Item<K, V>)
    ensures Entries(its + [n]) == Entries(its) + [n.data]
    ensures forall i :: 0 <= i < |its| ==> its[i] in its
  {
  }

  /** Adding under a key that is not in use. */
  method Insert<K(==), V>(t: UtHash.Table<K, V>, key: K, value: V)
    requires t.Valid() && forall x :: x in t.items ==> x.data.key != key
    modifies t, t.buckets, t.bloomBv, t.items
    ensures t.Valid() && Entries(t.items) == old(Entries(t.items)) + [Entry(key, value)]
    ensures t.buckets == old(t.buckets) || fresh(t.buckets)
    ensures t.bloomBv == old(t.bloomBv) || fresh(t.bloomBv)
    ensures forall i :: 0 <= i < |t.items| ==> t.items[i] in old(t.items) || fresh(t.items[i])
  {
    hide UtHash.Table.Valid, Entries;
    ghost var its := t.items;
    var n := new Node(Entry(key, value));
    EntriesAppend(its, n);
    t.Add(n);
  }

  /** Deleting an element that was found. */
  method Discard<K(==), V>(t: UtHash.Table<K, V>, x: Item<K, V>)
    requires t.Valid() && x in t.items && forall i :: 0 <= i < |Without(t.items, x)| ==> Without(t.items, x)[i] in t.items
    modifies t, t.buckets, t.bloomBv, t.items
    ensures t.Valid() && t.items == Without(old(t.items), x)
    ensures t.buckets == old(t.buckets) && t.bloomBv == old(t.bloomBv)
    ensures forall i :: 0 <= i < |t.items| ==> t.items[i] in old(t.items)
  {
    hide UtHash.Table.Valid, Without;
    t.Delete(x);
  }

  /** A command by key. */
  method DoByKey<K(==), V>(t: UtHash.Table<K, V>, c: Command<K, V>) returns (answer: Option<V>)
    requires t.Valid() && ByKey(c)
    modifies t, t.buckets, t.bloomBv, t.items
    ensures t.Valid() && Entries(t.items) == After(old(Entries(t.items)), c)
    ensures answer == Lookup(old(Entries(t.items)), c.key) && Found(old(Entries(t.items)), c.key, answer)
    ensures t.buckets == old(t.buckets) || fresh(t.buckets)
    ensures t.bloomBv == old(t.bloomBv) || fresh(t.bloomBv)
    ensures forall i :: 0 <= i < |t.items| ==> t.items[i] in old(t.items) || fresh(t.items[i])
  {
    hide Lookup, UtHash.UniqueKeys, Without, Entries, After;
    ghost var its := t.items;
    KeysUnique(t);
    var x := t.Find(c.key);
    if x == null {
      KeyNotInUse(its, c);
      answer := None;
      if c.Put? {
        Insert(t, c.key, c.value);
      }
    } else {
      KeyInUse(its, c, x);
      answer := Some(x.data.value);
      if c.Remove? {
        Discard(t, x);
      }
    }
  }

  lemma KeysUnique<K, V>(t: UtHash.Table<K, V>)
    requires t.Valid()
    ensures UtHash.UniqueKeys(t.items) && forall i :: 0 <= i < |t.items| ==> t.items[i] in t.items
  {
  }

  lemma KeptBySort<K, V>(its: seq<Item<K, V>>, r: seq<Item<K, V>>)
    requires multiset(r) == multiset(its)
    ensures forall i :: 0 <= i < |r| ==> r[i] in its
  {
    SameMembers(r, its);
    forall i | 0 <= i < |r|
      ensures r[i] in its
    {
      assert r[i] in r;
    }
  }

  lemma KeptByFilter<K, V>(drop: Item<K, V> -> bool, its: seq<Item<K, V>>)
    ensures forall i :: 0 <= i < |Filter(Not(drop), its)| ==> Filter(Not(drop), its)[i] in its
  {
    var r := Filter(Not(drop), its);
    FilterMembers(Not(drop), its);
    assert forall i :: 0 <= i < |r| ==> r[i] in r;
  }

  /** One command carried out on the table. */
  method Do<K(==), V>(t: UtHash.Table<K, V>, c: Command<K, V>) returns (answer: Option<V>)
    requires t.Valid()
    modifies t, t.buckets, t.bloomBv, t.items
    ensures t.Valid() && Entries(t.items) == After(old(Entries(t.items)), c)
    ensures answer == Answer(old(Entries(t.items)), c)
    ensures c.Put? || c.Get? || c.Remove? ==>
              && (answer == None <==> forall e :: e in old(Entries(t.items)) ==> e.key != c.key)
              && (answer.Some? ==> Entry(c.key, answer.value) in old(Entries(t.items)))
    ensures c.Arrange? || c.Purge? ==> answer == None
    ensures t.buckets == old(t.buckets) || fresh(t.buckets)
    ensures t.bloomBv == old(t.bloomBv) || fresh(t.bloomBv)
    ensures forall i :: 0 <= i < |t.items| ==> t.items[i] in old(t.items) || fresh(t.items[i])
  {
    hide Lookup, UtHash.Table.Valid, Entries, SortFrom, Filter;
    ghost var its := t.items;
    answer := None;
    if c.Arrange? {
      EntriesSort(c.cmp, its, 1);
      SortFromPermutes(OnEntries(c.cmp), its, 1);
      t.Sort(OnEntries(c.cmp));
      KeptBySort(its, t.items);
    } else if c.Purge? {
      EntriesFilter(c.drop, its);
      KeptByFilter(OfEntry(c.drop), its);
      ghost var visited := t.IterDelete(OfEntry(c.drop));
    } else {
      answer := DoByKey(t, c);
      AnswerIs(old(Entries(t.items)), c, answer);
    }
  }

  lemma NextInOrder<K, V>(t: UtHash.Table<K, V>, i: nat)
    requires t.Valid()
    ensures t.head == At(t.items, 0) && (i < |t.items| ==> t.items[i].next == At(t.items, i + 1))
  {
  }

  /** Reading the hash in application order. */
  method Contents<K, V>(t: UtHash.Table<K, V>) returns (es: seq<Entry<K, V>>)
    requires t.Valid()
    ensures es == Entries(t.items)
  {
    hide UtHash.Table.Valid;
    NextInOrder(t, 0);
    var el, i := t.head, 0;
    es := [];
    while el != null
      invariant i <= |t.items| && el == At(t.items, i) && es == Entries(t.items)[..i]
      decreases |t.items| - i
    {
      NextInOrder(t, i);
      es := es + [el.data];
      el, i := el.next, i + 1;
    }
  }

  lemma AnswerIs<K, V>(s: seq<Entry<K, V>>, c: Command<K, V>, answer: Option<V>)
    requires ByKey(c) && Found(s, c.key, answer)
    ensures answer == None <==> forall e :: e in s ==> e.key != c.key
    ensures answer.Some? ==> Entry(c.key, answer.value) in s
  {
    if answer == None {
      forall e | e in s
        ensures e.key != c.key
      {
        var i :| 0 <= i < |s| && s[i] == e;
      }
    }
  }

  lemma FoundLookup<K, V>(s: seq<Entry<K, V>>, key: K)
    requires Keyed(s)
    ensures Found(s, key, Lookup(s, key))
  {
    hide Lookup, IndexOf;
    LookupAbsentOrAt(s, key);
  }

  /** Keys are unique after every run. */
  lemma {:induction false} FinalKeyed<K, V>(cs: seq<Command<K, V>>)
    ensures Keyed(Final([], cs))
  {
    if |cs| > 0 {
      var s, c := Final([], cs[..|cs| - 1]), cs[|cs| - 1];
      FinalKeyed(cs[..|cs| - 1]);
      hide After;
      match c
      case Arrange(cmp) => ArrangedKeyed(s, cmp);
      case Purge(drop) => PurgedKeyed(s, drop);
      case _ => ByKeyKeyed(s, c);
    }
  }

  lemma ByKeyKeyed<K, V>(s: seq<Entry<K, V>>, c: Command<K, V>)
    requires Keyed(s) && ByKey(c)
    ensures Keyed(After(s, c))
  {
    LookupAfter(s, c, c.key);
  }

  lemma {:induction false} AnswersLength<K, V>(cs: seq<Command<K, V>>)
    ensures |Answers([], cs)| == |cs|
    ensures forall i :: 0 <= i < |cs| ==> Answers([], cs)[i] == Answer(Final([], cs[..i]), cs[i])
  {
    if |cs| > 0 {
      var front := cs[..|cs| - 1];
      AnswersLength(front);
      forall i | 0 <= i < |cs|
        ensures Answers([], cs)[i] == Answer(Final([], cs[..i]), cs[i])
      {
        if i < |front| {
          assert front[..i] == cs[..i];
        }
      }
    }
  }

  /** What a run answers, in terms of the contents each command finds. */
  lemma AnswersAre<K, V>(cs: seq<Command<K, V>>)
    ensures |Answers([], cs)| == |cs|
    ensures forall i :: 0 <= i < |cs| && (cs[i].Put? || cs[i].Get? || cs[i].Remove?) ==>
              && (Answers([], cs)[i] == None <==> forall e :: e in Final([], cs[..i]) ==> e.key != cs[i].key)
              && (Answers([], cs)[i].Some? ==> Entry(cs[i].key, Answers([], cs)[i].value) in Final([], cs[..i]))
    ensures forall i :: 0 <= i < |cs| && (cs[i].Arrange? || cs[i].Purge?) ==> Answers([], cs)[i] == None
  {
    AnswersLength(cs);
    hide Final, Answers, Lookup;
    forall i | 0 <= i < |cs| && (cs[i].Put? || cs[i].Get? || cs[i].Remove?)
      ensures Answers([], cs)[i] == None <==> forall e :: e in Final([], cs[..i]) ==> e.key != cs[i].key
      ensures Answers([], cs)[i].Some? ==> Entry(cs[i].key, Answers([], cs)[i].value) in Final([], cs[..i])
    {
      FinalKeyed(cs[..i]);
      FoundLookup(Final([], cs[..i]), cs[i].key);
      AnswerIs(Final([], cs[..i]), cs[i], Answers([], cs)[i]);
    }
  }

  lemma RunStep<K, V>(cs: seq<Command<K, V>>, i: nat)
    requires i < |cs|
    ensures Final([], cs[..i + 1]) == After(Final([], cs[..i]), cs[i])
    ensures Answers([], cs[..i + 1]) == Answers([], cs[..i]) + [Answer(Final([], cs[..i]), cs[i])]
  {
    assert cs[..i + 1][..i] == cs[..i];
  }

  lemma NothingRun<K, V>(cs: seq<Command<K, V>>)
    ensures cs[..|cs|] == cs && Final([], cs[..0]) == [] && Answers([], cs[..0]) == []
    ensures Entries<K, V>([]) == []
  {
  }

  /** For every hash function, with or without a Bloom filter and through every doubling, a run answers like the
      ordered map and leaves its contents in its order; while doubling is allowed the table is big enough for them. */
  method Run<K(==), V>(fcn: K -> nat, bloom: UtHash.BloomSetting, cs: seq<Command<K, V>>)
    returns (t: UtHash.Table<K, V>, answers: seq<Option<V>>, contents: seq<Entry<K, V>>)
    ensures answers == Answers([], cs) && contents == Final([], cs) && |answers| == |cs|
    ensures forall i :: 0 <= i < |cs| && (cs[i].Put? || cs[i].Get? || cs[i].Remove?) ==>
              && (answers[i] == None <==> forall e :: e in Final([], cs[..i]) ==> e.key != cs[i].key)
              && (answers[i].Some? ==> Entry(cs[i].key, answers[i].value) in Final([], cs[..i]))
    ensures forall i :: 0 <= i < |cs| && (cs[i].Arrange? || cs[i].Purge?) ==> answers[i] == None
    ensures t.Valid() && Entries(t.items) == contents && t.fcn == fcn && t.bloom == bloom
    ensures t.head != null && (t.noexpand == 0 || t.numBuckets <= 64) ==> |contents| < 20 * t.numBuckets
  {
    hide Answer, After, Final, Answers, Entries, UtHash.Table.Valid;
    NothingRun(cs);
    t := new UtHash.Table(fcn, bloom);
    answers := [];
    for i := 0 to |cs|
      invariant t.Valid() && t.fcn == fcn && t.bloom == bloom && fresh(t) && fresh(t.buckets) && fresh(t.bloomBv)
      invariant forall k :: 0 <= k < |t.items| ==> fresh(t.items[k])
      invariant answers == Answers([], cs[..i]) && Entries(t.items) == Final([], cs[..i])
    {
      RunStep(cs, i);
      var answer := Do(t, cs[i]);
      answers := answers + [answer];
    }
    contents := Contents(t);
    AnswersAre(cs);
    if t.head != null && t.numBuckets <= 64 {
      t.SmallTableLoadBounded();
    }
    if t.head != null && t.noexpand == 0 {
      t.LoadBounded();
    }
  }
}
