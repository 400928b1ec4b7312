/** What the bottom-up merge sorts of utlist.h and uthash.h compute, as functions on sequences,
    and why that is the one stable sort of the input. */
module StableMerge {
  import opened Bits
  import opened Seqs

  /** The merge step: the left run wins ties. */
  function Merge<T>(cmp: (T, T) -> int, p: seq<T>, q: seq<T>): (r: seq<T>)
    ensures |r| == |p| + |q|
    decreases |p| + |q|
  {
    if |p| == 0 then q
    else if |q| == 0 then p
    else if cmp(p[0], q[0]) <= 0 then [p[0]] + Merge(cmp, p[1..], q)
    else [q[0]] + Merge(cmp, p, q[1..])
  }

  /** One pass: merge neighbouring runs of length k. */
  function Pass<T>(cmp: (T, T) -> int, s: seq<T>, k: nat): (r: seq<T>)
    requires k >= 1
    ensures |r| == |s|
  {
    if |s| == 0 then []
    else
      var m, e := Min(k, |s|), Min(2 * k, |s|);
      Merge(cmp, s[..m], s[m..e]) + Pass(cmp, s[e..], k)
  }

  /** Passes with run length k, 2k, 4k, ... up to and including the first that makes a single merge. */
  function SortFrom<T>(cmp: (T, T) -> int, s: seq<T>, k: nat): (r: seq<T>)
    requires k >= 1
    ensures |r| == |s|
    decreases |s| - k
  {
    if |s| <= 2 * k then Pass(cmp, s, k) else SortFrom(cmp, Pass(cmp, s, k), 2 * k)
  }

  /** The number of passes SortFrom makes on n elements. */
  function Passes(n: nat, k: nat): nat
    requires k >= 1
    decreases n - k
  {
    if n <= 2 * k then 1 else 1 + Passes(n, 2 * k)
  }

  /** Starting at run length 2^j, the run length reached covers n, and no earlier one did. */
  lemma {:induction false} PassesCover(n: nat, j: nat)
    ensures var last := j + Passes(n, Pow2(j));
            n <= Pow2(last) && (last > j + 1 ==> Pow2(last - 1) < n)
    decreases n - Pow2(j)
  {
    if n > 2 * Pow2(j) {
      assert Pow2(j + 1) == 2 * Pow2(j);
      PassesCover(n, j + 1);
    }
  }

  /** A list of n elements takes max(1, ceil(log2 n)) passes. */
  lemma PassesAreLogarithmic(n: nat)
    ensures Passes(n, 1) >= 1 && n <= Pow2(Passes(n, 1))
    ensures Passes(n, 1) > 1 ==> Pow2(Passes(n, 1) - 1) < n
  {
    PassesCover(n, 0);
  }

  ghost predicate TotalAt<T>(cmp: (T, T) -> int, a: T, b: T) {
    cmp(a, b) <= 0 || cmp(b, a) <= 0
  }

  ghost predicate TransitiveAt<T>(cmp: (T, T) -> int, a: T, b: T, c: T) {
    cmp(a, b) <= 0 && cmp(b, c) <= 0 ==> cmp(a, c) <= 0
  }

  /** "cmp(a, b) <= 0" is a total preorder on dom. The triggers keep the solver from chaining
      comparisons unless a proof names the elements. */
  ghost predicate TotalPreorder<T>(cmp: (T, T) -> int, dom: set<T>) {
    && (forall a, b {:trigger TotalAt(cmp, a, b)} :: a in dom && b in dom ==> TotalAt(cmp, a, b))
    && (forall a, b, c {:trigger TransitiveAt(cmp, a, b, c)} ::
          a in dom && b in dom && c in dom ==> TransitiveAt(cmp, a, b, c))
  }

  ghost predicate Within<T>(s: seq<T>, dom: set<T>) {
    forall x :: x in s ==> x in dom
  }

  ghost predicate Sorted<T>(cmp: (T, T) -> int, s: seq<T>) {
    forall i, j :: 0 <= i < j < |s| ==> cmp(s[i], s[j]) <= 0
  }

  /** The elements of s that compare equal to x, in order. */
  ghost function Ties<T>(cmp: (T, T) -> int, x: T, s: seq<T>): seq<T> {
    if |s| == 0 then []
    else if cmp(x, s[0]) <= 0 && cmp(s[0], x) <= 0 then [s[0]] + Ties(cmp, x, s[1..])
    else Ties(cmp, x, s[1..])
  }

  /** r keeps the order that s gives to elements that compare equal. */
  ghost predicate KeepsTies<T>(cmp: (T, T) -> int, s: seq<T>, r: seq<T>, dom: set<T>) {
    forall x :: x in dom ==> Ties(cmp, x, r) == Ties(cmp, x, s)
  }

  /** Every run of k elements is sorted (the last run may be shorter). */
  ghost predicate RunsSorted<T>(cmp: (T, T) -> int, s: seq<T>, k: nat)
    requires k >= 1
  {
    |s| > 0 ==> Sorted(cmp, s[..Min(k, |s|)]) && RunsSorted(cmp, s[Min(k, |s|)..], k)
  }

  lemma {:induction false} MergePermutes<T>(cmp: (T, T) -> int, p: seq<T>, q: seq<T>)
    ensures multiset(Merge(cmp, p, q)) == multiset(p) + multiset(q)
    decreases |p| + |q|
  {
    if |p| > 0 && |q| > 0 {
      if cmp(p[0], q[0]) <= 0 {
        var x, rest := p[0], p[1..];
        MergePermutes(cmp, rest, q);
        assert Merge(cmp, p, q) == [x] + Merge(cmp, rest, q);
        hide Merge;
        assert p == [x] + rest;
      } else {
        var x, rest := q[0], q[1..];
        MergePermutes(cmp, p, rest);
        assert Merge(cmp, p, q) == [x] + Merge(cmp, p, rest);
        hide Merge;
        assert q == [x] + rest;
      }
    }
  }

  lemma MergeMembers<T>(cmp: (T, T) -> int, p: seq<T>, q: seq<T>)
    ensures forall x :: x in Merge(cmp, p, q) <==> x in p || x in q
  {
    MergePermutes(cmp, p, q);
    forall x
      ensures x in Merge(cmp, p, q) <==> x in p || x in q
    {
      assert x in Merge(cmp, p, q) <==> x in multiset(Merge(cmp, p, q));
      assert x in p <==> x in multiset(p);
    }
  }

  lemma SameMembers<T>(a: seq<T>, b: seq<T>)
    requires multiset(a) == multiset(b)
    ensures forall x :: x in a <==> x in b
  {
    forall x
      ensures x in a <==> x in b
    {
      assert x in a <==> x in multiset(a);
    }
  }

  lemma PermutedWithin<T>(s: seq<T>, r: seq<T>, dom: set<T>)
    requires multiset(r) == multiset(s) && Within(s, dom)
    ensures Within(r, dom)
  {
    SameMembers(r, s);
  }

  lemma ConsSorted<T>(cmp: (T, T) -> int, x: T, s: seq<T>)
    requires Sorted(cmp, s) && forall y :: y in s ==> cmp(x, y) <= 0
    ensures Sorted(cmp, [x] + s)
  {
  }

  lemma {:induction false} MergeSorts<T>(cmp: (T, T) -> int, p: seq<T>, q: seq<T>, dom: set<T>)
    requires TotalPreorder(cmp, dom) && Within(p, dom) && Within(q, dom)
    requires Sorted(cmp, p) && Sorted(cmp, q)
    ensures Sorted(cmp, Merge(cmp, p, q))
    decreases |p| + |q|
  {
    if |p| > 0 && |q| > 0 {
      var left := cmp(p[0], q[0]) <= 0;
      var x, p', q' := if left then p[0] else q[0], if left then p[1..] else p, if left then q else q[1..];
      MergeSorts(cmp, p', q', dom);
      MergeMembers(cmp, p', q');
      assert TotalAt(cmp, p[0], q[0]);
      forall y | y in Merge(cmp, p', q')
        ensures cmp(x, y) <= 0
      {
        assert TransitiveAt(cmp, x, p[0], y) && TransitiveAt(cmp, x, q[0], y);
      }
      ConsSorted(cmp, x, Merge(cmp, p', q'));
    }
  }

  lemma {:induction false} TiesConcat<T>(cmp: (T, T) -> int, x: T, a: seq<T>, b: seq<T>)
    ensures Ties(cmp, x, a + b) == Ties(cmp, x, a) + Ties(cmp, x, b)
  {
    if |a| == 0 {
      assert a + b == b;
    } else {
      assert (a + b)[1..] == a[1..] + b;
      TiesConcat(cmp, x, a[1..], b);
    }
  }

  lemma {:induction false} NoTies<T>(cmp: (T, T) -> int, x: T, s: seq<T>)
    requires forall y :: y in s ==> !(cmp(y, x) <= 0)
    ensures Ties(cmp, x, s) == []
  {
    if |s| > 0 {
      NoTies(cmp, x, s[1..]);
    }
  }

  /** Merging a sorted left run with any right run keeps the order of ties. */
  lemma {:induction false} MergeKeepsTies<T>(cmp: (T, T) -> int, x: T, p: seq<T>, q: seq<T>, dom: set<T>)
    requires TotalPreorder(cmp, dom) && Within(p, dom) && Within(q, dom) && x in dom
    requires Sorted(cmp, p)
    ensures Ties(cmp, x, Merge(cmp, p, q)) == Ties(cmp, x, p) + Ties(cmp, x, q)
    decreases |p| + |q|
  {
    if |p| > 0 && |q| > 0 {
      if cmp(p[0], q[0]) <= 0 {
        MergeKeepsTies(cmp, x, p[1..], q, dom);
      } else {
        MergeKeepsTies(cmp, x, p, q[1..], dom);
        if cmp(x, q[0]) <= 0 && cmp(q[0], x) <= 0 {
          forall y | y in p
            ensures !(cmp(y, x) <= 0)
          {
            assert TotalAt(cmp, p[0], p[0]) && TransitiveAt(cmp, p[0], y, x) && TransitiveAt(cmp, p[0], x, q[0]);
          }
          NoTies(cmp, x, p);
        }
      }
    }
  }

  lemma MultisetConcat<T>(s: seq<T>, m: nat, e: nat)
    requires m <= e <= |s|
    ensures multiset(s) == multiset(s[..m]) + multiset(s[m..e]) + multiset(s[e..])
  {
    assert s == s[..e] + s[e..];
    assert s[..e] == s[..m] + s[m..e];
  }

  lemma {:induction false} PassPermutes<T>(cmp: (T, T) -> int, s: seq<T>, k: nat)
    requires k >= 1
    ensures multiset(Pass(cmp, s, k)) == multiset(s)
  {
    if |s| > 0 {
      var m, e := Min(k, |s|), Min(2 * k, |s|);
      MergePermutes(cmp, s[..m], s[m..e]);
      PassPermutes(cmp, s[e..], k);
      MultisetConcat(s, m, e);
    }
  }

  /** The first two runs of s, and what follows them. */
  lemma RunsSplit<T>(cmp: (T, T) -> int, s: seq<T>, k: nat)
    requires k >= 1 && |s| > 0 && RunsSorted(cmp, s, k)
    ensures var m, e := Min(k, |s|), Min(2 * k, |s|);
            Sorted(cmp, s[..m]) && Sorted(cmp, s[m..e]) && RunsSorted(cmp, s[e..], k)
  {
    var m, e := Min(k, |s|), Min(2 * k, |s|);
    var t := s[m..];
    assert t[..Min(k, |t|)] == s[m..e] && t[Min(k, |t|)..] == s[e..];
  }

  /** A pass over sorted runs of length k leaves sorted runs of length 2k. */
  lemma {:induction false} PassSorts<T>(cmp: (T, T) -> int, s: seq<T>, k: nat, dom: set<T>)
    requires k >= 1 && TotalPreorder(cmp, dom) && Within(s, dom) && RunsSorted(cmp, s, k)
    ensures RunsSorted(cmp, Pass(cmp, s, k), 2 * k)
  {
    if |s| > 0 {
      var m, e := Min(k, |s|), Min(2 * k, |s|);
      RunsSplit(cmp, s, k);
      MergeSorts(cmp, s[..m], s[m..e], dom);
      PassSorts(cmp, s[e..], k, dom);
      var r := Pass(cmp, s, k);
      assert r[..e] == Merge(cmp, s[..m], s[m..e]) && r[e..] == Pass(cmp, s[e..], k);
    }
  }

  lemma TiesCut<T>(cmp: (T, T) -> int, x: T, s: seq<T>, m: nat)
    requires m <= |s|
    ensures Ties(cmp, x, s) == Ties(cmp, x, s[..m]) + Ties(cmp, x, s[m..])
  {
    hide Ties;
    var a, b := s[..m], s[m..];
    TiesConcat(cmp, x, a, b);
    assert a + b == s;
  }

  lemma TiesSplit<T>(cmp: (T, T) -> int, x: T, s: seq<T>, m: nat, e: nat)
    requires m <= e <= |s|
    ensures Ties(cmp, x, s) == (Ties(cmp, x, s[..m]) + Ties(cmp, x, s[m..e])) + Ties(cmp, x, s[e..])
  {
    TiesCut(cmp, x, s, e);
    var t := s[..e];
    TiesCut(cmp, x, t, m);
    assert t[..m] == s[..m];
    assert t[m..] == s[m..e];
  }

  lemma {:induction false} PassKeepsTies<T>(cmp: (T, T) -> int, x: T, s: seq<T>, k: nat, dom: set<T>)
    requires k >= 1 && TotalPreorder(cmp, dom) && Within(s, dom) && x in dom && RunsSorted(cmp, s, k)
    ensures Ties(cmp, x, Pass(cmp, s, k)) == Ties(cmp, x, s)
  {
    if |s| > 0 {
      var m, e := Min(k, |s|), Min(2 * k, |s|);
      RunsSplit(cmp, s, k);
      MergeKeepsTies(cmp, x, s[..m], s[m..e], dom);
      PassKeepsTies(cmp, x, s[e..], k, dom);
      TiesConcat(cmp, x, Merge(cmp, s[..m], s[m..e]), Pass(cmp, s[e..], k));
      TiesSplit(cmp, x, s, m, e);
    }
  }

  lemma OnePass<T>(cmp: (T, T) -> int, s: seq<T>, k: nat, dom: set<T>)
    requires k >= 1 && TotalPreorder(cmp, dom) && Within(s, dom) && RunsSorted(cmp, s, k)
    ensures var r := Pass(cmp, s, k);
            multiset(r) == multiset(s) && Within(r, dom) && RunsSorted(cmp, r, 2 * k) && KeepsTies(cmp, s, r, dom)
  {
    var r := Pass(cmp, s, k);
    PassPermutes(cmp, s, k);
    PermutedWithin(s, r, dom);
    PassSorts(cmp, s, k, dom);
    forall x | x in dom
      ensures Ties(cmp, x, r) == Ties(cmp, x, s)
    {
      PassKeepsTies(cmp, x, s, k, dom);
    }
  }

  lemma OneRunSorted<T>(cmp: (T, T) -> int, s: seq<T>, k: nat)
    requires k >= 1 && RunsSorted(cmp, s, k) && |s| <= k
    ensures Sorted(cmp, s)
  {
    assert s[..|s|] == s;
  }

  lemma {:induction false} SortFromSorts<T>(cmp: (T, T) -> int, s: seq<T>, k: nat, dom: set<T>)
    requires k >= 1 && TotalPreorder(cmp, dom) && Within(s, dom) && RunsSorted(cmp, s, k)
    ensures multiset(SortFrom(cmp, s, k)) == multiset(s)
    ensures Sorted(cmp, SortFrom(cmp, s, k)) && KeepsTies(cmp, s, SortFrom(cmp, s, k), dom)
    decreases |s| - k
  {
    OnePass(cmp, s, k, dom);
    if |s| <= 2 * k {
      OneRunSorted(cmp, Pass(cmp, s, k), 2 * k);
    } else {
      SortFromSorts(cmp, Pass(cmp, s, k), 2 * k, dom);
    }
  }

  lemma {:induction false} SortFromPermutes<T>(cmp: (T, T) -> int, s: seq<T>, k: nat)
    requires k >= 1
    ensures multiset(SortFrom(cmp, s, k)) == multiset(s)
    decreases |s| - k
  {
    PassPermutes(cmp, s, k);
    if |s| > 2 * k {
      SortFromPermutes(cmp, Pass(cmp, s, k), 2 * k);
    }
  }

  lemma {:induction false} UnitRunsSorted<T>(cmp: (T, T) -> int, s: seq<T>)
    ensures RunsSorted(cmp, s, 1)
  {
    if |s| > 0 {
      UnitRunsSorted(cmp, s[1..]);
    }
  }

  /** The sort of utlist.h and uthash.h: a sorted, stable permutation for every total preorder. */
  lemma StableSort<T>(cmp: (T, T) -> int, s: seq<T>)
    requires TotalPreorder(cmp, set x | x in s)
    ensures multiset(SortFrom(cmp, s, 1)) == multiset(s)
    ensures Sorted(cmp, SortFrom(cmp, s, 1))
    ensures KeepsTies(cmp, s, SortFrom(cmp, s, 1), set x | x in s)
    ensures forall i, j :: 0 <= i < j < |s| ==> cmp(SortFrom(cmp, s, 1)[i], SortFrom(cmp, s, 1)[j]) <= 0
  {
    UnitRunsSorted(cmp, s);
    SortFromSorts(cmp, s, 1, set x | x in s);
  }

  ghost predicate Tie<T>(cmp: (T, T) -> int, x: T, y: T) {
    cmp(x, y) <= 0 && cmp(y, x) <= 0
  }

  /** Ties are listed in the order of the sequence. */
  lemma {:induction false} TiesInOrder<T>(cmp: (T, T) -> int, x: T, s: seq<T>, i: nat, j: nat) returns (a: nat, b: nat)
    requires i < j < |s| && Tie(cmp, x, s[i]) && Tie(cmp, x, s[j])
    ensures a < b < |Ties(cmp, x, s)| && Ties(cmp, x, s)[a] == s[i] && Ties(cmp, x, s)[b] == s[j]
  {
    var t := Ties(cmp, x, s[1..]);
    if i == 0 {
      b := TieIsListed(cmp, x, s[1..], j - 1);
      a, b := 0, b + 1;
      assert ([s[0]] + t)[b] == t[b - 1];
    } else {
      a, b := TiesInOrder(cmp, x, s[1..], i - 1, j - 1);
      if Tie(cmp, x, s[0]) {
        a, b := a + 1, b + 1;
        assert ([s[0]] + t)[a] == t[a - 1] && ([s[0]] + t)[b] == t[b - 1];
      }
    }
  }

  lemma {:induction false} TieIsListed<T>(cmp: (T, T) -> int, x: T, s: seq<T>, j: nat) returns (b: nat)
    requires j < |s| && Tie(cmp, x, s[j])
    ensures b < |Ties(cmp, x, s)| && Ties(cmp, x, s)[b] == s[j]
  {
    if j == 0 {
      b := 0;
    } else {
      b := TieIsListed(cmp, x, s[1..], j - 1);
      if Tie(cmp, x, s[0]) {
        b := b + 1;
        assert ([s[0]] + Ties(cmp, x, s[1..]))[b] == Ties(cmp, x, s[1..])[b - 1];
      }
    }
  }

  lemma {:induction false} TiesMembers<T>(cmp: (T, T) -> int, x: T, s: seq<T>)
    ensures forall y :: y in Ties(cmp, x, s) ==> y in s
    ensures Distinct(s) ==> Distinct(Ties(cmp, x, s))
  {
    if |s| > 0 {
      var t := Ties(cmp, x, s[1..]);
      TiesMembers(cmp, x, s[1..]);
      assert forall k :: 0 <= k < |t| ==> t[k] in t;
    }
  }

  /** Stability, for elements that are all different, as nodes are: of two elements that compare equal the one that
      came first before the sort comes first after it. */
  lemma SortIsStable<T>(cmp: (T, T) -> int, s: seq<T>, i: nat, j: nat, p: nat, q: nat)
    requires TotalPreorder(cmp, set x | x in s) && Distinct(s) && i < j < |s| && p < |s| && q < |s|
    requires cmp(s[i], s[j]) <= 0 && cmp(s[j], s[i]) <= 0
    requires SortFrom(cmp, s, 1)[p] == s[i] && SortFrom(cmp, s, 1)[q] == s[j]
    ensures p < q
  {
    var r, x := SortFrom(cmp, s, 1), s[i];
    StableSort(cmp, s);
    hide SortFrom;
    assert TotalAt(cmp, x, x);
    assert Ties(cmp, x, r) == Ties(cmp, x, s);
    var a, b := TiesInOrder(cmp, x, s, i, j);
    TiesMembers(cmp, x, s);
    if q < p {
      var c, d := TiesInOrder(cmp, x, r, q, p);
      hide Ties;
    }
  }

  lemma TiesTail<T>(cmp: (T, T) -> int, y: T, a: seq<T>, b: seq<T>)
    requires |a| > 0 && |b| > 0 && a[0] == b[0] && Ties(cmp, y, a) == Ties(cmp, y, b)
    ensures Ties(cmp, y, a[1..]) == Ties(cmp, y, b[1..])
  {
    var t := if cmp(y, a[0]) <= 0 && cmp(a[0], y) <= 0 then [a[0]] else [];
    assert (t + Ties(cmp, y, a[1..]))[|t|..] == Ties(cmp, y, a[1..]);
    assert (t + Ties(cmp, y, b[1..]))[|t|..] == Ties(cmp, y, b[1..]);
  }

  lemma MultisetTail<T>(a: seq<T>, b: seq<T>)
    requires |a| > 0 && |b| > 0 && a[0] == b[0] && multiset(a) == multiset(b)
    ensures multiset(a[1..]) == multiset(b[1..])
  {
    assert a == [a[0]] + a[1..] && b == [b[0]] + b[1..];
    assert multiset(a[1..]) == multiset(a) - multiset{a[0]} && multiset(b[1..]) == multiset(b) - multiset{a[0]};
  }

  lemma SameHead<T>(cmp: (T, T) -> int, a: seq<T>, b: seq<T>, dom: set<T>)
    requires TotalPreorder(cmp, dom) && Within(a, dom) && |a| > 0 && |b| > 0 && a[0] in b && b[0] in a
    requires Sorted(cmp, a) && Sorted(cmp, b) && KeepsTies(cmp, a, b, dom)
    ensures a[0] == b[0]
  {
    var x, y := a[0], b[0];
    assert TotalAt(cmp, x, x) && TotalAt(cmp, y, y);
    assert cmp(x, y) <= 0 && cmp(y, x) <= 0;
    assert Ties(cmp, x, a)[0] == x && Ties(cmp, x, b)[0] == y;
  }

  /** Being sorted and keeping ties leaves no choice: any two such arrangements are equal. */
  lemma {:induction false} StableSortUnique<T>(cmp: (T, T) -> int, a: seq<T>, b: seq<T>, dom: set<T>)
    requires TotalPreorder(cmp, dom) && Within(a, dom) && multiset(a) == multiset(b)
    requires Sorted(cmp, a) && Sorted(cmp, b) && KeepsTies(cmp, a, b, dom)
    ensures a == b
  {
    SameMembers(a, b);
    assert |a| == |multiset(a)| && |b| == |multiset(b)|;
    if |a| > 0 {
      assert a[0] in b && b[0] in a;
      SameHead(cmp, a, b, dom);
      forall y | y in dom
        ensures Ties(cmp, y, a[1..]) == Ties(cmp, y, b[1..])
      {
        TiesTail(cmp, y, a, b);
      }
      MultisetTail(a, b);
      StableSortUnique(cmp, a[1..], b[1..], dom);
    }
  }
}
