/** LL_SORT, DL_SORT, CDL_SORT and HASH_SRT: one bottom-up merge sort in place, which differs
    between the four macros only in how a run's end is recognised and which links are written. */
module ListSort {
  import opened Seqs
  import opened Links
  import opened StableMerge

  /** The element after x; a circular list ends where it comes back to the old head. */
  function Step<T>(shape: Shape, oldHead: Node<T>, x: Node<T>): Node?<T>
    reads x
  {
    if shape.Circular? && x.next == oldHead then null else x.next
  }

  /** The list built so far: linked up to its tail, whose own next is still stale. */
  ghost predicate Built<T>(shape: Shape, out: seq<Node<T>>, list: Node?<T>, tail: Node?<T>)
    reads out
  {
    && list == At(out, 0) && tail == Last(out)
    && (forall a {:trigger out[a].next} :: 0 <= a < |out| - 1 ==> out[a].next == out[a + 1])
    && (!shape.Single? ==> forall a {:trigger out[a].prev} :: 0 <= a < |out| ==> out[a].prev == At(out, a - 1))
  }

  /** The elements of s in [a, j) and from b on still carry the links the pass started with. */
  ghost predicate Untouched<T>(shape: Shape, s: seq<Node<T>>, a: nat, j: nat, b: nat)
    reads s
  {
    forall n {:trigger s[n].next} :: 0 <= n < |s| && (a <= n < j || b <= n) ==> s[n].next == NextOf(shape, s, n)
  }

  /** No element of out is one of those. */
  ghost predicate Apart<T>(out: seq<Node<T>>, s: seq<Node<T>>, a: nat, j: nat, b: nat) {
    forall m, n :: 0 <= m < |out| && 0 <= n < |s| && (a <= n < j || b <= n) ==> out[m] != s[n]
  }

  method StepOver<T>(shape: Shape, oldHead: Node<T>, p: Node<T>, k: nat, ghost s: seq<Node<T>>, ghost i: nat)
    returns (q: Node?<T>, psize: nat)
    requires k >= 1 && i < |s| && s[0] == oldHead && s[i] == p && Distinct(s) && Untouched(shape, s, i, i, i)
    ensures psize == Min(k, |s| - i) && q == At(s, i + psize)
  {
    q, psize := p, 0;
    var n := 0;
    while n < k
      invariant 0 <= n <= k && psize == n && i + n < |s| && q == s[i + n]
    {
      psize := psize + 1;
      q := Step(shape, oldHead, q);
      if q == null {
        break;
      }
      n := n + 1;
    }
  }

  /** Put e, the first element of one of the two pending stretches of s, at the end of the list being built. */
  method Emit<T>(shape: Shape, e: Node<T>, list: Node?<T>, tail: Node?<T>, ghost out: seq<Node<T>>,
                 ghost s: seq<Node<T>>, ghost a: nat, ghost j: nat, ghost b: nat, ghost left: bool,
                 ghost dom: set<Node<T>>)
    returns (list': Node?<T>, tail': Node?<T>)
    requires Distinct(s) && a <= j <= b <= |s| && (if left then a < j && e == s[a] else b < |s| && e == s[b])
    requires Distinct(out) && Apart(out, s, a, j, b) && Untouched(shape, s, a, j, b)
    requires Built(shape, out, list, tail) && Within(out, dom) && Within(s, dom)
    modifies dom`next, dom`prev
    ensures var a', b' := if left then a + 1 else a, if left then b else b + 1;
            Apart(out + [e], s, a', j, b') && Untouched(shape, s, a', j, b')
    ensures Distinct(out + [e]) && Built(shape, out + [e], list', tail') && Within(out + [e], dom)
    ensures shape.Single? ==> e.prev == old(e.prev)
  {
    assert e in s && e !in out && (tail != null ==> tail in out);
    list' := list;
    if tail != null {
      tail.next := e;
    } else {
      list' := e;
    }
    if !shape.Single? {
      e.prev := tail;
    }
    tail' := e;
  }

  /** Whichever run the next element is taken from, list plus pending merge stays the same. */
  lemma TakeStep<T>(cmp: (T, T) -> int, s: seq<T>, a: nat, j: nat, b: nat, end: nat, out: seq<T>)
    requires a <= j <= b <= end <= |s| && (a < j || b < end)
    ensures var left := b == end || (a < j && cmp(s[a], s[b]) <= 0);
            out + Merge(cmp, s[a..j], s[b..end])
            == if left then (out + [s[a]]) + Merge(cmp, s[a + 1..j], s[b..end])
               else (out + [s[b]]) + Merge(cmp, s[a..j], s[b + 1..end])
  {
    var p, q := s[a..j], s[b..end];
    if b == end || (a < j && cmp(s[a], s[b]) <= 0) {
      assert p[1..] == s[a + 1..j];
      assert Merge(cmp, p, q) == [s[a]] + Merge(cmp, p[1..], q);
      assert out + ([s[a]] + Merge(cmp, p[1..], q)) == (out + [s[a]]) + Merge(cmp, p[1..], q);
    } else {
      assert q[1..] == s[b + 1..end];
      assert Merge(cmp, p, q) == [s[b]] + Merge(cmp, p, q[1..]);
      assert out + ([s[b]] + Merge(cmp, p, q[1..])) == (out + [s[b]]) + Merge(cmp, p, q[1..]);
    }
  }

  lemma NothingLeft<T>(cmp: (T, T) -> int, s: seq<T>, a: nat, b: nat, out: seq<T>)
    requires a <= |s| && b <= |s|
    ensures out + Merge(cmp, s[a..a], s[b..b]) == out
  {
  }

  lemma TwoStretches<T>(shape: Shape, out: seq<Node<T>>, s: seq<Node<T>>, a: nat, j: nat)
    requires a <= j && Apart(out, s, a, a, a) && Untouched(shape, s, a, a, a)
    ensures Apart(out, s, a, j, j) && Untouched(shape, s, a, j, j)
  {
  }

  lemma OneStretch<T>(shape: Shape, out: seq<Node<T>>, s: seq<Node<T>>, j: nat, b: nat)
    requires Apart(out, s, j, j, b) && Untouched(shape, s, j, j, b)
    ensures Apart(out, s, b, b, b) && Untouched(shape, s, b, b, b)
  {
  }

  /** The four branches of the innermost loop: which run gives the next element. */
  method Choose<T>(shape: Shape, cmp: (Node<T>, Node<T>) -> int, oldHead: Node<T>, p: Node?<T>, q: Node?<T>,
                   psize: nat, qsize: nat, ghost s: seq<Node<T>>, ghost a: nat, ghost b: nat, ghost end: nat)
    returns (e: Node<T>, p': Node?<T>, q': Node?<T>, psize': nat, qsize': nat, ghost left: bool, ghost asked: bool)
    requires |s| > 0 && s[0] == oldHead && Distinct(s) && a + psize <= b <= end <= |s|
    requires Untouched(shape, s, a, a + psize, b) && (psize > 0 ==> p == s[a]) && q == At(s, b)
    requires (qsize > 0 && q != null <==> b < end) && (psize > 0 || b < end)
    ensures left == (b == end || (psize > 0 && cmp(s[a], s[b]) <= 0))
    ensures asked == (psize > 0 && b < end)
    ensures if left then psize > 0 && e == s[a] && psize' == psize - 1 && (qsize', q') == (qsize, q)
                         && (psize' > 0 ==> p' == s[a + 1])
            else b < end && e == s[b] && qsize' == qsize - 1 && (psize', p') == (psize, p) && q' == At(s, b + 1)
  {
    p', q', psize', qsize' := p, q, psize, qsize;
    asked, left := false, true;
    if psize == 0 {
      e, q', qsize', left := q, Step(shape, oldHead, q), qsize - 1, false;
    } else if qsize == 0 || q == null {
      e, p', psize' := p, Step(shape, oldHead, p), psize - 1;
    } else {
      asked := true;
      if cmp(p, q) <= 0 {
        e, p', psize' := p, Step(shape, oldHead, p), psize - 1;
      } else {
        e, q', qsize', left := q, Step(shape, oldHead, q), qsize - 1, false;
      }
    }
  }

  /** The innermost loop: merge the runs s[i..j] and s[j..end] onto the end of the list. */
  method MergeRuns<T>(shape: Shape, cmp: (Node<T>, Node<T>) -> int, oldHead: Node<T>, p0: Node<T>, q0: Node?<T>,
                      psize0: nat, k: nat, list0: Node?<T>, tail0: Node?<T>,
                      ghost s: seq<Node<T>>, ghost i: nat, ghost out0: seq<Node<T>>, ghost dom: set<Node<T>>)
    returns (q: Node?<T>, list: Node?<T>, tail: Node?<T>, ghost out: seq<Node<T>>, ghost cmps: nat)
    requires k >= 1 && i < |s| && s[0] == oldHead && Distinct(s) && Untouched(shape, s, i, i, i)
    requires psize0 == Min(k, |s| - i) && p0 == s[i] && q0 == At(s, i + psize0)
    requires Distinct(out0) && Apart(out0, s, i, i, i) && Built(shape, out0, list0, tail0)
    requires Within(out0, dom) && Within(s, dom)
    modifies dom`next, dom`prev
    ensures var j, end := i + psize0, Min(i + 2 * k, |s|);
            && out == out0 + Merge(cmp, s[i..j], s[j..end]) && q == At(s, end) && Min(j - i, end - j) <= cmps < end - i
            && Distinct(out) && Apart(out, s, end, end, end) && Untouched(shape, s, end, end, end)
    ensures Built(shape, out, list, tail) && Within(out, dom)
  {
    hide Merge, Distinct, Built, Apart, Untouched, Within;
    ghost var j, end := i + psize0, Min(i + 2 * k, |s|);
    ghost var a, b, goal := i, j, out0 + Merge(cmp, s[i..j], s[j..end]);
    var p: Node?, psize, qsize := p0, psize0, k;
    q, list, tail, out, cmps := q0, list0, tail0, out0, 0;
    TwoStretches(shape, out, s, i, j);
    while psize > 0 || (qsize > 0 && q != null)
      invariant i <= a <= j <= b <= end && psize == j - a && qsize == k - (b - j)
      invariant (psize > 0 ==> p == s[a]) && q == At(s, b)
      invariant out + Merge(cmp, s[a..j], s[b..end]) == goal
      invariant Distinct(out) && Apart(out, s, a, j, b) && Untouched(shape, s, a, j, b)
      invariant Built(shape, out, list, tail) && Within(out, dom)
      invariant cmps <= (a - i) + (b - j) && (a < j && b < end ==> cmps == (a - i) + (b - j))
      invariant a == j && b == end ==> cmps < (a - i) + (b - j)
      invariant a == j || b == end ==> Min(j - i, end - j) <= cmps
      decreases psize + (end - b)
    {
      ghost var left, asked;
      var e: Node;
      TakeStep(cmp, s, a, j, b, end, out);
      e, p, q, psize, qsize, left, asked := Choose(shape, cmp, oldHead, p, q, psize, qsize, s, a, b, end);
      list, tail := Emit(shape, e, list, tail, out, s, a, j, b, left, dom);
      out := out + [e];
      a, b := if left then a + 1 else a, if left then b else b + 1;
      cmps := cmps + if asked then 1 else 0;
    }
    NothingLeft(cmp, s, a, b, out);
    OneStretch(shape, out, s, j, end);
  }

  lemma ConcatAssociative<T>(a: seq<T>, b: seq<T>, c: seq<T>)
    ensures a + (b + c) == (a + b) + c
  {
  }

  /** One more pair of runs is merged: what is built plus what a pass would make of the rest is fixed. */
  lemma PassStep<T>(cmp: (T, T) -> int, s: seq<T>, i: nat, k: nat, out: seq<T>)
    requires k >= 1 && i < |s|
    ensures var j, end := i + Min(k, |s| - i), Min(i + 2 * k, |s|);
            out + Pass(cmp, s[i..], k) == (out + Merge(cmp, s[i..j], s[j..end])) + Pass(cmp, s[end..], k)
  {
    var j, end := i + Min(k, |s| - i), Min(i + 2 * k, |s|);
    var t := s[i..];
    var m, e := Min(k, |t|), Min(2 * k, |t|);
    assert t[..m] == s[i..j];
    assert t[m..e] == s[j..end];
    assert t[e..] == s[end..];
    ConcatAssociative(out, Merge(cmp, t[..m], t[m..e]), Pass(cmp, t[e..], k));
  }

  /** After the last pair of runs: the assignments that give the list its shape back. */
  method Close<T>(shape: Shape, list: Node<T>, tail: Node<T>, ghost out: seq<Node<T>>)
    requires |out| > 0 && Distinct(out) && Built(shape, out, list, tail)
    modifies list`prev, tail`next
    ensures Linked(shape, out)
  {
    if shape.Double? || shape.Circular? {
      list.prev := tail;
    }
    tail.next := if shape.Circular? then list else null;
    forall a | 0 <= a < |out|
      ensures out[a].next == NextOf(shape, out, a)
      ensures !shape.Single? ==> out[a].prev == PrevOf(shape, out, a)
    {
      assert a < |out| - 1 ==> out[a] != tail;
      assert a > 0 ==> out[a] != list;
    }
  }

  lemma BeforePass<T>(shape: Shape, cmp: (Node<T>, Node<T>) -> int, s: seq<Node<T>>, k: nat)
    requires k >= 1 && |s| > 0 && Linked(shape, s)
    ensures At(s, 0) == s[0] && [] + Pass(cmp, s[0..], k) == Pass(cmp, s, k) && Distinct(s)
    ensures Distinct<Node<T>>([]) && Apart([], s, 0, 0, 0) && Untouched(shape, s, 0, 0, 0)
    ensures Built<T>(shape, [], null, null) && Within<Node<T>>([], {})
  {
    assert s[0..] == s;
  }

  lemma AfterPass<T>(shape: Shape, cmp: (Node<T>, Node<T>) -> int, s: seq<Node<T>>, i: nat, k: nat,
                     out: seq<Node<T>>, list: Node?<T>, tail: Node?<T>, dom: set<Node<T>>)
    requires k >= 1 && i <= |s| && At(s, i) == null && |s| > 0
    requires out + Pass(cmp, s[i..], k) == Pass(cmp, s, k) && Built(shape, out, list, tail) && Within(out, dom)
    ensures i == |s| && out == Pass(cmp, s, k) && list == out[0] && tail == out[|out| - 1]
    ensures list in dom && tail in dom
  {
    assert out == out + Pass(cmp, s[i..], k);
  }

  /** The body of the middle loop: find the two runs that start at p and merge them. */
  method MergePair<T>(shape: Shape, cmp: (Node<T>, Node<T>) -> int, head: Node<T>, p: Node<T>, k: nat,
                      list0: Node?<T>, tail0: Node?<T>,
                      ghost s: seq<Node<T>>, ghost i: nat, ghost out0: seq<Node<T>>, ghost dom: set<Node<T>>)
    returns (q: Node?<T>, list: Node?<T>, tail: Node?<T>, ghost out: seq<Node<T>>, ghost cmps: nat)
    requires k >= 1 && i < |s| && s[0] == head && s[i] == p && Distinct(s) && Untouched(shape, s, i, i, i)
    requires Distinct(out0) && Apart(out0, s, i, i, i) && Built(shape, out0, list0, tail0)
    requires Within(out0, dom) && Within(s, dom)
    modifies dom`next, dom`prev
    ensures var end := Min(i + 2 * k, |s|);
            && out + Pass(cmp, s[end..], k) == out0 + Pass(cmp, s[i..], k) && q == At(s, end) && cmps < end - i
            && Distinct(out) && Apart(out, s, end, end, end) && Untouched(shape, s, end, end, end)
    ensures Built(shape, out, list, tail) && Within(out, dom)
  {
    hide Pass, Merge, Distinct, Built, Apart, Untouched, Within;
    var psize;
    q, psize := StepOver(shape, head, p, k, s, i);
    PassStep(cmp, s, i, k, out0);
    q, list, tail, out, cmps := MergeRuns(shape, cmp, head, p, q, psize, k, list0, tail0, s, i, out0, dom);
  }

  /** One round of the outer loop: merge all pairs of runs of length k. */
  method MergePass<T>(shape: Shape, cmp: (Node<T>, Node<T>) -> int, head: Node<T>, k: nat, ghost s: seq<Node<T>>,
                      ghost dom: set<Node<T>>)
    returns (list: Node<T>, tail: Node<T>, nmerges: nat, ghost out: seq<Node<T>>, ghost cmps: nat)
    requires k >= 1 && |s| > 0 && head == s[0] && Linked(shape, s) && Within(s, dom)
    modifies dom`next, dom`prev
    ensures out == Pass(cmp, s, k) && Linked(shape, out) && list == out[0] && tail == out[|out| - 1]
    ensures (nmerges <= 1 <==> |s| <= 2 * k) && cmps < |s|
  {
    hide Pass, Linked, Distinct, Built, Apart, Untouched;
    var p: Node?, first: Node?, last: Node? := head, null, null;
    BeforePass(shape, cmp, s, k);
    ghost var i: nat, n, goal, k2 := 0, 0, Pass(cmp, s, k), 2 * k;
    nmerges, out, cmps := 0, [], 0;
    while p != null
      invariant i <= |s| && p == At(s, i)
      invariant out + Pass(cmp, s[i..], k) == goal
      invariant Distinct(out) && Apart(out, s, i, i, i) && Untouched(shape, s, i, i, i)
      invariant Built(shape, out, first, last) && Within(out, dom)
      invariant (nmerges == 0 <==> i == 0) && (nmerges == 1 ==> i == k2 || i == |s| <= k2) && (nmerges > 1 ==> k2 < |s|)
      invariant cmps + nmerges <= i
      decreases |s| - i
    {
      nmerges := nmerges + 1;
      p, first, last, out, n := MergePair(shape, cmp, head, p, k, first, last, s, i, out, dom);
      cmps := cmps + n;
      i := Min(i + 2 * k, |s|);
    }
    AfterPass(shape, cmp, s, i, k, out, first, last, dom);
    list, tail := first, last;
    Close(shape, list, tail, out);
  }

  /** m added up n times. */
  ghost function Repeated(m: nat, n: nat): nat {
    if n == 0 then 0 else m + Repeated(m, n - 1)
  }

  lemma RepeatedOnce(m: nat, n: nat)
    ensures Repeated(m, 0) == 0 && Repeated(m, n + 1) == m + Repeated(m, n)
  {
  }

  lemma {:induction false} RepeatedIsProduct(m: nat, n: nat)
    ensures Repeated(m, n) == n * m
  {
    if n > 0 {
      RepeatedIsProduct(m, n - 1);
    }
  }

  lemma SelfWithin<T>(s: seq<T>)
    ensures Within(s, set x | x in s)
  {
  }

  lemma SortStep<T>(cmp: (T, T) -> int, r: seq<T>, k: nat, dom: set<T>)
    requires k >= 1 && Within(r, dom)
    ensures |Pass(cmp, r, k)| == |r| && Within(Pass(cmp, r, k), dom)
    ensures if |r| <= 2 * k then SortFrom(cmp, r, k) == Pass(cmp, r, k) && Passes(|r|, k) == 1
            else SortFrom(cmp, r, k) == SortFrom(cmp, Pass(cmp, r, k), 2 * k) && Passes(|r|, k) == 1 + Passes(|r|, 2 * k)
  {
    PassPermutes(cmp, r, k);
    PermutedWithin(r, Pass(cmp, r, k), dom);
  }

  /** The whole sort, for a list that is not empty; the counters and the final run length are observations only. */
  method Sort<T>(shape: Shape, cmp: (Node<T>, Node<T>) -> int, head: Node<T>, ghost s: seq<Node<T>>)
    returns (list: Node<T>, tail: Node<T>, ghost r: seq<Node<T>>, ghost passes: nat, ghost cmps: nat, ghost insize: nat)
    requires |s| > 0 && head == s[0] && Linked(shape, s)
    modifies s`next, s`prev
    ensures r == SortFrom(cmp, s, 1) && Linked(shape, r) && list == r[0] && tail == r[|r| - 1]
    ensures passes == Passes(|s|, 1) && cmps <= passes * (|s| - 1) && insize <= 2 * |s|
  {
    hide *;
    var k, looping, nmerges := 1, true, 0;
    ghost var n, dom, m := 0, set x | x in s, |s| - 1;
    SelfWithin(s);
    RepeatedOnce(m, 0);
    list, tail, r, passes, cmps := head, head, s, 0, 0;
    while looping
      invariant k >= 1 && Linked(shape, r) && |r| == |s| && list == r[0] && Within(r, dom)
      invariant looping ==> SortFrom(cmp, r, k) == SortFrom(cmp, s, 1) && passes + Passes(|s|, k) == Passes(|s|, 1)
      invariant !looping ==> r == SortFrom(cmp, s, 1) && passes == Passes(|s|, 1) && tail == r[|r| - 1]
      invariant cmps <= Repeated(m, passes) && k <= 2 * |s| && (looping ==> k < |s| || k == 1)
      decreases looping, |s| - k
    {
      SortStep(cmp, r, k, dom);
      RepeatedOnce(m, passes);
      list, tail, nmerges, r, n := MergePass(shape, cmp, list, k, r, dom);
      passes, cmps := passes + 1, cmps + n;
      if nmerges <= 1 {
        looping := false;
      }
      k := k * 2;
    }
    insize := k;
    RepeatedIsProduct(m, passes);
  }
}
