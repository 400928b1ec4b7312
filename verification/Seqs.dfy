/** Facts about finite sequences that several modules share. */
module Seqs {

  ghost predicate Distinct<T>(s: seq<T>) {
    forall i, j :: 0 <= i < j < |s| ==> s[i] != s[j]
  }

  function Min(a: nat, b: nat): nat {
    if a <= b then a else b
  }

  /** The elements of s that satisfy f, in order. */
  function Filter<T>(f: T -> bool, s: seq<T>): (r: seq<T>)
    ensures |r| <= |s|
  {
    if |s| == 0 then []
    else if f(s[0]) then [s[0]] + Filter(f, s[1..])
    else Filter(f, s[1..])
  }

  function Not<T>(f: T -> bool): T -> bool {
    x => !f(x)
  }

  function Both<T>(f: T -> bool, g: T -> bool): T -> bool {
    x => f(x) && g(x)
  }

  ghost function OtherThan<T>(x: T): T -> bool {
    y => y != x
  }

  lemma {:induction false} FilterConcat<T>(f: T -> bool, a: seq<T>, b: seq<T>)
    ensures Filter(f, a + b) == Filter(f, a) + Filter(f, b)
  {
    if |a| == 0 {
      assert a + b == b;
    } else {
      assert (a + b)[1..] == a[1..] + b;
      FilterConcat(f, a[1..], b);
    }
  }

  lemma {:induction false} FilterMembers<T>(f: T -> bool, s: seq<T>)
    ensures forall x :: x in Filter(f, s) ==> x in s && f(x)
    ensures forall x :: x in s && f(x) ==> x in Filter(f, s)
  {
    if |s| > 0 {
      FilterMembers(f, s[1..]);
    }
  }

  /** Filtering keeps the order: what comes first in the result comes first in s. */
  lemma {:induction false} FilterInOrder<T>(f: T -> bool, s: seq<T>, i: nat, j: nat) returns (a: nat, b: nat)
    requires i < j < |Filter(f, s)|
    ensures a < b < |s| && s[a] == Filter(f, s)[i] && s[b] == Filter(f, s)[j]
  {
    if f(s[0]) {
      if i == 0 {
        FilterMembers(f, s[1..]);
        assert Filter(f, s)[j] == Filter(f, s[1..])[j - 1] && Filter(f, s[1..])[j - 1] in Filter(f, s[1..]);
        b :| 0 <= b < |s[1..]| && s[1..][b] == Filter(f, s)[j];
        a, b := 0, b + 1;
      } else {
        a, b := FilterInOrder(f, s[1..], i - 1, j - 1);
        a, b := a + 1, b + 1;
      }
    } else {
      a, b := FilterInOrder(f, s[1..], i, j);
      a, b := a + 1, b + 1;
    }
  }

  lemma {:induction false} FilterDistinct<T>(f: T -> bool, s: seq<T>)
    requires Distinct(s)
    ensures Distinct(Filter(f, s))
  {
    if |s| > 0 {
      FilterDistinct(f, s[1..]);
      FilterMembers(f, s[1..]);
    }
  }

  /** Filters that agree on the elements of s give the same result. */
  lemma {:induction false} FilterAgree<T>(f: T -> bool, g: T -> bool, s: seq<T>)
    requires forall x :: x in s ==> f(x) == g(x)
    ensures Filter(f, s) == Filter(g, s)
  {
    if |s| > 0 {
      FilterAgree(f, g, s[1..]);
    }
  }

  lemma {:induction false} FilterAll<T>(f: T -> bool, s: seq<T>)
    requires forall x :: x in s ==> f(x)
    ensures Filter(f, s) == s
  {
    if |s| > 0 {
      FilterAll(f, s[1..]);
    }
  }

  /** Filtering twice keeps what satisfies both conditions. */
  lemma {:induction false} FilterTwice<T>(f: T -> bool, g: T -> bool, s: seq<T>)
    ensures Filter(f, Filter(g, s)) == Filter(Both(f, g), s)
  {
    if |s| > 0 {
      FilterTwice(f, g, s[1..]);
      if g(s[0]) {
        FilterConcat(f, [s[0]], Filter(g, s[1..]));
      }
    }
  }

  /** s without any occurrence of x. */
  ghost function Without<T>(s: seq<T>, x: T): seq<T> {
    Filter(OtherThan(x), s)
  }

  lemma WithoutAbsent<T>(s: seq<T>, x: T)
    requires x !in s
    ensures Without(s, x) == s
  {
    FilterAll(OtherThan(x), s);
  }

  /** Removing x, which occurs once, closes the gap it leaves. */
  lemma WithoutMiddle<T>(a: seq<T>, x: T, b: seq<T>)
    requires x !in a && x !in b
    ensures Without(a + [x] + b, x) == a + b
  {
    WithoutAbsent(a, x);
    WithoutAbsent(b, x);
    FilterConcat(OtherThan(x), a + [x], b);
    FilterConcat(OtherThan(x), a, [x]);
  }

  lemma WithoutAt<T>(s: seq<T>, i: nat)
    requires i < |s| && Distinct(s)
    ensures Without(s, s[i]) == s[..i] + s[i + 1..]
  {
    assert s == s[..i] + [s[i]] + s[i + 1..];
    WithoutMiddle(s[..i], s[i], s[i + 1..]);
  }

  lemma WithoutMembers<T>(s: seq<T>, x: T)
    ensures forall y :: y in Without(s, x) ==> y in s && y != x
    ensures forall y :: y in s && y != x ==> y in Without(s, x)
  {
    FilterMembers(OtherThan(x), s);
  }

  lemma WithoutDistinct<T>(s: seq<T>, x: T)
    requires Distinct(s)
    ensures Distinct(Without(s, x))
  {
    FilterDistinct(OtherThan(x), s);
  }

  lemma WithoutOnce<T>(s: seq<T>, x: T)
    requires Distinct(s) && x in s
    ensures |Without(s, x)| == |s| - 1
  {
    var i :| 0 <= i < |s| && s[i] == x;
    WithoutAt(s, i);
  }

  lemma {:induction false} FilterOnly<T>(s: seq<T>, x: T)
    requires Distinct(s) && x in s
    ensures Filter(Not(OtherThan(x)), s) == [x]
  {
    if s[0] == x {
      forall y | y in s[1..]
        ensures !Not(OtherThan(x))(y)
      {
      }
      NoneKept(Not(OtherThan(x)), s[1..]);
    } else {
      FilterOnly(s[1..], x);
    }
  }

  lemma {:induction false} NoneKept<T>(f: T -> bool, s: seq<T>)
    requires forall y :: y in s ==> !f(y)
    ensures Filter(f, s) == []
  {
    if |s| > 0 {
      NoneKept(f, s[1..]);
    }
  }
}
