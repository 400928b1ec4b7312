/** A walk that may delete the element it stands on, as in the FOREACH_SAFE and HASH_ITER loops. */
module Walk {
  import opened Seqs
  import opened Links

  /** What a deletion-safe walk leaves behind after its first i steps. */
  ghost function Swept<T>(drop: T -> bool, s: seq<T>, i: nat): seq<T>
    requires i <= |s|
  {
    Filter(Not(drop), s[..i]) + s[i..]
  }

  lemma SweptMembers<T>(drop: T -> bool, s: seq<T>, i: nat)
    requires i <= |s|
    ensures forall k :: 0 <= k < |Swept(drop, s, i)| ==> Swept(drop, s, i)[k] in s
  {
    var f := Filter(Not(drop), s[..i]);
    FilterMembers(Not(drop), s[..i]);
    forall k | 0 <= k < |Swept(drop, s, i)|
      ensures Swept(drop, s, i)[k] in s
    {
      if k < |f| {
        assert f[k] in f && f[k] in s[..i];
      }
    }
  }

  lemma SweptStep<T>(drop: T -> bool, s: seq<T>, i: nat)
    requires i < |s| && Distinct(s)
    ensures Swept(drop, s, i + 1) == if drop(s[i]) then Without(Swept(drop, s, i), s[i]) else Swept(drop, s, i)
  {
    var keep := Not(drop);
    var f, x, rest := Filter(keep, s[..i]), s[i], s[i + 1..];
    FilterMembers(keep, s[..i]);
    assert s[..i + 1] == s[..i] + [x];
    FilterConcat(keep, s[..i], [x]);
    assert Swept(drop, s, i) == f + [x] + rest by {
      assert s[i..] == [x] + rest;
    }
    if drop(x) {
      WithoutMiddle(f, x, rest);
    }
  }

  lemma SweptEnds<T>(drop: T -> bool, s: seq<T>)
    ensures Swept(drop, s, 0) == s && Swept(drop, s, |s|) == Filter(Not(drop), s)
  {
    assert s[..|s|] == s;
  }

  /** The walk's current element is in what is left, right before the element it visits next. */
  lemma SweptCurrent<T>(drop: T -> bool, s: seq<T>, i: nat)
    requires i < |s|
    ensures var w, k := Swept(drop, s, i), |Filter(Not(drop), s[..i])|;
            |w| == k + |s| - i && forall j :: i <= j < |s| ==> w[k + j - i] == s[j]
  {
  }

  /** In what is left, the walk's current element still points to the one it visits next. */
  lemma WalkOn<T>(shape: Shape, drop: Node<T> -> bool, s: seq<Node<T>>, i: nat)
    requires !shape.Circular? && i < |s| && Linked(shape, Swept(drop, s, i))
    ensures s[i] in Swept(drop, s, i) && s[i].next == At(s, i + 1)
  {
    SweptCurrent(drop, s, i);
  }
}
