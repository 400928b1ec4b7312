/** The list macros of utlist.h: LL_ (singly linked), DL_ (doubly linked) and CDL_ (circular). */
module UtList {
  import opened Seqs
  import opened Links
  import opened StableMerge
  import opened Walk
  import ListSort

  lemma NextInList<T>(s: seq<Node<T>>)
    requires Linked(Single, s)
    ensures forall i {:trigger s[i].next} :: 0 <= i < |s| ==> s[i].next == At(s, i + 1)
  {
  }

  /** The element before s[i], if any, took over its next: what remains is a list. */
  lemma UnlinkedSingle<T>(s: seq<Node<T>>, i: nat)
    requires i < |s| && Distinct(s)
    requires forall j {:trigger s[j].next} :: 0 <= j < |s| ==> s[j].next == if j + 1 == i then At(s, i + 1) else At(s, j + 1)
    ensures var w := Without(s, s[i]); Linked(Single, w) && At(w, 0) == if i == 0 then At(s, 1) else s[0]
  {
    WithoutAt(s, i);
    var w := s[..i] + s[i + 1..];
    forall j | 0 <= j < |w|
      ensures w[j].next == NextOf(Single, w, j)
    {
      assert w[j] == if j < i then s[j] else s[j + 1];
    }
    assert Distinct(w);
  }

  /** x = s[i] was put before s although it is in s: its next leads back to the front. */
  ghost predicate Looped<T>(s: seq<Node<T>>, i: nat)
    reads s`next
  {
    && i < |s| && s[i].next == s[0]
    && forall j {:trigger s[j].next} :: 0 <= j < |s| && j != i ==> s[j].next == At(s, j + 1)
  }

  /** Following next from s[i] in such a ring visits s from the front. */
  lemma {:induction false} RoundTheLoop<T>(s: seq<Node<T>>, i: nat, r: seq<Node<T>>, k: nat)
    requires Looped(s, i) && Linked(Single, r) && |r| > 0 && r[0] == s[i] && k <= i
    ensures k + 1 < |r| && r[k + 1] == s[k]
  {
    if k == 0 {
      assert r[0].next == At(r, 1);
    } else {
      RoundTheLoop(s, i, r, k - 1);
      assert r[k].next == At(r, k + 1);
    }
  }

  /** Nothing that starts there is a list. */
  lemma LoopIsNoList<T>(s: seq<Node<T>>, i: nat, r: seq<Node<T>>)
    requires Looped(s, i) && |r| > 0 && r[0] == s[i]
    ensures !Linked(Single, r)
  {
    if Linked(Single, r) {
      RoundTheLoop(s, i, r, i);
    }
  }

  /** After x has been linked before s. */
  lemma Prepended<T>(s: seq<Node<T>>, x: Node<T>)
    requires Distinct(s) && x.next == At(s, 0)
    requires forall j {:trigger s[j].next} :: 0 <= j < |s| && s[j] != x ==> s[j].next == At(s, j + 1)
    ensures Linked(Single, [x] + s) <==> x !in s
    ensures (exists r: seq<Node<T>> :: Linked(Single, r) && At(r, 0) == x) <==> x !in s
  {
    var t := [x] + s;
    assert At(t, 0) == x && t[0] == x;
    if x in s {
      var i :| 0 <= i < |s| && s[i] == x;
      assert t[i + 1] == x;
      forall r: seq<Node<T>> | At(r, 0) == x
        ensures !Linked(Single, r)
      {
        LoopIsNoList(s, i, r);
      }
    } else {
      assert forall j :: 0 <= j < |t| ==> t[j] == if j == 0 then x else s[j - 1];
      assert Linked(Single, t);
    }
  }

  class SinglyLinked<T> {
    var head: Node?<T>
    ghost var nodes: seq<Node<T>>

    ghost predicate Valid()
      reads this, nodes
    {
      head == At(nodes, 0) && Linked(Single, nodes)
    }

    constructor ()
      ensures Valid() && nodes == []
    {
      head, nodes := null, [];
    }

    /** A list starts at the new head exactly if the element was not in the list. */
    method Prepend(add: Node<T>)
      requires Valid()
      modifies this, add`next
      ensures nodes == [add] + old(nodes) && (Valid() <==> add !in old(nodes))
      ensures (exists r: seq<Node<T>> :: Linked(Single, r) && At(r, 0) == head) <==> add !in old(nodes)
    {
      hide Linked;
      ghost var s := nodes;
      NextInList(s);
      LinkedDistinct(Single, s);
      add.next := head;
      head := add;
      nodes := [add] + s;
      Prepended(s, add);
    }

    method Append(add: Node<T>)
      requires Valid() && add !in nodes
      modifies this, nodes`next, add`next
      ensures Valid() && nodes == old(nodes) + [add]
    {
      add.next := null;
      if head != null {
        var tmp, i := head, 0;
        while tmp.next != null
          invariant i < |nodes| && tmp == nodes[i]
          decreases |nodes| - i
        {
          tmp, i := tmp.next, i + 1;
        }
        tmp.next := add;
      } else {
        head := add;
      }
      nodes := nodes + [add];
    }

    /** Deleting an absent element changes nothing; the removed element's own next is never written. */
    method Delete(del: Node<T>)
      requires Valid() && nodes != []
      modifies this, nodes`next
      ensures Valid() && nodes == Without(old(nodes), del) && del.next == old(del.next)
    {
      hide Without, Linked, Distinct;
      ghost var s, i := nodes, 0;
      NextInList(s);
      LinkedDistinct(Single, s);
      if head == del {
        head := head.next;
      } else {
        var tmp := head;
        while tmp.next != null && tmp.next != del
          invariant i < |s| && tmp == s[i]
          invariant forall j :: 0 <= j <= i ==> s[j] != del
          decreases |s| - i
        {
          tmp, i := tmp.next, i + 1;
        }
        if tmp.next != null {
          tmp.next := del.next;
        }
        i := i + 1;
      }
      if i < |s| {
        UnlinkedSingle(s, i);
        nodes := Without(s, del);
      } else {
        WithoutAbsent(s, del);
      }
    }

    /** The form that uses add.next as its cursor. */
    method AppendVs2008(add: Node<T>)
      requires Valid() && add !in nodes
      modifies this, nodes`next, add`next
      ensures Valid() && nodes == old(nodes) + [add]
    {
      assert forall j :: 0 <= j < |nodes| ==> nodes[j] != add;
      if head != null {
        add.next := head;
        ghost var i := 0;
        while add.next.next != null
          invariant nodes == old(nodes) && i < |nodes| && add.next == nodes[i] && head == nodes[0]
          invariant Linked(Single, nodes)
          decreases |nodes| - i
        {
          add.next := add.next.next;
          i := i + 1;
        }
        add.next.next := add;
      } else {
        head := add;
      }
      add.next := null;
      nodes := nodes + [add];
    }

    /** The form that uses the list head as its cursor and restores it. */
    method DeleteVs2008(del: Node<T>)
      requires Valid() && nodes != []
      modifies this, nodes`next
      ensures Valid() && nodes == Without(old(nodes), del) && del.next == old(del.next)
    {
      hide Without, Linked, Distinct;
      ghost var s, i := nodes, 0;
      NextInList(s);
      LinkedDistinct(Single, s);
      if head == del {
        head := head.next;
      } else {
        var tmp := head;
        while head.next != null && head.next != del
          invariant nodes == s && Linked(Single, s) && i < |s| && head == s[i]
          invariant forall j :: 0 <= j <= i ==> s[j] != del
          decreases |s| - i
        {
          NextInList(s);
          head := head.next;
          i := i + 1;
        }
        NextInList(s);
        if head.next != null {
          head.next := del.next;
        }
        i := i + 1;
        head := tmp;
      }
      if i < |s| {
        UnlinkedSingle(s, i);
        nodes := Without(s, del);
      } else {
        WithoutAbsent(s, del);
      }
    }

    /** LL_SEARCH: the first element that matches. */
    method Search(matches: Node<T> -> bool) returns (out: Node?<T>)
      requires Valid()
      ensures out == null ==> forall x :: x in nodes ==> !matches(x)
      ensures out != null ==> exists i :: 0 <= i < |nodes| && nodes[i] == out && matches(out)
                                          && forall j :: 0 <= j < i ==> !matches(nodes[j])
    {
      out := head;
      ghost var i := 0;
      while out != null
        invariant i <= |nodes| && out == At(nodes, i)
        invariant forall j :: 0 <= j < i ==> !matches(nodes[j])
        decreases |nodes| - i
      {
        if matches(out) {
          break;
        }
        out, i := out.next, i + 1;
      }
    }

    /** LL_FOREACH_SAFE with a body that deletes the elements it chooses. */
    method ForeachSafe(drop: Node<T> -> bool) returns (ghost visited: seq<Node<T>>)
      requires Valid()
      modifies this, nodes`next
      ensures Valid() && visited == old(nodes) && nodes == Filter(Not(drop), old(nodes))
    {
      hide Swept, Without, Filter, Linked, Distinct;
      ghost var s, i := nodes, 0;
      LinkedDistinct(Single, s);
      visited := [];
      var el := head;
      SweptEnds(drop, s);
      while el != null
        invariant Valid() && i <= |s| && el == At(s, i) && visited == s[..i] && nodes == Swept(drop, s, i)
        decreases |s| - i
      {
        SweptMembers(drop, s, i);
        WalkOn(Single, drop, s, i);
        SweptStep(drop, s, i);
        var tmp := el.next;
        visited := visited + [el];
        if drop(el) {
          Delete(el);
        }
        el, i := tmp, i + 1;
      }
      assert s[..i] == s;
    }

    method Sort(cmp: (Node<T>, Node<T>) -> int)
      requires Valid()
      modifies this, nodes`next, nodes`prev
      ensures Valid() && nodes == SortFrom(cmp, old(nodes), 1)
    {
      if head != null {
        ghost var r, passes, cmps, insize;
        var tail;
        head, tail, r, passes, cmps, insize := ListSort.Sort(Single, cmp, head, nodes);
        nodes := r;
      }
    }
  }

  /** s without s[i], when every other element has its neighbours in what remains. */
  lemma Relinked<T>(shape: Shape, s: seq<Node<T>>, i: nat)
    requires i < |s| && Distinct(s) && !shape.Single?
    requires var w := s[..i] + s[i + 1..];
             forall j :: 0 <= j < |w| ==> w[j].next == NextOf(shape, w, j) && w[j].prev == PrevOf(shape, w, j)
    ensures Linked(shape, Without(s, s[i])) && Without(s, s[i]) == s[..i] + s[i + 1..]
  {
    WithoutAt(s, i);
    var w := s[..i] + s[i + 1..];
    assert Distinct(w);
  }

  /** Both neighbours of s[i] in the ring now skip it: the rest is a ring. */
  lemma UnlinkedRing<T>(s: seq<Node<T>>, i: nat)
    requires i < |s| && |s| > 1 && Distinct(s)
    requires forall j {:trigger s[j].next} :: 0 <= j < |s| && j != i ==>
               s[j].next == if NextOf(Shape.Circular, s, j) == s[i] then NextOf(Shape.Circular, s, i)
                            else NextOf(Shape.Circular, s, j)
    requires forall j {:trigger s[j].prev} :: 0 <= j < |s| && j != i ==>
               s[j].prev == if PrevOf(Shape.Circular, s, j) == s[i] then PrevOf(Shape.Circular, s, i)
                            else PrevOf(Shape.Circular, s, j)
    ensures Linked(Shape.Circular, Without(s, s[i])) && Without(s, s[i]) == s[..i] + s[i + 1..]
  {
    hide Without;
    var w := s[..i] + s[i + 1..];
    forall j | 0 <= j < |w|
      ensures w[j].next == NextOf(Shape.Circular, w, j) && w[j].prev == PrevOf(Shape.Circular, w, j)
    {
      var k := if j < i then j else j + 1;
      assert w[j] == s[k];
    }
    Relinked(Shape.Circular, s, i);
  }

  lemma LastFromHead<T>(s: seq<Node<T>>)
    requires Linked(Shape.Circular, s)
    ensures |s| > 0 ==> s[0].prev == s[|s| - 1]
  {
  }

  /** In a ring, the walk's current element points to the one it visits next, unless it is the last,
      and it is the last exactly if it is the one noted before the walk. */
  lemma WalkOnRing<T>(drop: Node<T> -> bool, s: seq<Node<T>>, i: nat)
    requires i < |s| && Distinct(s) && Linked(Shape.Circular, Swept(drop, s, i))
    ensures s[i] in Swept(drop, s, i) && (s[i] == Last(s) <==> i == |s| - 1)
    ensures i < |s| - 1 ==> s[i].next == s[i + 1]
  {
    SweptCurrent(drop, s, i);
  }

  class DoublyLinked<T> {
    var head: Node?<T>
    ghost var nodes: seq<Node<T>>

    ghost predicate Valid()
      reads this, nodes
    {
      head == At(nodes, 0) && Linked(Double, nodes)
    }

    constructor ()
      ensures Valid() && nodes == []
    {
      head, nodes := null, [];
    }

    method Prepend(add: Node<T>)
      requires Valid() && add !in nodes
      modifies this, nodes`prev, add`next, add`prev
      ensures Valid() && nodes == [add] + old(nodes)
    {
      add.next := head;
      if head != null {
        add.prev := head.prev;
        head.prev := add;
      } else {
        add.prev := add;
      }
      head := add;
      nodes := [add] + nodes;
    }

    method Append(add: Node<T>)
      requires Valid() && add !in nodes
      modifies this, nodes`next, nodes`prev, add`next, add`prev
      ensures Valid() && nodes == old(nodes) + [add]
    {
      if head != null {
        add.prev := head.prev;
        head.prev.next := add;
        head.prev := add;
        add.next := null;
      } else {
        head := add;
        head.prev := head;
        head.next := null;
      }
      nodes := nodes + [add];
    }

    method Delete(del: Node<T>)
      requires Valid() && del in nodes
      modifies this, nodes`next, nodes`prev
      ensures Valid() && nodes == Without(old(nodes), del) && del.next == old(del.next)
    {
      hide Without, Filter;
      ghost var i :| 0 <= i < |nodes| && nodes[i] == del;
      if del.prev == del {
        head := null;
      } else if del == head {
        del.next.prev := del.prev;
        head := del.next;
      } else {
        del.prev.next := del.next;
        if del.next != null {
          del.next.prev := del.prev;
        } else {
          head.prev := del.prev;
        }
      }
      Relinked(Double, nodes, i);
      nodes := nodes[..i] + nodes[i + 1..];
    }

    /** DL_FOREACH_SAFE with a body that deletes the elements it chooses. */
    method ForeachSafe(drop: Node<T> -> bool) returns (ghost visited: seq<Node<T>>)
      requires Valid()
      modifies this, nodes`next, nodes`prev
      ensures Valid() && visited == old(nodes) && nodes == Filter(Not(drop), old(nodes))
    {
      hide Swept, Without, Filter, Linked, Distinct;
      ghost var s, i := nodes, 0;
      LinkedDistinct(Double, s);
      SweptEnds(drop, s);
      visited := [];
      var el := head;
      while el != null
        invariant Valid() && i <= |s| && el == At(s, i) && visited == s[..i] && nodes == Swept(drop, s, i)
        decreases |s| - i
      {
        SweptMembers(drop, s, i);
        WalkOn(Double, drop, s, i);
        SweptStep(drop, s, i);
        var tmp := el.next;
        visited := visited + [el];
        if drop(el) {
          Delete(el);
        }
        el, i := tmp, i + 1;
      }
    }

    method Sort(cmp: (Node<T>, Node<T>) -> int)
      requires Valid()
      modifies this, nodes`next, nodes`prev
      ensures Valid() && nodes == SortFrom(cmp, old(nodes), 1)
    {
      if head != null {
        ghost var r, passes, cmps, insize;
        var tail;
        head, tail, r, passes, cmps, insize := ListSort.Sort(Double, cmp, head, nodes);
        nodes := r;
      }
    }
  }

  class Circular<T> {
    var head: Node?<T>
    ghost var nodes: seq<Node<T>>

    ghost predicate Valid()
      reads this, nodes
    {
      head == At(nodes, 0) && Linked(Shape.Circular, nodes)
    }

    constructor ()
      ensures Valid() && nodes == []
    {
      head, nodes := null, [];
    }

    method Prepend(add: Node<T>)
      requires Valid() && add !in nodes
      modifies this, nodes`next, nodes`prev, add`next, add`prev
      ensures Valid() && nodes == [add] + old(nodes)
    {
      if head != null {
        add.prev := head.prev;
        add.next := head;
        head.prev := add;
        add.prev.next := add;
      } else {
        add.prev := add;
        add.next := add;
      }
      head := add;
      nodes := [add] + nodes;
    }

    method Delete(del: Node<T>)
      requires Valid() && del in nodes
      modifies this, nodes`next, nodes`prev
      ensures Valid() && nodes == Without(old(nodes), del)
    {
      hide Without, Filter;
      ghost var i :| 0 <= i < |nodes| && nodes[i] == del;
      if head == del && head.next == head {
        head := null;
      } else {
        del.next.prev := del.prev;
        del.prev.next := del.next;
        if del == head {
          head := del.next;
        }
      }
      if |nodes| == 1 {
        WithoutAt(nodes, 0);
      } else {
        UnlinkedRing(nodes, i);
      }
      nodes := nodes[..i] + nodes[i + 1..];
    }

    /** CDL_FOREACH_SAFE: the last element is fixed before the walk, which may delete any element, the last included. */
    method ForeachSafe(drop: Node<T> -> bool) returns (ghost visited: seq<Node<T>>)
      requires Valid()
      modifies this, nodes`next, nodes`prev
      ensures Valid() && visited == old(nodes) && nodes == Filter(Not(drop), old(nodes))
    {
      hide Swept, Without, Filter, Linked, Distinct;
      ghost var s, i := nodes, 0;
      LinkedDistinct(Shape.Circular, s);
      SweptEnds(drop, s);
      LastFromHead(s);
      visited := [];
      var el := head;
      var tmp1 := if head != null then head.prev else null;
      while el != null
        invariant Valid() && i <= |s| && el == At(s, i) && tmp1 == Last(s)
        invariant visited == s[..i] && nodes == Swept(drop, s, i)
        decreases |s| - i
      {
        SweptMembers(drop, s, i);
        WalkOnRing(drop, s, i);
        SweptStep(drop, s, i);
        var tmp2 := el.next;
        visited := visited + [el];
        if drop(el) {
          Delete(el);
        }
        el, i := if el == tmp1 then null else tmp2, i + 1;
      }
    }

    method Sort(cmp: (Node<T>, Node<T>) -> int)
      requires Valid()
      modifies this, nodes`next, nodes`prev
      ensures Valid() && nodes == SortFrom(cmp, old(nodes), 1)
    {
      if head != null {
        ghost var r, passes, cmps, insize;
        var tail;
        head, tail, r, passes, cmps, insize := ListSort.Sort(Shape.Circular, cmp, head, nodes);
        nodes := r;
      }
    }
  }
}
