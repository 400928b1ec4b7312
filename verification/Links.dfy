/** List elements and the four ways utlist.h and uthash.h link them. */
module Links {
  import opened Seqs

  /** The link fields an element embeds, and its payload, which no list operation touches.
      next and prev serve every list; hhNext, hhPrev and hashv belong to the hash handle. */
  class Node<T> {
    const data: T
    var next: Node?<T>
    var prev: Node?<T>
    var hhNext: Node?<T>
    var hhPrev: Node?<T>
    var hashv: nat

    constructor (data: T)
      ensures this.data == data
    {
      this.data := data;
      next, prev, hhNext, hhPrev, hashv := null, null, null, null, 0;
    }
  }

  /** LL_ lists, DL_ lists, CDL_ lists, and the application order of a hash. */
  datatype Shape = Single | Double | Circular | AppOrder

  ghost function At<T>(s: seq<Node<T>>, i: int): Node?<T> {
    if 0 <= i < |s| then s[i] else null
  }

  ghost function Last<T>(s: seq<Node<T>>): Node?<T> {
    At(s, |s| - 1)
  }

  ghost function NextOf<T>(shape: Shape, s: seq<Node<T>>, i: nat): Node?<T>
    requires i < |s|
  {
    if i + 1 == |s| && shape.Circular? then s[0] else At(s, i + 1)
  }

  ghost function PrevOf<T>(shape: Shape, s: seq<Node<T>>, i: nat): Node?<T>
    requires i < |s|
  {
    if i == 0 && !shape.AppOrder? then s[|s| - 1] else At(s, i - 1)
  }

  /** The elements of s, in this order, form a well-shaped list. A singly linked list has no prev. */
  ghost predicate Linked<T>(shape: Shape, s: seq<Node<T>>)
    reads s`next, s`prev
  {
    && Distinct(s)
    && (forall i {:trigger s[i].next} :: 0 <= i < |s| ==> s[i].next == NextOf(shape, s, i))
    && (!shape.Single? ==> forall i {:trigger s[i].prev} :: 0 <= i < |s| ==> s[i].prev == PrevOf(shape, s, i))
  }

  lemma LinkedDistinct<T>(shape: Shape, s: seq<Node<T>>)
    requires Linked(shape, s)
    ensures Distinct(s)
  {
  }

  /** The shapes, spelled out. next runs through the elements in order; it ends with null, or at the head in a ring. prev
      runs back; the head's is the last element in a doubly linked list or a ring, and null in the order of a hash. */
  lemma ShapeIs<T>(shape: Shape, s: seq<Node<T>>)
    requires Linked(shape, s)
    ensures forall i, j :: 0 <= i < j < |s| ==> s[i] != s[j]
    ensures forall i :: 0 <= i < |s| - 1 ==> s[i].next == s[i + 1]
    ensures |s| > 0 ==> s[|s| - 1].next == if shape == Circular then s[0] else null
    ensures shape != Single ==> forall i :: 0 < i < |s| ==> s[i].prev == s[i - 1]
    ensures |s| > 0 && (shape == Double || shape == Circular) ==> s[0].prev == s[|s| - 1]
    ensures |s| > 0 && shape == AppOrder ==> s[0].prev == null
  {
  }
}
