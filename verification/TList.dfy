/** The Contiki-style list of t_list.h over the LL_ macros, used as a set with order, a stack and a queue. */
module TList {
  import opened Seqs
  import opened Links
  import opened UtList

  datatype Operation<T> = Add(item: T) | Push(item: T) | Pop | Remove(item: T)

  /** What an operation makes of the listed items. */
  ghost function After<T>(s: seq<T>, op: Operation<T>): seq<T> {
    match op
    case Add(x) => Without(s, x) + [x]
    case Push(x) => [x] + s
    case Pop => if |s| == 0 then s else s[1..]
    case Remove(x) => Without(s, x)
  }

  /** Everything but list_push of an item that is already listed, which leaves no list (see Apply). */
  ghost predicate Allowed<T>(s: seq<T>, op: Operation<T>) {
    op.Push? ==> op.item !in s
  }

  ghost function AfterAll<T>(s: seq<T>, ops: seq<Operation<T>>): seq<T>
    decreases |ops|
  {
    if |ops| == 0 then s else AfterAll(After(s, ops[0]), ops[1..])
  }

  ghost predicate AllAllowed<T>(s: seq<T>, ops: seq<Operation<T>>)
    decreases |ops|
  {
    |ops| > 0 ==> Allowed(s, ops[0]) && AllAllowed(After(s, ops[0]), ops[1..])
  }

  lemma AppendDistinct<T>(s: seq<T>, x: T)
    requires Distinct(s) && x !in s
    ensures Distinct(s + [x])
  {
  }

  /** An operation lists an item twice exactly if it is not allowed. */
  lemma StepDistinct<T>(s: seq<T>, op: Operation<T>)
    requires Distinct(s)
    ensures Distinct(After(s, op)) <==> Allowed(s, op)
  {
    if op.Add? || op.Remove? {
      WithoutDistinct(s, op.item);
      WithoutMembers(s, op.item);
      AppendDistinct(Without(s, op.item), op.item);
    } else if op.Push? && op.item in s {
      var i :| 0 <= i < |s| && s[i] == op.item;
      assert After(s, op)[0] == After(s, op)[i + 1];
    }
  }

  /** No item is listed twice at any point of a run exactly if every operation is allowed where it stands. */
  lemma {:induction false} NoDuplicates<T>(s: seq<T>, ops: seq<Operation<T>>)
    requires Distinct(s)
    ensures AllAllowed(s, ops) <==> forall i :: 0 <= i <= |ops| ==> Distinct(AfterAll(s, ops[..i]))
    decreases |ops|
  {
    hide Distinct, Allowed, After;
    if |ops| > 0 {
      var t, rest := After(s, ops[0]), ops[1..];
      forall i | 1 <= i <= |ops|
        ensures AfterAll(s, ops[..i]) == AfterAll(t, rest[..i - 1])
      {
        assert ops[..i][0] == ops[0] && ops[..i][1..] == rest[..i - 1];
      }
      StepDistinct(s, ops[0]);
      assert AfterAll(t, rest[..0]) == t && AfterAll(s, ops[..0]) == s;
      if Allowed(s, ops[0]) {
        NoDuplicates(t, rest);
        assert forall i :: 0 <= i <= |rest| ==> AfterAll(t, rest[..i]) == AfterAll(s, ops[..i + 1]);
      } else {
        assert AfterAll(s, ops[..1]) == t;
      }
    } else {
      assert ops[..0] == ops;
    }
  }

  /** list_pop undoes list_push. */
  lemma PopUndoesPush<T>(s: seq<T>, x: T)
    ensures AfterAll(s, [Push(x), Pop]) == s
  {
    var ops: seq<Operation<T>> := [Push(x), Pop];
    assert ops[1..] == [Pop] && ops[1..][1..] == [];
    assert ([x] + s)[1..] == s;
    assert After(After(s, Push(x)), Pop) == s;
    assert AfterAll(s, ops) == AfterAll([x] + s, ops[1..]) == AfterAll(s, ops[1..][1..]);
  }

  /** The items popped by a run, in order. */
  ghost function Popped<T>(s: seq<T>, ops: seq<Operation<T>>): seq<T>
    decreases |ops|
  {
    if |ops| == 0 then []
    else (if ops[0].Pop? && |s| > 0 then [s[0]] else []) + Popped(After(s, ops[0]), ops[1..])
  }

  ghost function Added<T>(ops: seq<Operation<T>>): seq<T> {
    if |ops| == 0 then [] else (if ops[0].Add? then [ops[0].item] else []) + Added(ops[1..])
  }

  /** Only list_add of items that are not listed at that moment, and list_pop. */
  ghost predicate QueueUse<T>(s: seq<T>, ops: seq<Operation<T>>)
    decreases |ops|
  {
    |ops| > 0 ==>
      && (ops[0].Pop? || (ops[0].Add? && ops[0].item !in s))
      && QueueUse(After(s, ops[0]), ops[1..])
  }

  /** First in, first out: what was popped, followed by what is left, is what was there and then added. */
  lemma {:induction false} Fifo<T>(s: seq<T>, ops: seq<Operation<T>>)
    requires QueueUse(s, ops)
    ensures Popped(s, ops) + AfterAll(s, ops) == s + Added(ops)
    decreases |ops|
  {
    if |ops| > 0 {
      var t, rest := After(s, ops[0]), ops[1..];
      var p, a, left := Popped(t, rest), Added(rest), AfterAll(t, rest);
      Fifo(t, rest);
      assert AfterAll(s, ops) == left;
      if ops[0].Add? {
        WithoutAbsent(s, ops[0].item);
        assert Popped(s, ops) == [] + p && Added(ops) == [ops[0].item] + a;
        hide *;
        Regroup(s, [ops[0].item], a);
      } else if |s| > 0 {
        assert Popped(s, ops) == [s[0]] + p && Added(ops) == [] + a;
        hide *;
        Regroup([s[0]], p, left);
        Regroup([s[0]], t, a);
      }
    }
  }

  lemma Regroup<T>(a: seq<T>, b: seq<T>, c: seq<T>)
    ensures (a + b) + c == a + (b + c)
  {
  }

  /** What the operations do, spelled out: removing takes the item and nothing else away, wherever it is, and the others
      keep their places; adding puts it at the end after that; push and pop work at the front. */
  lemma AfterIs<T>(s: seq<T>, op: Operation<T>, i: nat)
    requires Distinct(s) && i < |s|
    ensures op == Remove(s[i]) ==> After(s, op) == s[..i] + s[i + 1..]
    ensures op == Add(s[i]) ==> After(s, op) == s[..i] + s[i + 1..] + [s[i]]
    ensures op.Remove? && op.item !in s ==> After(s, op) == s
    ensures op.Add? && op.item !in s ==> After(s, op) == s + [op.item]
    ensures op.Push? ==> After(s, op) == [op.item] + s
    ensures op.Pop? ==> After(s, op) == s[1..]
  {
    WithoutAt(s, i);
    if (op.Remove? || op.Add?) && op.item !in s {
      WithoutAbsent(s, op.item);
    }
  }

  lemma AfterOnEmpty<T>(op: Operation<T>)
    ensures After([], op) == if op.Add? || op.Push? then [op.item] else []
  {
  }

  method ListRemove<T>(list: SinglyLinked<T>, item: Node<T>)
    requires list.Valid()
    modifies list, list.nodes`next
    ensures list.Valid() && list.nodes == Without(old(list.nodes), item)
  {
    if list.head != null {
      list.Delete(item);
    } else {
      WithoutAbsent(list.nodes, item);
    }
  }

  method ListAdd<T>(list: SinglyLinked<T>, item: Node<T>)
    requires list.Valid()
    modifies list, list.nodes`next, item`next
    ensures list.Valid() && list.nodes == Without(old(list.nodes), item) + [item]
  {
    ghost var s := list.nodes;
    WithoutMembers(s, item);
    WithoutInside(s, item);
    ListRemove(list, item);
    list.Append(item);
  }

  lemma WithoutInside<T>(s: seq<T>, x: T)
    ensures forall k :: 0 <= k < |Without(s, x)| ==> Without(s, x)[k] in s
  {
    WithoutMembers(s, x);
    forall k | 0 <= k < |Without(s, x)|
      ensures Without(s, x)[k] in s
    {
      assert Without(s, x)[k] in Without(s, x);
    }
  }

  method ListPush<T>(list: SinglyLinked<T>, item: Node<T>)
    requires list.Valid()
    modifies list, item`next
    ensures list.nodes == [item] + old(list.nodes) && (list.Valid() <==> item !in old(list.nodes))
    ensures (exists r: seq<Node<T>> :: Linked(Single, r) && At(r, 0) == list.head) <==> item !in old(list.nodes)
  {
    list.Prepend(item);
  }

  method ListPop<T>(list: SinglyLinked<T>) returns (l: Node?<T>)
    requires list.Valid()
    modifies list, list.nodes`next
    ensures list.Valid() && l == At(old(list.nodes), 0)
    ensures list.nodes == if l == null then [] else old(list.nodes)[1..]
  {
    l := list.head;
    if l != null {
      ghost var s := list.nodes;
      WithoutAt(s, 0);
      ListRemove(list, l);
      assert s[..0] + s[1..] == s[1..];
    }
  }

  /** list_insert: after previtem, or at the front when there is none. */
  method ListInsert<T>(list: SinglyLinked<T>, previtem: Node?<T>, newitem: Node<T>, ghost i: nat)
    requires list.Valid() && newitem !in list.nodes && i <= |list.nodes| && previtem == At(list.nodes, i - 1)
    modifies list, list.nodes`next, newitem`next
    ensures list.Valid() && list.nodes == old(list.nodes)[..i] + [newitem] + old(list.nodes)[i..]
  {
    if previtem == null {
      ListPush(list, newitem);
    } else {
      newitem.next := previtem.next;
      previtem.next := newitem;
      list.nodes := list.nodes[..i] + [newitem] + list.nodes[i..];
    }
  }

  /** Any operation does to the linked list what After says, and what starts at the head is a list afterwards exactly
      if the operation was allowed. */
  method Apply<T>(list: SinglyLinked<T>, op: Operation<Node<T>>) returns (popped: Node?<T>)
    requires list.Valid()
    modifies list, list.nodes`next, (if op.Add? || op.Push? then {op.item} else {})`next
    ensures list.nodes == After(old(list.nodes), op) && (list.Valid() <==> Allowed(old(list.nodes), op))
    ensures (exists r: seq<Node<T>> :: Linked(Single, r) && At(r, 0) == list.head) <==> Allowed(old(list.nodes), op)
    ensures popped == if op.Pop? then At(old(list.nodes), 0) else null
  {
    popped := null;
    match op
    case Add(x) => ListAdd(list, x);
    case Push(x) => ListPush(list, x);
    case Pop => popped := ListPop(list);
    case Remove(x) => ListRemove(list, x);
    assert list.Valid() ==> Linked(Single, list.nodes) && At(list.nodes, 0) == list.head;
  }

  /** What an operation brings to the list is one of these nodes. */
  ghost predicate BringsFrom<T>(op: Operation<Node<T>>, dom: set<Node<T>>) {
    op.Add? || op.Push? ==> op.item in dom
  }

  /** A run of allowed operations on the linked list: the items it pops, in order, and the list it leaves. If it only
      adds items that are not listed and pops, it is a queue. */
  method Perform<T>(list: SinglyLinked<T>, ops: seq<Operation<Node<T>>>, ghost dom: set<Node<T>>)
    returns (popped: seq<Node<T>>)
    requires list.Valid() && AllAllowed(list.nodes, ops)
    requires (forall k :: 0 <= k < |list.nodes| ==> list.nodes[k] in dom)
    requires forall i :: 0 <= i < |ops| ==> BringsFrom(ops[i], dom)
    modifies list, dom`next
    ensures list.Valid() && list.nodes == AfterAll(old(list.nodes), ops) && popped == Popped(old(list.nodes), ops)
    ensures QueueUse(old(list.nodes), ops) ==> popped + list.nodes == old(list.nodes) + Added(ops)
  {
    hide After, Allowed, AfterAll, Popped, AllAllowed, QueueUse, Added, Linked;
    popped := [];
    ghost var s := list.nodes;
    assert ops[0..] == ops;
    for i := 0 to |ops|
      invariant list.Valid() && AllAllowed(list.nodes, ops[i..])
      invariant AfterAll(list.nodes, ops[i..]) == AfterAll(s, ops)
      invariant popped + Popped(list.nodes, ops[i..]) == Popped(s, ops)
      invariant forall k :: 0 <= k < |list.nodes| ==> list.nodes[k] in dom
    {
      ghost var t := list.nodes;
      RunOn(t, ops, i);
      BroughtOnly(t, ops[i], dom);
      var l := Apply(list, ops[i]);
      if l != null {
        popped := popped + [l];
      }
    }
    NothingLeft(list.nodes, ops);
    if QueueUse(s, ops) {
      Fifo(s, ops);
    }
  }

  lemma NothingLeft<T>(s: seq<T>, ops: seq<Operation<T>>)
    ensures AfterAll(s, ops[|ops|..]) == s && Popped(s, ops[|ops|..]) == []
  {
  }

  /** The first operation of what is left of a run. */
  lemma RunOn<T>(s: seq<T>, ops: seq<Operation<T>>, i: nat)
    requires i < |ops| && AllAllowed(s, ops[i..])
    ensures Allowed(s, ops[i]) && AllAllowed(After(s, ops[i]), ops[i + 1..])
    ensures AfterAll(s, ops[i..]) == AfterAll(After(s, ops[i]), ops[i + 1..])
    ensures Popped(s, ops[i..])
            == (if ops[i].Pop? && |s| > 0 then [s[0]] else []) + Popped(After(s, ops[i]), ops[i + 1..])
  {
    assert ops[i..][0] == ops[i] && ops[i..][1..] == ops[i + 1..];
  }

  lemma BroughtOnly<T>(s: seq<Node<T>>, op: Operation<Node<T>>, dom: set<Node<T>>)
    requires BringsFrom(op, dom) && forall k :: 0 <= k < |s| ==> s[k] in dom
    ensures forall k :: 0 <= k < |After(s, op)| ==> After(s, op)[k] in dom
  {
    var r := After(s, op);
    if op.Add? || op.Remove? {
      WithoutInside(s, op.item);
    }
    forall k | 0 <= k < |r|
      ensures r[k] in dom
    {
      assert op.Push? && k > 0 ==> r[k] == s[k - 1];
    }
  }
}
