/** The doubly linked lists of `src/kernel/list.c`, whose links are part of the elements. */
module Lists {
  import opened Sequences


  /** `struct list_elem`. */
  class Elem {
    var prev: Elem?
    var next: Elem?

    constructor ()
      ensures prev == null && next == null
    {
      prev, next := null, null;
    }
  }

  /** Each element of `q` is linked to its neighbours. */
  ghost predicate Linked(q: seq<Elem>)
    reads q
  {
    forall i :: 0 <= i < |q| - 1 ==> q[i].next == q[i + 1] && q[i + 1].prev == q[i]
  }

  /** `struct list`: a head and a tail that are no elements, and what is linked between them. */
  class List {
    const head: Elem
    const tail: Elem
    ghost var elems: seq<Elem>

    ghost function Nodes(): (q: seq<Elem>)
      reads this
      ensures |q| == |elems| + 2
    {
      [head] + elems + [tail]
    }

    ghost function Node(k: nat): Elem
      requires k < |Nodes()|
      reads this
    {
      Nodes()[k]
    }

    ghost predicate Valid()
      reads this, Nodes()
    {
      NoDup(Nodes()) && Linked(Nodes())
    }

    /** `list_init`. */
    constructor ()
      ensures Valid() && elems == [] && fresh(head) && fresh(tail)
    {
      head := new Elem();
      tail := new Elem();
      elems := [];
      new;
      head.prev := null;
      head.next := tail;
      tail.prev := head;
      tail.next := null;
    }

    /** `list_insert_before`, in front of node number `k` (the tail is the last one). */
    method InsertBefore(before: Elem, elem: Elem, ghost k: nat)
      requires Valid() && 1 <= k < |Nodes()| && Nodes()[k] == before && elem !in Nodes()
      modifies this`elems, before`prev, Node(k - 1)`next, elem
      ensures Valid() && elems == old(elems)[..k - 1] + [elem] + old(elems)[k - 1..]
    {
      ghost var q := Nodes();
      assert before.prev == q[k - 1] by { assert q[k - 1].next == q[k - 1 + 1]; }
      before.prev.next := elem;
      elem.prev := before.prev;
      elem.next := before;
      before.prev := elem;
      elems := elems[..k - 1] + [elem] + elems[k - 1..];
      ghost var q' := Nodes();
      assert q' == q[..k] + [elem] + q[k..];
      InsertedOrder(q, elem, k);
      forall i | 0 <= i < |q'| - 1
        ensures q'[i].next == q'[i + 1] && q'[i + 1].prev == q'[i]
      {
        if i < k - 1 {
          assert q[i].next == q[i + 1];
          assert q'[i] == q[i] && q'[i + 1] == q[i + 1];
        } else if i > k {
          assert q[i - 1].next == q[i - 1 + 1];
          assert q'[i] == q[i - 1] && q'[i + 1] == q[i];
        }
      }
    }

    /** `list_push`. */
    method Push(elem: Elem)
      requires Valid() && elem !in Nodes()
      modifies this`elems, Nodes(), elem
      ensures Valid() && elems == [elem] + old(elems)
    {
      assert Nodes()[0].next == Nodes()[1];
      InsertBefore(head.next, elem, 1);
    }

    /** `list_append`. */
    method Append(elem: Elem)
      requires Valid() && elem !in Nodes()
      modifies this`elems, Nodes(), elem
      ensures Valid() && elems == old(elems) + [elem]
    {
      assert Nodes()[|Nodes()| - 1] == tail && Nodes()[|Nodes()| - 2] in Nodes() && tail in Nodes();
      InsertBefore(tail, elem, |Nodes()| - 1);
    }

    /** `list_remove` of element number `k`. Its own links stay as they are. */
    method Remove(pelem: Elem, ghost k: nat)
      requires Valid() && k < |elems| && elems[k] == pelem
      modifies this`elems, Nodes()
      ensures Valid() && elems == old(elems)[..k] + old(elems)[k + 1..] && pelem !in Nodes()
      ensures pelem.prev == old(pelem.prev) && pelem.next == old(pelem.next)
    {
      ghost var q := Nodes();
      assert q[k + 1] == pelem;
      assert q[k].next == q[k + 1] && q[k + 1].next == q[k + 2];
      pelem.prev.next := pelem.next;
      pelem.next.prev := pelem.prev;
      elems := elems[..k] + elems[k + 1..];
      ghost var q' := Nodes();
      assert q' == q[..k + 1] + q[k + 2..];
      RemovedOrder(q, k + 1);
      forall i | 0 <= i < |q'| - 1
        ensures q'[i].next == q'[i + 1] && q'[i + 1].prev == q'[i]
      {
        if i < k {
          assert q[i].next == q[i + 1];
          assert q'[i] == q[i] && q'[i + 1] == q[i + 1];
        } else if i > k {
          assert q[i + 1].next == q[i + 1 + 1];
          assert q'[i] == q[i + 1] && q'[i + 1] == q[i + 2];
        }
      }
    }

    /** `list_pop`. */
    method Pop() returns (elem: Elem)
      requires Valid() && elems != []
      modifies this`elems, Nodes()
      ensures Valid() && [elem] + elems == old(elems) && elem !in Nodes()
    {
      assert Nodes()[0].next == Nodes()[1];
      elem := head.next;
      Remove(elem, 0);
    }

    /** `list_empty`. */
    method IsEmpty() returns (r: bool)
      requires Valid()
      ensures r <==> elems == []
    {
      assert Nodes()[0].next == Nodes()[1];
      assert elems != [] ==> Nodes()[1] == elems[0] && Nodes()[1] != Nodes()[|elems| + 1];
      r := head.next == tail;
    }

    /** `elem_find`. */
    method ElemFind(objElem: Elem) returns (found: bool)
      requires Valid()
      ensures found <==> objElem in elems
    {
      ghost var q := Nodes();
      assert q[0].next == q[1];
      var elem := head.next;
      ghost var k := 0;
      while elem != tail
        invariant 0 <= k <= |elems| && elem == q[k + 1] && objElem !in elems[..k]
        decreases |elems| - k
      {
        assert k < |elems| && elem == elems[k];
        if elem == objElem {
          return true;
        }
        assert q[k + 1].next == q[k + 2];
        assert elems[..k + 1] == elems[..k] + [elem];
        elem := elem.next;
        k := k + 1;
      }
      OnlyTail(q, k + 1);
      assert elems[..k] == elems;
      found := false;
    }

    /** `list_len`. */
    method Len() returns (length: nat)
      requires Valid()
      ensures length == |elems|
    {
      ghost var q := Nodes();
      assert q[0].next == q[1];
      var elem := head.next;
      length := 0;
      while elem != tail
        invariant 0 <= length <= |elems| && elem == q[length + 1]
        decreases |elems| - length
      {
        assert q[length + 1].next == q[length + 2];
        elem := elem.next;
        length := length + 1;
      }
      OnlyTail(q, length + 1);
    }
  }

  lemma OnlyTail(q: seq<Elem>, k: nat)
    requires NoDup(q) && k < |q| && q[k] == q[|q| - 1]
    ensures k == |q| - 1
  {
  }

  lemma InsertedOrder(q: seq<Elem>, e: Elem, k: nat)
    requires NoDup(q) && k <= |q| && e !in q
    ensures NoDup(q[..k] + [e] + q[k..])
  {
  }

  lemma RemovedOrder(q: seq<Elem>, k: nat)
    requires NoDup(q) && k < |q|
    ensures NoDup(q[..k] + q[k + 1..]) && q[k] !in q[..k] + q[k + 1..]
  {
  }
}
