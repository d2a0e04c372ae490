/** Lists of threads and of free blocks: what `list.c` links are tags inside these objects, and
    `elem2entry` (`lib/kernel/list.h`) finds the object of a tag. The linked list carries out the sequence
    operations by which
    the scheduler, the locks and the heap are modelled. */
module TagLists {
  import opened Sequences
  import opened Lists

  function OwnersOf(elems: seq<Elem>, owner: map<Elem, nat>): (q: seq<nat>)
    requires forall e :: e in elems ==> e in owner
    ensures |q| == |elems| && forall i :: 0 <= i < |q| ==> q[i] == owner[elems[i]]
  {
    seq(|elems|, i requires 0 <= i < |elems| && elems[i] in owner => owner[elems[i]])
  }

  class TagList {
    const list: List
    /** The tag of each object, and the object of each tag. */
    const tag: map<nat, Elem>
    const owner: map<Elem, nat>

    /** A list without elements; the tags are distinct and belong to no other list yet. */
    constructor (tag: map<nat, Elem>, owner: map<Elem, nat>)
      requires forall x :: x in tag ==> tag[x] in owner && owner[tag[x]] == x
      ensures Valid() && Ids() == [] && this.tag == tag && this.owner == owner && fresh(list)
    {
      this.tag, this.owner := tag, owner;
      list := new List();
    }

    ghost predicate Valid()
      reads this, list, list.Nodes()
    {
      && list.Valid()
      && (forall x :: x in tag ==> tag[x] in owner && owner[tag[x]] == x && tag[x] != list.head && tag[x] != list.tail)
      && (forall e :: e in list.elems ==> e in owner && owner[e] in tag && tag[owner[e]] == e)
    }

    ghost function Ids(): (q: seq<nat>)
      requires Valid()
      reads this, list, list.Nodes()
      ensures |q| == |list.elems| && forall i :: 0 <= i < |q| ==> q[i] in tag && tag[q[i]] == list.elems[i]
    {
      OwnersOf(list.elems, owner)
    }

    /** No object is on the list twice. */
    lemma IdsDiffer()
      requires Valid()
      ensures NoDup(Ids())
    {
      forall i, j | 0 <= i < j < |Ids()|
        ensures Ids()[i] != Ids()[j]
      {
        assert list.Nodes()[i + 1] != list.Nodes()[j + 1];
      }
    }

    lemma NotLinked(x: nat)
      requires Valid() && x in tag && x !in Ids()
      ensures tag[x] !in list.Nodes()
    {
      forall i | 0 <= i < |list.elems|
        ensures list.elems[i] != tag[x]
      {
        assert Ids()[i] in Ids();
      }
    }

    method Push(x: nat)
      requires Valid() && x in tag && x !in Ids()
      modifies list`elems, list.Nodes(), tag[x]
      ensures Valid() && Ids() == [x] + old(Ids())
    {
      NotLinked(x);
      list.Push(tag[x]);
    }

    method Append(x: nat)
      requires Valid() && x in tag && x !in Ids()
      modifies list`elems, list.Nodes(), tag[x]
      ensures Valid() && Ids() == old(Ids()) + [x]
    {
      NotLinked(x);
      list.Append(tag[x]);
    }

    method Pop() returns (x: nat)
      requires Valid() && Ids() != []
      modifies list`elems, list.Nodes()
      ensures Valid() && [x] + Ids() == old(Ids())
    {
      ghost var q := list.elems;
      var e := list.Pop();
      assert e == q[0] && list.elems == q[1..];
      x := owner[e];
    }

    method Find(x: nat) returns (found: bool)
      requires Valid() && x in tag
      ensures found <==> x in Ids()
    {
      found := list.ElemFind(tag[x]);
      if found {
        ghost var i :| 0 <= i < |list.elems| && list.elems[i] == tag[x];
        assert Ids()[i] == x;
      }
    }

    method Remove(x: nat, ghost k: nat)
      requires Valid() && k < |Ids()| && Ids()[k] == x
      modifies list`elems, list.Nodes()
      ensures Valid() && Ids() == old(Ids())[..k] + old(Ids())[k + 1..]
    {
      list.Remove(tag[x], k);
    }

    method IsEmpty() returns (r: bool)
      requires Valid()
      ensures r <==> Ids() == []
    {
      r := list.IsEmpty();
    }
  }
}
