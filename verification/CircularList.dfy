/** The circular doubly linked list of BSD/rcconf_list.c. The head is a bare link; every other
    link is embedded in an item, here its `data`. */
module CircularList {

  /** No element occurs twice. */
  ghost predicate AllDifferent<T>(s: seq<T>) {
    s == [] || (s[|s| - 1] !in s[..|s| - 1] && AllDifferent(s[..|s| - 1]))
  }

  lemma {:induction false} AllDifferentAt<T>(s: seq<T>)
    ensures AllDifferent(s) <==> forall i, j :: 0 <= i < j < |s| ==> s[i] != s[j]
  {
    if s != [] {
      AllDifferentAt(s[..|s| - 1]);
      assert forall i :: 0 <= i < |s| - 1 ==> s[..|s| - 1][i] == s[i];
    }
  }

  class Link<T(0)> {
    var prev: Link<T>
    var next: Link<T>
    var data: T

    /** `rcconf_list_init` on the link of a new item. */
    constructor (d: T)
      ensures prev == this && next == this && data == d
    {
      prev, next, data := this, this, d;
    }
  }

  class Ring<T(0)> {
    const head: Link<T>
    ghost var nodes: seq<Link<T>>   // the cycle in `next` order, from the head
    ghost var contents: seq<T>      // the items, without the head
    ghost var Repr: set<object>     // the list and every link that is or was in it

    /** One link for each item, behind the head. */
    ghost predicate Laid()
      reads this
    {
      this in Repr && |nodes| == |contents| + 1 && nodes[0] == head
    }

    /** One cycle through the head, with `prev` the inverse of `next`. */
    ghost predicate Cycle()
      reads this, Repr
    {
      && Laid() && (forall i :: 0 <= i < |nodes| ==> nodes[i] in Repr)
      && (forall i, j :: 0 <= i < j < |nodes| ==> nodes[i] != nodes[j])
      && (forall i {:trigger nodes[i].next} :: 0 <= i < |nodes| - 1 ==> nodes[i].next == nodes[i + 1])
      && (forall i {:trigger nodes[i].prev} :: 1 <= i < |nodes| ==> nodes[i].prev == nodes[i - 1])
      && nodes[|nodes| - 1].next == head && head.prev == nodes[|nodes| - 1]
      && (forall i {:trigger nodes[i].data} :: 1 <= i < |nodes| ==> nodes[i].data == contents[i - 1])
    }

    /** The first `k` links are joined both ways and carry the first items. */
    ghost predicate JoinedUpTo(k: nat)
      requires Laid() && k <= |nodes|
      reads this, Repr
    {
      k == 0 || (
        && JoinedUpTo(k - 1) && nodes[k - 1] in Repr
        && (k > 1 ==> nodes[k - 2] in Repr && nodes[k - 2].next == nodes[k - 1] && nodes[k - 1].prev == nodes[k - 2])
        && (k > 1 ==> nodes[k - 1].data == contents[k - 2]))
    }

    /** The cycle again, link by link, for the users of the list. */
    ghost predicate Valid()
      reads this, Repr
    {
      && Laid() && AllDifferent(nodes) && JoinedUpTo(|nodes|)
      && head in Repr && nodes[|nodes| - 1] in Repr
      && nodes[|nodes| - 1].next == head && head.prev == nodes[|nodes| - 1]
    }

    lemma {:induction false} AllJoined(k: nat)
      requires Laid() && k <= |nodes|
      ensures JoinedUpTo(k) <==>
        && (forall i :: 0 <= i < k ==> nodes[i] in Repr)
        && (forall i {:trigger nodes[i].next} :: 0 <= i < k - 1 ==> nodes[i].next == nodes[i + 1])
        && (forall i {:trigger nodes[i].prev} :: 1 <= i < k ==> nodes[i].prev == nodes[i - 1])
        && (forall i {:trigger nodes[i].data} :: 1 <= i < k ==> nodes[i].data == contents[i - 1])
    {
      if k > 0 {
        AllJoined(k - 1);
      }
    }

    lemma ValidIsCycle()
      ensures Valid() <==> Cycle()
    {
      if Laid() {
        AllJoined(|nodes|);
        AllDifferentAt(nodes);
      }
    }

    /** The link of item `k`, or the head behind the last item. */
    ghost function At(k: nat): Link<T>
      requires Valid() && k <= |contents|
      reads this, Repr
    {
      if k < |contents| then nodes[k + 1] else head
    }

    /** Following `next` from the head visits the items in order and comes back to the head. */
    lemma Walk(k: nat)
      requires Valid() && k <= |contents|
      ensures head.next == At(0)
      ensures At(k) == head <==> k == |contents|
      ensures k < |contents| ==> At(k).next == At(k + 1) && At(k).data == contents[k]
    {
      ValidIsCycle();
    }

    /** Following `prev` retraces the walk backwards. */
    lemma WalkBack(k: nat)
      requires Valid() && k < |contents|
      ensures At(k + 1).prev == At(k) && At(k).next.prev == At(k)
      ensures At(0).prev == head && head.prev.next == head
    {
      ValidIsCycle();
    }

    constructor ()
      ensures Valid() && contents == []
      ensures fresh(Repr)
    {
      var d: T := *;
      head := new Link(d);
      new;
      nodes, contents, Repr := [head], [], {this, head};
    }

    /** `rcconf_list_init` on the head: the list is empty again. */
    method Clear()
      requires Valid()
      modifies Repr
      ensures Valid() && Repr == old(Repr) && contents == []
    {
      head.prev := head;
      head.next := head;
      nodes, contents := [head], [];
    }

    /** `rcconf_list_append` */
    method Append(item: Link<T>)
      requires Valid() && item !in nodes
      modifies Repr, item
      ensures Valid() && Repr == old(Repr) + {item}
      ensures contents == old(contents) + [old(item.data)]
    {
      ValidIsCycle();
      Join(item);
      ValidIsCycle();
    }

    method Join(item: Link<T>)
      requires Cycle() && item !in nodes
      modifies Repr, item
      ensures Cycle() && Repr == old(Repr) + {item}
      ensures contents == old(contents) + [old(item.data)]
    {
      item.prev := head.prev;
      item.next := head;
      head.prev.next := item;
      head.prev := item;
      nodes, contents, Repr := nodes + [item], contents + [item.data], Repr + {item};
    }

    /** `rcconf_list_del` */
    method Del(item: Link<T>, ghost k: nat)
      requires Valid() && k < |contents| && item == At(k)
      modifies Repr
      ensures Valid() && Repr == old(Repr)
      ensures contents == old(contents[..k] + contents[k + 1..])
      ensures At(k) == old(item.next)
    {
      ValidIsCycle();
      Unjoin(item, k);
      ValidIsCycle();
    }

    method Unjoin(item: Link<T>, ghost k: nat)
      requires Cycle() && k < |contents| && item == nodes[k + 1]
      modifies Repr
      ensures Cycle() && Repr == old(Repr)
      ensures contents == old(contents[..k] + contents[k + 1..])
      ensures old(item.next) == if k < |contents| then nodes[k + 1] else head
    {
      assert item.next == if k + 2 < |nodes| then nodes[k + 2] else head;
      assert item.prev == nodes[k];
      item.prev.next := item.next;
      item.next.prev := item.prev;
      nodes, contents := nodes[..k + 1] + nodes[k + 2..], contents[..k] + contents[k + 1..];
    }

    /** Replacing the item a link belongs to leaves the links alone. */
    method SetData(item: Link<T>, ghost k: nat, d: T)
      requires Valid() && k < |contents| && item == At(k)
      modifies Repr
      ensures Valid() && Repr == old(Repr) && contents == old(contents)[k := d]
    {
      ValidIsCycle();
      item.data := d;
      contents := contents[k := d];
      ValidIsCycle();
    }
  }
}
