/** The intrusive circular doubly linked list of include/list.h, on the heap.
    A link carries its item directly: list_entry only recovers the record around a link. */
module Rings {
  import opened Types

  class Link<T> {
    var next: Link<T>
    var prev: Link<T>
    const item: Option<T>
    /** The ring the link is threaded on, if any. A link is never on two rings. */
    ghost var home: object?

    /** init_list_head: a link is born pointing at itself. */
    constructor (item: Option<T>)
      ensures next == this && prev == this && this.item == item && home == null
    {
      this.item := item;
      next, prev := this, this;
      home := null;
    }
  }

  /** list_insert. */
  method ListInsert<T>(n: Link<T>, prev: Link<T>, next: Link<T>)
    requires n != prev && n != next
    modifies n`next, n`prev, next`prev, prev`next
    ensures n.next == next && n.prev == prev && prev.next == n && next.prev == n
  {
    next.prev := n;
    prev.next := n;
    n.next := next;
    n.prev := prev;
  }

  /** list_delete_entry: the entry keeps its own two pointers. Nothing changes if it points at itself. */
  method ListDeleteEntry<T>(entry: Link<T>)
    modifies entry.next`prev, entry.prev`next
    ensures old(entry.next).prev == old(entry.prev) && old(entry.prev).next == old(entry.next)
    ensures entry.next == old(entry.next) && entry.prev == old(entry.prev)
  {
    entry.next.prev := entry.prev;
    entry.prev.next := entry.next;
  }

  /** The sequence without its element at position k. */
  ghost function Cut<A>(s: seq<A>, k: nat): (r: seq<A>)
    requires k < |s|
    ensures |r| == |s| - 1
    ensures forall i :: 0 <= i < |r| ==> r[i] == if i < k then s[i] else s[i + 1]
    ensures forall x :: x in r ==> x in s
  {
    s[..k] + s[k + 1..]
  }

  ghost predicate NoRepeats<T>(links: seq<Link<T>>) {
    forall i, j :: 0 <= i < j < |links| ==> links[i] != links[j]
  }

  ghost predicate AtHome<T>(links: seq<Link<T>>, ring: object)
    reads links
  {
    forall i :: 0 <= i < |links| ==> links[i].home == ring
  }

  /** The links after the head carry the items in order. */
  ghost predicate Carries<T>(links: seq<Link<T>>, items: seq<T>) {
    && |links| == |items| + 1
    && forall i :: 0 < i < |links| ==> links[i].item == Some(items[i - 1])
  }

  lemma CutCarries<T>(links: seq<Link<T>>, items: seq<T>, k: nat)
    requires Carries(links, items) && k < |items|
    ensures Carries(Cut(links, k + 1), Cut(items, k))
  {
  }

  lemma CutNoRepeats<T>(links: seq<Link<T>>, k: nat)
    requires k < |links| && NoRepeats(links)
    ensures NoRepeats(Cut(links, k)) && links[k] !in Cut(links, k)
  {
  }

  /** Once the neighbours of link k point past it, the other links form a ring. */
  lemma CutCircular<T>(links: seq<Link<T>>, k: nat)
    requires 0 < k < |links|
    requires forall i :: 0 <= i < |links| - 1 && i != k - 1 && i != k ==> links[i].next == links[i + 1]
    requires forall i :: 0 < i < |links| && i != k && i != k + 1 ==> links[i].prev == links[i - 1]
    requires k + 1 == |links| ==> links[k - 1].next == links[0] && links[0].prev == links[k - 1]
    requires k + 1 < |links| ==> links[k - 1].next == links[k + 1] && links[k + 1].prev == links[k - 1]
    requires k + 1 < |links| ==> links[|links| - 1].next == links[0] && links[0].prev == links[|links| - 1]
    ensures Circular(Cut(links, k))
  {
  }

  class Ring<T> {
    /** The list head: a link without an item. */
    const head: Link<T>
    /** The links in ring order, the head first. */
    ghost var links: seq<Link<T>>
    /** Their items: what the list holds. */
    ghost var items: seq<T>

    ghost predicate Valid()
      reads this, links
    {
      && Carries(links, items) && links[0] == head
      && NoRepeats(links) && AtHome(links, this) && Circular(links)
    }

    constructor ()
      ensures Valid() && items == [] && links == [head] && fresh(head)
    {
      var h := new Link<T>(None);
      head := h;
      links, items := [h], [];
      new;
      h.home := this;
    }

    /** The pointer after position i. */
    ghost function After(i: nat): Link<T>
      requires i < |links|
      reads this
    {
      if i + 1 < |links| then links[i + 1] else links[0]
    }

    /** list_add_tail: exactly one item more, at the end. */
    method AddTail(n: Link<T>)
      requires Valid() && n.item.Some? && n.home == null
      modifies this, links, n
      ensures Valid()
      ensures links == old(links) + [n] && items == old(items) + [n.item.value]
    {
      assert n !in links;
      ListInsert(n, head.prev, head);
      n.home := this;
      links, items := links + [n], items + [n.item.value];
    }

    /** The pointer part of a deletion. */
    method Bypass(n: Link<T>, ghost k: nat)
      requires Valid() && 0 < k < |links| && links[k] == n
      modifies links
      ensures Circular(Cut(links, k)) && n.home == null
      ensures forall i :: 0 <= i < |links| && i != k ==> links[i].home == this
    {
      assert n.prev == links[k - 1] && n.next == After(k);
      ListDeleteEntry(n);
      CutCircular(links, k);
      n.home := null;
    }

    /** list_delete_entry: exactly the item at position k less; the others keep their order. */
    method Delete(n: Link<T>, ghost k: nat)
      requires Valid() && k < |items| && links[k + 1] == n
      modifies this, links
      ensures Valid() && n.home == null
      ensures links == Cut(old(links), k + 1) && items == Cut(old(items), k)
    {
      CutNoRepeats(links, k + 1);
      CutCarries(links, items, k);
      Bypass(n, k + 1);
      links, items := Cut(links, k + 1), Cut(items, k);
    }
  }

  /** Every link's next is the following one and prev is its inverse, all the way round. */
  ghost predicate Circular<T>(links: seq<Link<T>>)
    reads links
  {
    && |links| > 0
    && (forall i :: 0 <= i < |links| - 1 ==> links[i].next == links[i + 1])
    && (forall i :: 0 < i < |links| ==> links[i].prev == links[i - 1])
    && links[|links| - 1].next == links[0] && links[0].prev == links[|links| - 1]
  }
}
