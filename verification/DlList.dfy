/** The circular doubly-linked list (src/utils/list.h) that links the entries of
    the BSS table, and how an entry that may move in memory stays in its place. */
module DlList {

  class Link {
    var next: Link?
    var prev: Link?

    constructor ()
      ensures next == null && prev == null
    {
      next, prev := null, null;
    }
  }

  /** Following next from the head goes round the links and following prev goes
      back; the head is the first of them. */
  ghost predicate Ring(links: seq<Link>)
    reads links
  {
    && links != [] && Distinct(links)
    && (forall i, j :: 0 <= i < j < |links| && j == i + 1 ==> links[i].next == links[j] && links[j].prev == links[i])
    && links[|links| - 1].next == links[0] && links[0].prev == links[|links| - 1]
  }

  ghost predicate Distinct(links: seq<Link>) {
    forall i, j :: 0 <= i < j < |links| ==> links[i] != links[j]
  }

  ghost function Without(links: seq<Link>, k: nat): seq<Link>
    requires k < |links|
  {
    links[..k] + links[k + 1..]
  }

  /** The links with another one behind position k. */
  ghost function WithAfter(links: seq<Link>, k: nat, item: Link): seq<Link>
    requires k < |links|
  {
    links[..k + 1] + [item] + links[k + 1..]
  }

  method Init(list: Link)
    modifies list
    ensures Ring([list])
  {
    list.next := list;
    list.prev := list;
  }

  /** Links an item behind the link at position k. */
  method Add(list: Link, item: Link, ghost links: seq<Link>, ghost k: nat)
    requires Ring(links) && k < |links| && list == links[k] && item !in links
    modifies links, item
    ensures Ring(WithAfter(links, k, item))
  {
    ghost var r := WithAfter(links, k, item);
    NextOf(links, k);
    AddedDistinct(links, k, item);
    item.next := list.next;
    item.prev := list;
    list.next.prev := item;
    list.next := item;
    AddedAt(links, k, item);
  }

  /** Links an item at the end: just before the head. */
  method AddTail(list: Link, item: Link, ghost links: seq<Link>)
    requires Ring(links) && list == links[0] && item !in links
    modifies links, item
    ensures Ring(links + [item])
  {
    Add(list.prev, item, links, |links| - 1);
    assert WithAfter(links, |links| - 1, item) == links + [item];
  }

  /** Takes the link at position k out; the head stays. */
  method Del(item: Link, ghost links: seq<Link>, ghost k: nat)
    requires Ring(links) && 0 < k < |links| && item == links[k]
    modifies links
    ensures Ring(Without(links, k)) && item.next == null && item.prev == null
  {
    NextOf(links, k);
    NextOf(links, k - 1);
    TakenOut(links, k);
    item.next.prev := item.prev;
    item.prev.next := item.next;
    item.next := null;
    item.prev := null;
  }

  /** Moves an item to the end of the list. */
  method MoveToTail(list: Link, item: Link, ghost links: seq<Link>, ghost k: nat)
    requires Ring(links) && 0 < k < |links| && list == links[0] && item == links[k]
    modifies links
    ensures Ring(Without(links, k) + [item])
  {
    TakenOut(links, k);
    Del(item, links, k);
    AddTail(list, item, Without(links, k));
  }

  /** Takes an item out, reallocates it and links it behind its old predecessor:
      whether or not it has moved, it stands where it stood. */
  method Reallocate(item: Link, moves: bool, ghost links: seq<Link>, ghost k: nat) returns (r: Link)
    requires Ring(links) && 0 < k < |links| && item == links[k]
    modifies links
    ensures if moves then fresh(r) else r == item
    ensures Ring(links[k := r])
  {
    RingDistinct(links);
    NextOf(links, k);
    TakenOut(links, k);
    hide Ring, Distinct, Without, WithAfter;
    var prev := item.prev;
    ghost var rest := Without(links, k);
    Del(item, links, k);
    r := item;
    if moves {
      r := new Link();
    }
    Add(prev, r, rest, k - 1);
    PutBack(links, k, r);
  }

  lemma RingDistinct(links: seq<Link>)
    requires Ring(links)
    ensures Distinct(links)
  {
  }

  lemma PutBack(links: seq<Link>, k: nat, r: Link)
    requires 0 < k < |links|
    ensures |Without(links, k)| == |links| - 1 && WithAfter(Without(links, k), k - 1, r) == links[k := r]
  {
  }

  lemma TakenOut(links: seq<Link>, k: nat)
    requires Distinct(links) && 0 < k < |links|
    ensures var r := Without(links, k);
            && links[k] !in r && (forall l :: l in r ==> l in links)
            && |r| == |links| - 1 && r[0] == links[0] && r[k - 1] == links[k - 1]
            && Distinct(r) && forall i :: 0 <= i < |r| ==> r[i] == links[if i < k then i else i + 1]
  {
    var r := Without(links, k);
    assert forall i :: 0 <= i < |r| ==> r[i] == links[if i < k then i else i + 1];
  }

  lemma NextOf(links: seq<Link>, k: nat)
    requires Ring(links) && k < |links|
    ensures links[k].next == links[if k + 1 < |links| then k + 1 else 0]
    ensures links[k].prev == links[if k > 0 then k - 1 else |links| - 1]
  {
  }

  lemma AddedDistinct(links: seq<Link>, k: nat, item: Link)
    requires Distinct(links) && k < |links| && item !in links
    ensures Distinct(WithAfter(links, k, item))
  {
  }

  lemma AddedAt(links: seq<Link>, k: nat, item: Link)
    requires k < |links|
    ensures var r := WithAfter(links, k, item);
            && |r| == |links| + 1 && r[k + 1] == item
            && (forall i :: 0 <= i <= k ==> r[i] == links[i])
            && (forall i :: k + 1 < i < |r| ==> r[i] == links[i - 1])
  {
  }
}
