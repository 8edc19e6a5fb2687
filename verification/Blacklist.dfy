/** The list of BSSIDs that failed, with how often (wpa_supplicant/blacklist.c). */
module Blacklist {
  import opened InfoElements

  class Item {
    const bssid: Mac
    var count: nat
    var next: Item?

    constructor (b: Mac, n: Item?)
      ensures bssid == b && count == 1 && next == n
    {
      bssid, count, next := b, 1, n;
    }
  }

  ghost function ItemAt(items: seq<Item>, i: nat): Item? {
    if i < |items| then items[i] else null
  }

  ghost predicate Listed(items: seq<Item>, b: Mac) {
    exists i :: 0 <= i < |items| && items[i].bssid == b
  }

  ghost predicate Distinct(items: seq<Item>) {
    forall i, j :: 0 <= i < j < |items| ==> items[i].bssid != items[j].bssid
  }

  /** The items are linked in order. */
  ghost predicate Linked(head: Item?, items: seq<Item>)
    reads items
  {
    && (items == [] ==> head == null)
    && (items != [] ==> head == items[0] && items[|items| - 1].next == null)
    && (forall i, j :: 0 <= i < j < |items| && j == i + 1 ==> items[i].next == items[j])
  }

  /** The items hold exactly the counts. */
  ghost predicate Counted(items: seq<Item>, counts: multiset<Mac>)
    reads items
  {
    && (forall e :: e in items ==> 0 < e.count == counts[e.bssid])
    && (forall b :: b in counts ==> Listed(items, b))
  }

  class List {
    var head: Item?
    ghost var items: seq<Item>
    /** How often each BSSID was added since it was last off the list. */
    ghost var counts: multiset<Mac>

    ghost predicate Valid()
      reads this, items
    {
      Linked(head, items) && Distinct(items) && Counted(items, counts)
    }

    constructor ()
      ensures Valid() && counts == multiset{} && items == []
    {
      head, items, counts := null, [], multiset{};
    }

    /** Whether nothing is listed. */
    method IsEmpty() returns (empty: bool)
      requires Valid()
      ensures empty <==> counts == multiset{}
    {
      empty := head == null;
      if !empty {
        assert items[0].bssid in counts;
      } else {
        assert forall b :: b !in counts;
      }
    }

    /** Walks the list to the item of a BSSID. */
    method Find(bssid: Mac) returns (e: Item?, prev: Item?, ghost i: nat)
      requires Valid()
      ensures i <= |items| && e == ItemAt(items, i)
      ensures prev == if i == 0 then null else items[i - 1]
      ensures e != null ==> e.bssid == bssid
      ensures e == null ==> counts[bssid] == 0 && !Listed(items, bssid)
    {
      hide Distinct;
      e, prev, i := head, null, 0;
      while e != null
        invariant i <= |items| && e == ItemAt(items, i)
        invariant prev == if i == 0 then null else items[i - 1]
        invariant forall j :: 0 <= j < i ==> items[j].bssid != bssid
        decreases |items| - i
      {
        if e.bssid == bssid {
          return;
        }
        prev, e, i := e, e.next, i + 1;
      }
      assert bssid !in counts;
    }

    /** The item of a BSSID, or NULL. */
    method Get(bssid: Mac) returns (e: Item?)
      requires Valid()
      ensures e == null <==> counts[bssid] == 0
      ensures e == null ==> !Listed(items, bssid)
      ensures e != null ==> e in items && e.bssid == bssid && e.count == counts[bssid]
    {
      hide Listed, Distinct;
      var item, prev, i := Find(bssid);
      return item;
    }

    /** Counts one more failure of a BSSID, listing it in front if it is new. */
    method Add(bssid: Mac) returns (count: nat)
      requires Valid()
      modifies this, items
      ensures Valid() && fresh(set e | e in items && e !in old(items))
      ensures counts == old(counts) + multiset{bssid}
      ensures count == counts[bssid]
    {
      hide Listed, Linked;
      var e := Get(bssid);
      if e != null {
        Increment(e);
        return e.count;
      }
      Push(bssid);
      return 1;
    }

    method Increment(e: Item)
      requires Valid() && e in items
      modifies this`counts, e`count
      ensures Valid() && counts == old(counts) + multiset{e.bssid} && e.count == counts[e.bssid]
    {
      hide Listed;
      assert forall f :: f in items && f.bssid == e.bssid ==> f == e;
      e.count := e.count + 1;
      counts := counts + multiset{e.bssid};
    }

    method Push(bssid: Mac)
      requires Valid() && counts[bssid] == 0 && !Listed(items, bssid)
      modifies this
      ensures Valid() && fresh(set e | e in items && e !in old(items))
      ensures counts == old(counts) + multiset{bssid} && counts[bssid] == 1
    {
      hide Listed;
      var e := new Item(bssid, head);
      PushedItems(items, e);
      head := e;
      items, counts := [e] + items, counts + multiset{bssid};
      assert Linked(head, items);
      assert Counted(items, counts);
    }

    /** Takes a BSSID off the list; false when it is not there. */
    method Del(bssid: Mac) returns (ok: bool)
      requires Valid()
      modifies this, items
      ensures Valid() && forall e :: e in items ==> e in old(items)
      ensures ok <==> old(counts)[bssid] != 0
      ensures counts == old(counts)[bssid := 0]
    {
      hide Listed, Distinct, Without, Linked;
      var e, prev, i := Find(bssid);
      if e == null {
        assert counts == counts[bssid := 0];
        return false;
      }
      RemovedItems(items, i);
      Unlink(e, prev, i);
      items, counts := Without(items, i), counts[bssid := 0];
      return true;
    }

    method Unlink(e: Item, prev: Item?, ghost i: nat)
      requires Linked(head, items) && Distinct(items)
      requires i < |items| && e == items[i] && prev == if i == 0 then null else items[i - 1]
      modifies this`head, items`next
      ensures Linked(head, Without(items, i))
    {
      RemovedItems(items, i);
      hide Without, Listed;
      ghost var r := Without(items, i);
      if prev == null {
        head := e.next;
      } else {
        assert forall j :: 0 <= j < |items| && j != i - 1 ==> items[j] != prev;
        prev.next := e.next;
      }
      forall j, k | 0 <= j < k < |r| && k == j + 1
        ensures r[j].next == r[k]
      {
        if j + 1 < i {
          assert items[j].next == items[j + 1];
        } else if j + 1 > i {
          assert items[j + 1].next == items[j + 2];
        } else {
          assert items[i].next == items[i + 1];
        }
      }
    }

    /** Takes everything off the list. */
    method Clear()
      modifies this
      ensures Valid() && counts == multiset{} && items == []
    {
      head, items, counts := null, [], multiset{};
    }
  }

  lemma PushedItems(items: seq<Item>, e: Item)
    requires Distinct(items) && !Listed(items, e.bssid)
    ensures Distinct([e] + items)
    ensures forall b :: Listed([e] + items, b) <==> b == e.bssid || Listed(items, b)
    ensures forall f :: f in items ==> f.bssid != e.bssid
  {
    var r := [e] + items;
    forall b | b == e.bssid || Listed(items, b)
      ensures Listed(r, b)
    {
      if b == e.bssid {
        assert r[0].bssid == b;
      } else {
        var i :| 0 <= i < |items| && items[i].bssid == b;
        assert r[i + 1].bssid == b;
      }
    }
  }

  ghost function Without(items: seq<Item>, i: nat): seq<Item>
    requires i < |items|
  {
    items[..i] + items[i + 1..]
  }

  lemma RemovedItems(items: seq<Item>, i: nat)
    requires Distinct(items) && i < |items|
    ensures var r := Without(items, i);
            && Distinct(r)
            && (forall b :: b != items[i].bssid && Listed(items, b) ==> Listed(r, b))
            && (forall e :: e in r ==> e in items && e.bssid != items[i].bssid)
            && |r| == |items| - 1
            && (forall j :: 0 <= j < i ==> r[j] == items[j])
            && (forall j :: i <= j < |r| ==> r[j] == items[j + 1])
  {
    var r := Without(items, i);
    assert forall j :: 0 <= j < |r| ==> r[j] == items[if j < i then j else j + 1];
    forall b | b != items[i].bssid && Listed(items, b)
      ensures Listed(r, b)
    {
      var j :| 0 <= j < |items| && items[j].bssid == b;
      assert r[if j < i then j else j - 1].bssid == b;
    }
  }
}
