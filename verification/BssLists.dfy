/** The two circular lists of the BSS table (wpa_supplicant/bss.c): every entry
    has a link on the list by use and one on the list by id, and the sequences of
    BssStore are what following these links gives. */
module BssLists {
  import opened BssStore
  import opened BssTable
  import opened BssTableInvariant
  import DlList

  /** An entry in memory: its two links, and its contents. */
  class Node {
    const list: DlList.Link
    const listId: DlList.Link
    const bss: Bss

    constructor (b: Bss)
      ensures fresh(list) && fresh(listId) && list != listId && bss == b
    {
      list := new DlList.Link();
      listId := new DlList.Link();
      bss := b;
    }
  }

  ghost function UseLinks(head: DlList.Link, nodes: seq<Node>): (r: seq<DlList.Link>)
    ensures |r| == |nodes| + 1 && r[0] == head && forall i :: 0 <= i < |nodes| ==> r[i + 1] == nodes[i].list
  {
    [head] + seq(|nodes|, i requires 0 <= i < |nodes| => nodes[i].list)
  }

  ghost function IdLinks(head: DlList.Link, nodes: seq<Node>): (r: seq<DlList.Link>)
    ensures |r| == |nodes| + 1 && r[0] == head && forall i :: 0 <= i < |nodes| ==> r[i + 1] == nodes[i].listId
  {
    [head] + seq(|nodes|, i requires 0 <= i < |nodes| => nodes[i].listId)
  }

  ghost predicate Apart(a: seq<DlList.Link>, b: seq<DlList.Link>) {
    forall l :: l in a ==> l !in b
  }

  /** The objects of the nodes, in order. */
  ghost predicate Carry(nodes: seq<Node>, s: seq<Bss>) {
    |nodes| == |s| && forall i :: 0 <= i < |s| ==> nodes[i].bss == s[i]
  }

  lemma LinksDropped(head: DlList.Link, nodes: seq<Node>, k: nat)
    requires k < |nodes|
    ensures DlList.Without(UseLinks(head, nodes), k + 1) == UseLinks(head, Drop(nodes, k))
    ensures DlList.Without(IdLinks(head, nodes), k + 1) == IdLinks(head, Drop(nodes, k))
  {
  }

  lemma LinksAdded(head: DlList.Link, nodes: seq<Node>, n: Node)
    ensures UseLinks(head, nodes) + [n.list] == UseLinks(head, nodes + [n])
    ensures IdLinks(head, nodes) + [n.listId] == IdLinks(head, nodes + [n])
  {
  }

  lemma LinksReplaced(head: DlList.Link, nodes: seq<Node>, k: nat, n: Node)
    requires k < |nodes|
    ensures DlList.WithAfter(IdLinks(head, Drop(nodes, k)), k, n.listId) == IdLinks(head, nodes[k := n])
  {
  }

  /** Takes a link out of one ring; a ring apart from it stays as it is. */
  method Unlink(item: DlList.Link, ghost links: seq<DlList.Link>, ghost k: nat, ghost others: seq<DlList.Link>)
    requires DlList.Ring(links) && 0 < k < |links| && item == links[k]
    requires DlList.Ring(others) && Apart(links, others)
    modifies links
    ensures DlList.Ring(DlList.Without(links, k)) && DlList.Ring(others)
    ensures Apart(DlList.Without(links, k), others)
  {
    assert forall i :: 0 <= i < |others| ==> others[i] !in links;
    DlList.Del(item, links, k);
  }

  /** Links an item behind the k-th link of one ring; a ring apart from both stays as it is. */
  method LinkBehind(prev: DlList.Link, item: DlList.Link, ghost links: seq<DlList.Link>, ghost k: nat,
                    ghost others: seq<DlList.Link>)
    requires DlList.Ring(links) && k < |links| && prev == links[k] && item !in links
    requires DlList.Ring(others) && Apart(links, others) && item !in others
    modifies links, item
    ensures DlList.Ring(DlList.WithAfter(links, k, item)) && DlList.Ring(others)
    ensures Apart(DlList.WithAfter(links, k, item), others)
  {
    assert forall i :: 0 <= i < |others| ==> others[i] !in links && others[i] != item;
    DlList.Add(prev, item, links, k);
  }

  method LinkTail(head: DlList.Link, item: DlList.Link, ghost links: seq<DlList.Link>,
                  ghost others: seq<DlList.Link>)
    requires DlList.Ring(links) && head == links[0] && item !in links
    requires DlList.Ring(others) && Apart(links, others) && item !in others
    modifies links, item
    ensures DlList.Ring(links + [item]) && DlList.Ring(others)
    ensures Apart(links + [item], others)
  {
    assert forall i :: 0 <= i < |others| ==> others[i] !in links && others[i] != item;
    DlList.AddTail(head, item, links);
  }

  lemma HeadOf(head: DlList.Link, nodes: seq<Node>)
    ensures UseLinks(head, nodes)[0] == head && IdLinks(head, nodes)[0] == head
  {
  }

  /** Where the link of a node stands, and that of its predecessor. */
  lemma LinkIn(head: DlList.Link, nodes: seq<Node>, j: nat)
    requires j < |nodes|
    ensures var ids := IdLinks(head, nodes);
            && |ids| == |nodes| + 1 && ids[j + 1] == nodes[j].listId
            && |IdLinks(head, Drop(nodes, j))| == |nodes| && IdLinks(head, Drop(nodes, j))[j] == ids[j]
  {
  }

  ghost function NodeAt(nodes: seq<Node>, n: Node): (k: nat)
    requires n in nodes
    ensures k < |nodes| && nodes[k] == n
  {
    var k :| 0 <= k < |nodes| && nodes[k] == n;
    k
  }

  lemma LinkedObjects(store: Store)
    requires store.Linked()
    ensures DistinctObjects(store.bss) && DistinctObjects(store.bssId)
  {
  }

  lemma CarryAt(nodes: seq<Node>, s: seq<Bss>, k: nat)
    requires Carry(nodes, s) && k < |nodes|
    ensures k < |s| && nodes[k].bss == s[k] && nodes[k].bss in s
  {
  }

  lemma CarryDropped(nodes: seq<Node>, s: seq<Bss>, k: nat)
    requires Carry(nodes, s) && DistinctObjects(s) && k < |nodes|
    ensures Carry(Drop(nodes, k), Without(s, nodes[k].bss))
  {
    hide Without;
    WithoutAt(s, k);
  }

  /** An entry dropped from both lists: what is left of the one is left of the other. */
  lemma DroppedFrom(a: seq<Node>, s: seq<Bss>, b: seq<Node>, i: nat, j: nat)
    requires Carry(a, s) && DistinctObjects(s) && i < |a| && j < |b| && a[i] == b[j]
    requires forall m :: m in a ==> m in b
    ensures forall m :: m in Drop(a, i) ==> m in Drop(b, j) && m != a[i]
  {
    forall m | m in Drop(a, i)
      ensures m in Drop(b, j) && m != a[i]
    {
      var k :| 0 <= k < |a| - 1 && Drop(a, i)[k] == m;
      assert m == a[if k < i then k else k + 1];
      var l := NodeAt(b, m);
      assert Drop(b, j)[if l < j then l else l - 1] == m;
    }
  }

  lemma CarryAdded(nodes: seq<Node>, s: seq<Bss>, n: Node)
    requires Carry(nodes, s)
    ensures Carry(nodes + [n], s + [n.bss])
  {
  }

  lemma CarryReplaced(nodes: seq<Node>, s: seq<Bss>, t: seq<Bss>, j: nat, r: Node)
    requires Carry(nodes, s) && DistinctObjects(s) && j < |nodes| && |t| == |s|
    requires forall k :: 0 <= k < |t| ==> t[k] == if s[k] == nodes[j].bss then r.bss else s[k]
    ensures Carry(nodes[j := r], t)
  {
  }

  /** After a move to the end both lists still carry the table's entries. */
  lemma MovedCarry(a: seq<Node>, s: seq<Bss>, i: nat, b: seq<Node>, t: seq<Bss>, t1: seq<Bss>, j: nat, r: Node)
    requires Carry(a, s) && Carry(b, t) && DistinctObjects(s) && DistinctObjects(t) && |t1| == |t|
    requires i < |a| && j < |b| && a[i] == b[j] && forall m :: m in a ==> m in b
    requires forall k :: 0 <= k < |t1| ==> t1[k] == if t[k] == b[j].bss then r.bss else t[k]
    ensures Carry(Drop(a, i) + [r], Without(s, a[i].bss) + [r.bss]) && Carry(b[j := r], t1)
    ensures forall m :: m in Drop(a, i) + [r] ==> m in b[j := r]
  {
    hide Carry, Without, DistinctObjects;
    CarryDropped(a, s, i);
    CarryAdded(Drop(a, i), Without(s, a[i].bss), r);
    CarryReplaced(b, t, t1, j, r);
    DroppedFrom(a, s, b, i, j);
    forall m | m in Drop(a, i) + [r]
      ensures m in b[j := r]
    {
      if m == r {
        assert b[j := r][j] == m;
      } else {
        assert m in Drop(a, i);
        var k :| 0 <= k < |b| - 1 && Drop(b, j)[k] == m;
        assert b[j := r][if k < j then k else k + 1] == m;
      }
    }
  }

  class Lists {
    const head: DlList.Link
    const headId: DlList.Link
    ghost var entries: seq<Node>
    ghost var byId: seq<Node>

    ghost function Uses(): seq<DlList.Link>
      reads this
    {
      UseLinks(head, entries)
    }

    ghost function Ids(): seq<DlList.Link>
      reads this
    {
      IdLinks(headId, byId)
    }

    /** Both rings are closed and share no link. */
    ghost predicate Valid()
      reads this, Uses(), Ids()
    {
      DlList.Ring(Uses()) && DlList.Ring(Ids()) && Apart(Uses(), Ids())
    }

    constructor ()
      ensures Valid() && entries == [] && byId == []
    {
      head := new DlList.Link();
      headId := new DlList.Link();
      entries, byId := [], [];
      new;
      DlList.Init(head);
      DlList.Init(headId);
      assert Uses() == [head] && Ids() == [headId];
    }

    /** Takes an entry off both lists. */
    method Remove(n: Node, ghost i: nat, ghost j: nat)
      requires Valid() && i < |entries| && entries[i] == n && j < |byId| && byId[j] == n
      modifies this, Uses(), Ids()
      ensures Valid() && entries == Drop(old(entries), i) && byId == Drop(old(byId), j)
    {
      hide DlList.Ring, UseLinks, IdLinks, DlList.Without, Apart;
      ghost var uses, ids := Uses(), Ids();
      LinksDropped(head, entries, i);
      LinksDropped(headId, byId, j);
      LinkOf(i, j);
      Unlink(n.list, uses, i + 1, ids);
      ApartSymmetric(DlList.Without(uses, i + 1), ids);
      Unlink(n.listId, ids, j + 1, DlList.Without(uses, i + 1));
      ApartSymmetric(DlList.Without(ids, j + 1), DlList.Without(uses, i + 1));
      entries, byId := Drop(entries, i), Drop(byId, j);
    }

    /** Links an entry at the end of both lists. */
    method Attach(n: Node)
      requires Valid() && n.list !in Uses() + Ids() && n.listId !in Uses() + Ids() && n.list != n.listId
      modifies this, Uses(), Ids(), n.list, n.listId
      ensures Valid() && entries == old(entries) + [n] && byId == old(byId) + [n]
    {
      hide DlList.Ring, UseLinks, IdLinks, Apart;
      ghost var uses, ids := Uses(), Ids();
      HeadsOf();
      LinksAdded(head, entries, n);
      LinksAdded(headId, byId, n);
      LinkTail(head, n.list, uses, ids);
      ApartSymmetric(uses + [n.list], ids);
      LinkTail(headId, n.listId, ids, uses + [n.list]);
      ApartSymmetric(ids + [n.listId], uses + [n.list]);
      entries, byId := entries + [n], byId + [n];
    }

    /** A new entry, linked at the end of both lists. */
    method Append(b: Bss) returns (n: Node)
      requires Valid()
      modifies this, Uses(), Ids()
      ensures Valid() && fresh(n) && n.bss == b
      ensures entries == old(entries) + [n] && byId == old(byId) + [n]
    {
      hide DlList.Ring, Apart;
      n := new Node(b);
      Attach(n);
    }

    /** Moves an entry to the end of the list by use. One that has to grow is taken
        off the list by id, reallocated and put behind its predecessor again; r is
        what it has become. */
    method Move(n: Node, r: Node, grows: bool, ghost i: nat, ghost j: nat)
      requires Valid() && i < |entries| && entries[i] == n && j < |byId| && byId[j] == n
      requires r == n || (grows && r.list !in Uses() + Ids() && r.listId !in Uses() + Ids() && r.list != r.listId)
      modifies this, Uses(), Ids(), r.list, r.listId
      ensures Valid() && entries == Drop(old(entries), i) + [r] && byId == old(byId)[j := r]
    {
      hide DlList.Ring, UseLinks, IdLinks, DlList.Without, DlList.WithAfter, Apart;
      ghost var uses, ids, ids1 := Uses(), Ids(), IdLinks(headId, byId[j := r]);
      ghost var rest := UseLinks(head, Drop(entries, i));
      LinkOf(i, j);
      LinksFree(n, r, i, j);
      assert forall k :: 0 <= k < |rest| ==> rest[k] in uses;
      LinksDropped(head, entries, i);
      Unlink(n.list, uses, i + 1, ids);
      if grows {
        Regrow(n, r, byId, j, rest);
      } else {
        assert byId[j := r] == byId;
      }
      HeadOf(head, Drop(entries, i));
      LinksAdded(head, Drop(entries, i), r);
      LinkTail(head, r.list, rest, ids1);
      entries, byId := Drop(entries, i) + [r], byId[j := r];
    }

    /** Off the list by id and back in behind the old predecessor, as r. */
    method Regrow(n: Node, r: Node, ghost nodes: seq<Node>, ghost j: nat, ghost others: seq<DlList.Link>)
      requires j < |nodes| && nodes[j] == n
      requires DlList.Ring(IdLinks(headId, nodes)) && DlList.Ring(others) && Apart(others, IdLinks(headId, nodes))
      requires r.listId !in IdLinks(headId, Drop(nodes, j)) && r.listId !in others
      modifies IdLinks(headId, nodes), r.listId
      ensures DlList.Ring(IdLinks(headId, nodes[j := r])) && DlList.Ring(others)
      ensures Apart(others, IdLinks(headId, nodes[j := r]))
    {
      hide DlList.Ring, IdLinks, DlList.Without, DlList.WithAfter, Apart;
      ghost var ids := IdLinks(headId, nodes);
      LinksDropped(headId, nodes, j);
      LinksReplaced(headId, nodes, j, r);
      LinkIn(headId, nodes, j);
      DlList.RingDistinct(ids);
      DlList.TakenOut(ids, j + 1);
      DlList.NextOf(ids, j + 1);
      var prev := n.listId.prev;
      ApartSymmetric(others, ids);
      Unlink(n.listId, ids, j + 1, others);
      LinkBehind(prev, r.listId, IdLinks(headId, Drop(nodes, j)), j, others);
      ApartSymmetric(IdLinks(headId, nodes[j := r]), others);
    }

    /** The links of what an entry becomes are on neither list once it is taken off. */
    lemma LinksFree(n: Node, r: Node, i: nat, j: nat)
      requires Valid() && i < |entries| && entries[i] == n && j < |byId| && byId[j] == n
      requires r == n || (r.list !in Uses() + Ids() && r.listId !in Uses() + Ids() && r.list != r.listId)
      ensures var uses, ids := UseLinks(head, Drop(entries, i)), IdLinks(headId, Drop(byId, j));
              && r.list !in uses && r.listId !in uses && r.listId !in ids
              && r.list !in IdLinks(headId, byId[j := r])
              && forall l :: l in uses ==> l in Uses()
    {
      var uses, ids := UseLinks(head, Drop(entries, i)), IdLinks(headId, Drop(byId, j));
      LinksDropped(head, entries, i);
      LinksDropped(headId, byId, j);
      DlList.RingDistinct(Uses());
      DlList.RingDistinct(Ids());
      hide DlList.Ring, DlList.Without;
      DlList.TakenOut(Uses(), i + 1);
      DlList.TakenOut(Ids(), j + 1);
      LinkOf(i, j);
      assert Uses()[i + 1] in Uses() && Ids()[j + 1] in Ids();
      assert r.list != r.listId;
      var ids1 := IdLinks(headId, byId[j := r]);
      assert forall k :: 0 <= k < |ids1| ==> ids1[k] == if k == j + 1 then r.listId else Ids()[k];
    }

    // ----- what the table does to its lists

    /** Both lists are those of the table: the same entries in the same order. */
    ghost predicate Holds(store: Store)
      reads this, store
    {
      Carry(entries, store.bss) && Carry(byId, store.bssId) && forall n :: n in entries ==> n in byId
    }

    /** Removing an entry from the table takes it off both lists. */
    method RemoveBss(store: Store, n: Node)
      requires Valid() && Holds(store) && store.Linked() && n in entries
      modifies this, Uses(), Ids(), store
      ensures Valid() && Holds(store) && store.Linked()
      ensures store.State() == BssTable.Remove(old(store.State()), old(n.bss.View()))
    {
      hide DlList.Ring, Apart, Sound, Carry, Drop, Without, Store.State, Store.Linked, DistinctObjects;
      ghost var i, j := NodeAt(entries, n), NodeAt(byId, n);
      LinkedObjects(store);
      CarryAt(entries, store.bss, i);
      CarryDropped(entries, store.bss, i);
      CarryDropped(byId, store.bssId, j);
      DroppedFrom(entries, store.bss, byId, i, j);
      store.RemoveBss(n.bss);
      Remove(n, i, j);
    }

    /** Adding an entry to the table links it at the end of both lists. */
    method LinkNew(store: Store, e: Entry) returns (n: Node)
      requires Valid() && Holds(store) && store.Linked()
      requires e.id == store.nextId && e.updateIdx == store.updateIdx
      requires forall f :: f in Views(store.bss) ==> f.bssid != e.bssid || f.ssid != e.ssid
      modifies this, Uses(), Ids(), store
      ensures Valid() && Holds(store) && store.Linked()
      ensures store.State() == BssTable.Append(old(store.State()), e) && entries == old(entries) + [n]
    {
      hide DlList.Ring, Apart, Sound, Carry, Store.State, Store.Linked, DistinctObjects, Views, BssTable.Append, Drop;
      ghost var nodes, ids, s, t := entries, byId, store.bss, store.bssId;
      store.LinkNew(e);
      assert store.bss == s + [store.bss[|s|]];
      n := Append(store.bss[|store.bss| - 1]);
      CarryAdded(nodes, s, n);
      CarryAdded(ids, t, n);
    }

    /** Updating an entry of the table moves it to the end of the list by use, and
        leaves it in its place on the list by id, as the node that it has become. */
    method MoveToEnd(store: Store, n: Node, res: ScanRes, now: Time, moves: bool) returns (r: Node)
      requires Valid() && Holds(store) && store.Valid() && n in entries && n.bss.bssid == res.bssid
      modifies this, Uses(), Ids(), store, n.bss
      ensures Valid() && Holds(store) && store.Valid()
      ensures store.State() == Update(old(store.State()), old(n.bss.View()), res, now, moves)
      ensures if Grows(old(n.bss.View()), res) && moves then fresh(r) else r == n
    {
      hide DlList.Ring, Apart, Sound, Inv, Carry, Drop, Without, Update, Store.State, Store.Linked, DistinctObjects;
      ghost var i, j := NodeAt(entries, n), NodeAt(byId, n);
      ghost var nodes, ids, s, t := entries, byId, store.bss, store.bssId;
      LinkedObjects(store);
      CarryAt(entries, store.bss, i);
      var grows := Grows(n.bss.View(), res);
      var nbss := store.MoveToEnd(n.bss, res, now, moves);
      r := Moved(n, nbss, grows, i, j);
      MovedCarry(nodes, s, i, ids, t, store.bssId, j, r);
    }

    method Moved(n: Node, nbss: Bss, grows: bool, ghost i: nat, ghost j: nat) returns (r: Node)
      requires Valid() && i < |entries| && entries[i] == n && j < |byId| && byId[j] == n
      requires nbss != n.bss ==> grows
      modifies this, Uses(), Ids()
      ensures Valid() && entries == Drop(old(entries), i) + [r] && byId == old(byId)[j := r]
      ensures r.bss == nbss && if nbss == n.bss then r == n else fresh(r)
    {
      hide DlList.Ring, Apart;
      r := n;
      LinkOf(i, j);
      if nbss != n.bss {
        r := new Node(nbss);
      }
      Move(n, r, grows, i, j);
    }

    lemma HeadsOf()
      ensures Uses()[0] == head && Ids()[0] == headId
    {
    }

    lemma LinkOf(i: nat, j: nat)
      requires i < |entries| && j < |byId|
      ensures |Uses()| == |entries| + 1 && Uses()[i + 1] == entries[i].list
      ensures |Ids()| == |byId| + 1 && Ids()[j + 1] == byId[j].listId
    {
    }
  }

  lemma ApartSymmetric(a: seq<DlList.Link>, b: seq<DlList.Link>)
    requires Apart(a, b)
    ensures Apart(b, a)
  {
  }
}
