/** The configured networks as the program keeps them (wpa_supplicant/config.c):
    objects on a list, an array of group heads, and the pnext pointers that
    chain the networks of one priority. */
module NetworkList {
  import opened Networks
  import opened PriorityGroups
  import opened Wrappers

  class Ssid {
    const id: nat
    var priority: int
    var settings: Settings
    var pnext: Ssid?

    constructor (i: nat, p: int, s: Settings)
      ensures id == i && View() == Network(i, p, s) && pnext == null
    {
      id, priority, settings, pnext := i, p, s, null;
    }

    function View(): Network
      reads this`priority, this`settings
    {
      Network(id, priority, settings)
    }
  }

  ghost function ViewOf(s: seq<Ssid>): (r: seq<Network>)
    reads s`priority, s`settings
    ensures |r| == |s| && forall i :: 0 <= i < |s| ==> r[i] == s[i].View()
  {
    if s == [] then [] else [s[0].View()] + ViewOf(s[1..])
  }

  ghost predicate Distinct(s: seq<Ssid>) {
    forall i, j :: 0 <= i < j < |s| ==> s[i] != s[j]
  }

  /** Every network is at most once on at most one chain. */
  ghost predicate OnceChained(chains: seq<seq<Ssid>>) {
    forall g, i, h, j :: 0 <= g < |chains| && 0 <= i < |chains[g]| && 0 <= h < |chains| && 0 <= j < |chains[h]| ==>
      chains[g][i] == chains[h][j] ==> g == h && i == j
  }

  ghost predicate NotChained(chains: seq<seq<Ssid>>, b: Ssid) {
    forall g, i :: 0 <= g < |chains| && 0 <= i < |chains[g]| ==> chains[g][i] != b
  }

  /** The chains consist of nodes and hold networks with the given values. */
  ghost predicate Holds(chains: seq<seq<Ssid>>, groups: Groups, nodes: seq<Ssid>)
    reads nodes
  {
    && |groups| == |chains|
    && (forall g :: 0 <= g < |chains| ==> |groups[g]| == |chains[g]| > 0)
    && (forall g, i :: 0 <= g < |chains| && 0 <= i < |chains[g]| ==>
          chains[g][i] in nodes && groups[g][i] == chains[g][i].View())
  }

  /** The pnext pointers of a list of networks. */
  ghost function Pnexts(nodes: seq<Ssid>): (m: map<Ssid, Ssid?>)
    reads nodes
    ensures forall b :: b in nodes ==> b in m && m[b] == b.pnext
    ensures forall b :: b in m ==> b in nodes
  {
    map b | b in nodes :: b.pnext
  }

  ghost function Successor(chain: seq<Ssid>, i: nat): Ssid? {
    if i + 1 < |chain| then chain[i + 1] else null
  }

  /** Following pnext goes along the chains, and ends with them. */
  ghost predicate Threaded(chains: seq<seq<Ssid>>, next: map<Ssid, Ssid?>) {
    forall g, i :: 0 <= g < |chains| && 0 <= i < |chains[g]| ==>
      chains[g][i] in next && next[chains[g][i]] == Successor(chains[g], i)
  }

  class Config {
    var networks: seq<Ssid>
    var pssid: seq<Ssid>
    ghost var chains: seq<seq<Ssid>>
    ghost var groups: Groups

    /** The array holds the heads of the chains, which are those of the groups. */
    ghost predicate Chained()
      reads this, networks
    {
      && Distinct(networks)
      && Holds(chains, groups, networks)
      && OnceChained(chains)
      && Threaded(chains, Pnexts(networks))
      && |pssid| == |chains|
      && (forall g :: 0 <= g < |chains| ==> pssid[g] == chains[g][0])
    }

    /** Walks to the end of a chain. */
    method FindTail(g: nat) returns (prev: Ssid, ghost k: nat)
      requires Chained() && g < |chains|
      ensures k + 1 == |chains[g]| && prev == chains[g][k] && prev in networks
    {
      hide OnceChained, Distinct;
      prev, k := pssid[g], 0;
      assert Pnexts(networks)[chains[g][k]] == Successor(chains[g], k);
      while prev.pnext != null
        invariant 0 <= k < |chains[g]| && prev == chains[g][k]
        invariant prev.pnext == Successor(chains[g], k)
        decreases |chains[g]| - k
      {
        prev, k := prev.pnext, k + 1;
        assert Pnexts(networks)[chains[g][k]] == Successor(chains[g], k);
      }
    }

    /** Links the network behind the last one of a chain. */
    method AppendToChain(g: nat, ssid: Ssid)
      requires Chained() && g < |chains| && ssid in networks && ssid.pnext == null
      requires NotChained(chains, ssid)
      modifies this`chains, this`groups, networks`pnext
      ensures Chained()
      ensures chains == old(chains)[g := old(chains)[g] + [ssid]]
      ensures groups == old(groups)[g := old(groups)[g] + [ssid.View()]]
      ensures forall b :: NotChained(old(chains), b) && b != ssid ==> NotChained(chains, b)
      ensures ViewOf(networks) == old(ViewOf(networks))
    {
      hide OnceChained, Distinct, ViewOf, Threaded;
      ghost var cs, next := chains, Pnexts(networks);
      var prev, k := FindTail(g);
      AppendOnce(cs, g, ssid, k);
      LinkTail(cs, next, g, k, ssid);
      prev.pnext := ssid;
      assert Pnexts(networks) == next[prev := ssid];
      assert Holds(cs, groups, networks);
      HoldsTail(cs, groups, networks, g, ssid);
      chains := cs[g := cs[g] + [ssid]];
      groups := groups[g := groups[g] + [ssid.View()]];
      assert Threaded(chains, Pnexts(networks));
      assert forall h :: 0 <= h < |pssid| ==> pssid[h] == chains[h][0];
    }

    /** Makes the network the head of a new chain at position g. */
    method InsertChain(g: nat, ssid: Ssid)
      requires Chained() && g <= |chains| && ssid in networks && ssid.pnext == null
      requires NotChained(chains, ssid)
      modifies this`pssid, this`chains, this`groups
      ensures Chained()
      ensures chains == InsertAt<seq<Ssid>>(old(chains), g, [ssid])
      ensures groups == Inserted(old(groups), g, [ssid.View()])
      ensures forall b :: NotChained(old(chains), b) && b != ssid ==> NotChained(chains, b)
      ensures ViewOf(networks) == old(ViewOf(networks))
    {
      hide Distinct, OnceChained, Threaded, ViewOf, NotChained, InsertAt, Inserted;
      InsertHolds(chains, groups, networks, g, ssid);
      InsertHeads(pssid, chains, g, ssid);
      InsertOnce(chains, g, ssid);
      InsertThreaded(chains, Pnexts(networks), g, ssid);
      InsertNotChained(chains, g, ssid);
      hide Holds;
      pssid := InsertAt<Ssid>(pssid, g, ssid);
      chains := InsertAt<seq<Ssid>>(chains, g, [ssid]);
      groups := Inserted(groups, g, [ssid.View()]);
    }

    lemma NothingChained()
      requires Distinct(networks) && pssid == [] && chains == [] && groups == []
      ensures Chained() && NonEmpty(groups)
      ensures forall b :: NotChained(chains, b)
    {
    }

    /** Adds a network to the chain of its priority, or starts one in priority order. */
    method AddPrioNetwork(ssid: Ssid)
      requires Chained() && NonEmpty(groups)
      requires ssid in networks && ssid.pnext == null && NotChained(chains, ssid)
      modifies this`pssid, this`chains, this`groups, networks`pnext
      ensures Chained() && NonEmpty(groups)
      ensures groups == PriorityGroups.AddPrioNetwork(old(groups), ssid.View())
      ensures ViewOf(networks) == old(ViewOf(networks))
      ensures forall b :: NotChained(old(chains), b) && b != ssid ==> NotChained(chains, b)
    {
      hide Chained, NotChained, ViewOf;
      CountChains();
      var prio := FindChain(ssid.priority);
      if prio < |pssid| {
        AppendToChain(prio, ssid);
      } else {
        prio := FindPlace(ssid.priority);
        InsertChain(prio, ssid);
      }
    }

    /** The first chain of a priority. */
    method FindChain(priority: int) returns (prio: nat)
      requires Chained() && NonEmpty(groups)
      ensures prio == FindGroup(groups, priority, 0)
    {
      hide OnceChained, Distinct, Threaded;
      prio := 0;
      while prio < |pssid|
        invariant 0 <= prio <= |pssid|
        invariant FindGroup(groups, priority, 0) == FindGroup(groups, priority, prio)
      {
        assert groups[prio][0] == pssid[prio].View();
        if pssid[prio].priority == priority {
          return;
        }
        prio := prio + 1;
      }
    }

    /** The first chain of a lower priority. */
    method FindPlace(priority: int) returns (prio: nat)
      requires Chained() && NonEmpty(groups)
      ensures prio == FindLower(groups, priority, 0)
    {
      hide OnceChained, Distinct, Threaded;
      prio := 0;
      while prio < |pssid|
        invariant 0 <= prio <= |pssid|
        invariant FindLower(groups, priority, 0) == FindLower(groups, priority, prio)
      {
        assert groups[prio][0] == pssid[prio].View();
        if pssid[prio].priority < priority {
          return;
        }
        prio := prio + 1;
      }
    }

    lemma CountChains()
      requires Chained()
      ensures |pssid| == |chains| == |groups|
    {
    }

    /** Clears the pointer of a network that is on no chain. */
    method Unchain(ssid: Ssid)
      requires Chained() && ssid in networks && NotChained(chains, ssid)
      modifies ssid`pnext
      ensures Chained() && ssid.pnext == null
      ensures ViewOf(networks) == old(ViewOf(networks))
    {
      hide OnceChained, Distinct, Threaded;
      ghost var next := Pnexts(networks);
      ThreadedElsewhere(chains, next, ssid);
      ssid.pnext := null;
      assert Pnexts(networks) == next[ssid := null];
    }

    /** Rebuilds all groups from the network list. */
    method UpdatePrioList()
      requires Distinct(networks)
      modifies this`pssid, this`chains, this`groups, networks`pnext
      ensures Chained() && groups == GroupsOf(ViewOf(networks))
    {
      hide Chained, NotChained, NonEmpty, ViewOf, Distinct, PriorityGroups.AddPrioNetwork;
      ghost var views := ViewOf(networks);
      ViewOfAt(networks);
      pssid, chains, groups := [], [], [];
      NothingChained();
      assert views[..0] == [];
      var i := 0;
      while i < |networks|
        invariant 0 <= i <= |networks| && networks == old(networks)
        invariant Chained() && NonEmpty(groups)
        invariant ViewOf(networks) == views
        invariant groups == GroupsOf(views[..i])
        invariant forall j :: i <= j < |networks| ==> NotChained(chains, networks[j])
      {
        var ssid := networks[i];
        DistinctAt(networks, i);
        ViewOfAt(networks);
        Unchain(ssid);
        AddPrioNetwork(ssid);
        ViewOfAt(networks);
        assert views[..i + 1][..i] == views[..i];
        i := i + 1;
      }
      assert views[..i] == views;
    }

    ghost predicate Valid()
      reads this, networks
    {
      && Chained() && UniqueIds(ViewOf(networks))
      && groups == GroupsOf(ViewOf(networks))
    }

    constructor ()
      ensures Valid() && networks == []
    {
      networks, pssid, chains, groups := [], [], [], [];
    }

    /** Adds a network with the next free id and empty settings. */
    method AddNetwork() returns (ssid: Ssid)
      requires Valid()
      modifies this, networks`pnext
      ensures Valid() && fresh(ssid) && networks == old(networks) + [ssid]
      ensures ViewOf(networks) == old(ViewOf(networks)) + [Network(NextId(old(ViewOf(networks))), 0, EMPTY)]
    {
      hide ViewOf, Chained, GroupsOf;
      ghost var views := ViewOf(networks);
      var id: int := -1;
      var i := 0;
      while i < |networks|
        invariant 0 <= i <= |networks| && -1 <= id
        invariant id == MaxId(views[..i])
      {
        assert views[..i + 1][..i] == views[..i];
        if networks[i].id > id {
          id := networks[i].id;
        }
        i := i + 1;
      }
      assert views[..i] == views;
      id := id + 1;
      ssid := new Ssid(id, 0, EMPTY);
      DistinctNetworks();
      NextIdUnused(views, Network(id, 0, EMPTY));
      ViewOfSnoc(networks, ssid);
      networks := networks + [ssid];
      UpdatePrioList();
    }

    /** Removes the network with an id; false when there is none. */
    method RemoveNetwork(id: int) returns (ok: bool)
      requires Valid()
      modifies this, networks`pnext
      ensures Valid()
      ensures ok <==> exists n :: n in old(ViewOf(networks)) && n.id == id
      ensures ViewOf(networks) == WithoutId(old(ViewOf(networks)), id)
    {
      hide Chained, GroupsOf, UniqueIds, WithoutId, ViewOf, Distinct;
      ghost var views := ViewOf(networks);
      var i := FindId(id);
      HasIdAt(views, id, i);
      WithoutIdAt(views, id, i);
      if i == |networks| {
        return false;
      }
      DistinctNetworks();
      DropAt(i);
      UniqueWithout(views, i);
      UpdatePrioList();
      return true;
    }

    method DropAt(i: nat)
      requires Distinct(networks) && i < |networks|
      modifies this`networks
      ensures Distinct(networks)
      ensures forall k :: 0 <= k < |networks| ==> networks[k] in old(networks)
      ensures ViewOf(networks) == old(ViewOf(networks)[..i] + ViewOf(networks)[i + 1..])
    {
      ghost var views := ViewOf(networks);
      networks := networks[..i] + networks[i + 1..];
      assert ViewOf(networks) == views[..i] + views[i + 1..];
    }

    /** The position of the network with an id, or the length of the list. */
    method FindId(id: int) returns (i: nat)
      ensures |ViewOf(networks)| == |networks|
      ensures i <= |networks| && forall j :: 0 <= j < i ==> ViewOf(networks)[j].id != id
      ensures i < |networks| ==> ViewOf(networks)[i].id == id
    {
      i := 0;
      while i < |networks|
        invariant 0 <= i <= |networks|
        invariant forall j :: 0 <= j < i ==> networks[j].id != id
      {
        if networks[i].id == id {
          return;
        }
        i := i + 1;
      }
    }

    /** Changes a priority and rebuilds the groups. */
    method SetPriority(ssid: Ssid, priority: int)
      requires Valid() && ssid in networks
      modifies this, networks
      ensures Valid() && networks == old(networks)
      ensures ssid.View() == old(ssid.View()).(priority := priority)
      ensures forall b :: b in networks && b != ssid ==> b.View() == old(b.View())
    {
      hide Chained, GroupsOf;
      ghost var views := ViewOf(networks);
      DistinctNetworks();
      ssid.priority := priority;
      SameIdsUnique(views, ViewOf(networks));
      UpdatePrioList();
    }

    lemma DistinctNetworks()
      requires Chained()
      ensures Distinct(networks)
    {
    }
  }

  const EMPTY := Settings(false, [], None, 0, 0, 0, 0, [[], [], [], []], 0, 0, false, None)

  ghost predicate UniqueIds(nets: seq<Network>) {
    forall i, j :: 0 <= i < j < |nets| ==> nets[i].id != nets[j].id
  }

  function MaxId(nets: seq<Network>): (r: int)
    ensures -1 <= r
  {
    if nets == [] then -1
    else
      var m, last := MaxId(nets[..|nets| - 1]), nets[|nets| - 1].id;
      if last > m then last else m
  }

  function NextId(nets: seq<Network>): nat {
    MaxId(nets) + 1
  }

  function WithoutId(nets: seq<Network>, id: int): seq<Network> {
    if nets == [] then []
    else (if nets[0].id == id then [] else [nets[0]]) + WithoutId(nets[1..], id)
  }

  lemma {:induction false} MaxIdBound(nets: seq<Network>)
    ensures forall i :: 0 <= i < |nets| ==> nets[i].id <= MaxId(nets)
  {
    if nets != [] {
      MaxIdBound(nets[..|nets| - 1]);
      assert forall i :: 0 <= i < |nets| - 1 ==> nets[..|nets| - 1][i] == nets[i];
    }
  }

  /** The id of an added network is 0 for the first, and else one more than the
      greatest id on the list. */
  lemma {:induction false} NextIdExact(nets: seq<Network>)
    ensures nets == [] ==> NextId(nets) == 0
    ensures nets != [] && (forall n :: n in nets ==> n.id >= 0) ==> exists n :: n in nets && n.id + 1 == NextId(nets)
    ensures forall n :: n in nets ==> n.id < NextId(nets)
  {
    if nets != [] {
      var front, last := nets[..|nets| - 1], nets[|nets| - 1];
      NextIdExact(front);
      assert nets == front + [last];
      if forall n :: n in nets ==> n.id >= 0 {
        assert last in nets;
        if last.id <= MaxId(front) {
          assert front != [] && forall n :: n in front ==> n in nets;
          var n :| n in front && n.id + 1 == NextId(front);
          assert n in nets;
        }
      }
    }
  }

  /** An added network gets an id that no listed one has. */
  lemma NextIdUnused(nets: seq<Network>, n: Network)
    requires UniqueIds(nets) && n.id == NextId(nets)
    ensures UniqueIds(nets + [n])
  {
    MaxIdBound(nets);
  }

  lemma HasIdAt(nets: seq<Network>, id: int, i: nat)
    requires i <= |nets| && (forall j :: 0 <= j < i ==> nets[j].id != id) && (i < |nets| ==> nets[i].id == id)
    ensures i < |nets| <==> exists n :: n in nets && n.id == id
  {
    if i < |nets| {
      assert nets[i] in nets;
    }
  }

  lemma WithoutIdAt(nets: seq<Network>, id: int, i: nat)
    requires i <= |nets| && forall j :: 0 <= j < i ==> nets[j].id != id
    requires i < |nets| ==> nets[i].id == id && UniqueIds(nets)
    ensures WithoutId(nets, id) == if i < |nets| then nets[..i] + nets[i + 1..] else nets
  {
    hide WithoutId;
    if i == |nets| {
      WithoutIdNone(nets, id);
    } else {
      WithoutIdParts(nets[..i], nets[i], nets[i + 1..], id);
      assert nets == nets[..i] + ([nets[i]] + nets[i + 1..]);
    }
  }

  lemma {:induction false} WithoutIdParts(a: seq<Network>, n: Network, b: seq<Network>, id: int)
    requires n.id == id
    requires (forall j :: 0 <= j < |a| ==> a[j].id != id) && forall j :: 0 <= j < |b| ==> b[j].id != id
    ensures WithoutId(a + ([n] + b), id) == a + b
  {
    if a == [] {
      WithoutIdNone(b, id);
      assert a + ([n] + b) == [n] + b && ([n] + b)[1..] == b && a + b == b;
    } else {
      WithoutIdParts(a[1..], n, b, id);
      assert (a + ([n] + b))[1..] == a[1..] + ([n] + b);
      assert [a[0]] + (a[1..] + b) == a + b;
    }
  }

  lemma {:induction false} WithoutIdNone(nets: seq<Network>, id: int)
    requires forall j :: 0 <= j < |nets| ==> nets[j].id != id
    ensures WithoutId(nets, id) == nets
  {
    if nets != [] {
      WithoutIdNone(nets[1..], id);
    }
  }

  lemma UniqueWithout(nets: seq<Network>, i: nat)
    requires UniqueIds(nets) && i < |nets|
    ensures UniqueIds(nets[..i] + nets[i + 1..])
  {
    var r := nets[..i] + nets[i + 1..];
    assert forall k :: 0 <= k < |r| ==> r[k] == nets[if k < i then k else k + 1];
  }

  lemma SameIdsUnique(a: seq<Network>, b: seq<Network>)
    requires UniqueIds(a) && |a| == |b| && forall i :: 0 <= i < |a| ==> a[i].id == b[i].id
    ensures UniqueIds(b)
  {
  }

  lemma ViewOfAt(s: seq<Ssid>)
    ensures |ViewOf(s)| == |s| && forall i :: 0 <= i < |s| ==> ViewOf(s)[i] == s[i].View()
  {
  }

  lemma ViewOfSnoc(s: seq<Ssid>, b: Ssid)
    ensures ViewOf(s + [b]) == ViewOf(s) + [b.View()]
  {
  }

  lemma DistinctAt(s: seq<Ssid>, i: nat)
    requires Distinct(s) && i < |s|
    ensures forall j :: 0 <= j < |s| && j != i ==> s[j] != s[i]
  {
  }

  /** The pointer of a network on no chain does not matter. */
  lemma ThreadedElsewhere(chains: seq<seq<Ssid>>, next: map<Ssid, Ssid?>, b: Ssid)
    requires Threaded(chains, next) && NotChained(chains, b)
    ensures Threaded(chains, next[b := null])
  {
  }

  /** Linking a network behind the last one of a chain extends that chain. */
  lemma LinkTail(chains: seq<seq<Ssid>>, next: map<Ssid, Ssid?>, g: nat, k: nat, ssid: Ssid)
    requires Threaded(chains, next) && OnceChained(chains) && NotChained(chains, ssid)
    requires g < |chains| && k + 1 == |chains[g]|
    requires ssid in next && next[ssid] == null
    ensures Threaded(chains[g := chains[g] + [ssid]], next[chains[g][k] := ssid])
  {
    var r := chains[g := chains[g] + [ssid]];
    var prev := chains[g][k];
    forall h, i | 0 <= h < |r| && 0 <= i < |r[h]|
      ensures r[h][i] in next
      ensures next[prev := ssid][r[h][i]] == Successor(r[h], i)
    {
      if h == g && i == k + 1 {
        assert r[h][i] == ssid != prev;
      } else {
        assert r[h][i] == chains[h][i] && chains[h][i] in next;
        assert next[chains[h][i]] == Successor(chains[h], i);
        assert chains[h][i] == prev ==> h == g && i == k;
        assert i + 1 < |chains[h]| ==> r[h][i + 1] == chains[h][i + 1];
      }
    }
  }

  lemma HoldsTail(chains: seq<seq<Ssid>>, groups: Groups, nodes: seq<Ssid>, g: nat, ssid: Ssid)
    requires Holds(chains, groups, nodes) && g < |chains| && ssid in nodes
    ensures Holds(chains[g := chains[g] + [ssid]], groups[g := groups[g] + [ssid.View()]], nodes)
  {
  }

  lemma InsertThreaded(chains: seq<seq<Ssid>>, next: map<Ssid, Ssid?>, p: nat, b: Ssid)
    requires Threaded(chains, next) && p <= |chains| && b in next && next[b] == null
    ensures Threaded(InsertAt<seq<Ssid>>(chains, p, [b]), next)
  {
    var r := InsertAt<seq<Ssid>>(chains, p, [b]);
    forall h, i | 0 <= h < |r| && 0 <= i < |r[h]|
      ensures r[h][i] in next && next[r[h][i]] == Successor(r[h], i)
    {
      assert r[h] == if h < p then chains[h] else if h == p then [b] else chains[h - 1];
      var h' := if h < p then h else h - 1;
      if h != p {
        assert chains[h'][i] in next;
        assert next[chains[h'][i]] == Successor(chains[h'], i);
      }
    }
  }

  function InsertAt<T>(s: seq<T>, p: nat, x: T): seq<T>
    requires p <= |s|
  {
    s[..p] + [x] + s[p..]
  }

  lemma InsertedAt<T>(s: seq<T>, p: nat, x: T)
    requires p <= |s|
    ensures |InsertAt(s, p, x)| == |s| + 1
    ensures forall k :: 0 <= k <= |s| ==>
              InsertAt(s, p, x)[k] == if k < p then s[k] else if k == p then x else s[k - 1]
  {
  }

  lemma InsertHolds(chains: seq<seq<Ssid>>, groups: Groups, nodes: seq<Ssid>, p: nat, b: Ssid)
    requires Holds(chains, groups, nodes) && p <= |chains| && b in nodes
    ensures Holds(InsertAt<seq<Ssid>>(chains, p, [b]), Inserted(groups, p, [b.View()]), nodes)
  {
    InsertedAt<seq<Ssid>>(chains, p, [b]);
  }

  lemma InsertHeads(heads: seq<Ssid>, chains: seq<seq<Ssid>>, p: nat, b: Ssid)
    requires |heads| == |chains| && p <= |chains|
    requires forall g :: 0 <= g < |chains| ==> |chains[g]| > 0 && heads[g] == chains[g][0]
    ensures var hs, cs := InsertAt<Ssid>(heads, p, b), InsertAt<seq<Ssid>>(chains, p, [b]);
            |hs| == |cs| && forall g :: 0 <= g < |cs| ==> |cs[g]| > 0 && hs[g] == cs[g][0]
  {
    InsertedAt<Ssid>(heads, p, b);
    InsertedAt<seq<Ssid>>(chains, p, [b]);
  }

  lemma InsertNotChained(chains: seq<seq<Ssid>>, p: nat, b: Ssid)
    requires p <= |chains|
    ensures forall x :: NotChained(chains, x) && x != b ==> NotChained(InsertAt<seq<Ssid>>(chains, p, [b]), x)
  {
    InsertedAt<seq<Ssid>>(chains, p, [b]);
  }

  lemma InsertOnce(chains: seq<seq<Ssid>>, p: nat, b: Ssid)
    requires OnceChained(chains) && NotChained(chains, b) && p <= |chains|
    ensures OnceChained(InsertAt<seq<Ssid>>(chains, p, [b]))
  {
    InsertedAt<seq<Ssid>>(chains, p, [b]);
    var r := InsertAt<seq<Ssid>>(chains, p, [b]);
    forall g, i, h, j | 0 <= g < |r| && 0 <= i < |r[g]| && 0 <= h < |r| && 0 <= j < |r[h]| && r[g][i] == r[h][j]
      ensures g == h && i == j
    {
      var g', h' := if g < p then g else g - 1, if h < p then h else h - 1;
      assert g != p ==> r[g][i] == chains[g'][i];
      assert h != p ==> r[h][j] == chains[h'][j];
    }
  }

  /** Extending a chain by a network that is on none. */
  lemma AppendOnce(chains: seq<seq<Ssid>>, p: nat, b: Ssid, k: nat)
    requires OnceChained(chains) && NotChained(chains, b) && p < |chains| && k + 1 == |chains[p]|
    ensures OnceChained(chains[p := chains[p] + [b]])
  {
    var r := chains[p := chains[p] + [b]];
    forall g, i, h, j | 0 <= g < |r| && 0 <= i < |r[g]| && 0 <= h < |r| && 0 <= j < |r[h]| && r[g][i] == r[h][j]
      ensures g == h && i == j
    {
      assert !(g == p && i == k + 1) ==> r[g][i] == chains[g][i];
      assert !(h == p && j == k + 1) ==> r[h][j] == chains[h][j];
    }
  }
}
