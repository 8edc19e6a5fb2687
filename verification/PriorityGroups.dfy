/** The priority groups of the configured networks, on values
    (wpa_supplicant/config.c): how one is built, and that it is a stable sort. */
module PriorityGroups {
  import opened Networks

  type Groups = seq<seq<Network>>

  ghost predicate NonEmpty(groups: Groups) {
    forall g :: 0 <= g < |groups| ==> groups[g] != []
  }

  /** The first group from position g on whose head has the given priority. */
  function FindGroup(groups: Groups, priority: int, g: nat): (r: nat)
    requires g <= |groups| && NonEmpty(groups)
    ensures g <= r <= |groups|
    ensures r < |groups| ==> groups[r][0].priority == priority
    ensures forall h :: g <= h < r ==> groups[h][0].priority != priority
    decreases |groups| - g
  {
    if g == |groups| || groups[g][0].priority == priority then g else FindGroup(groups, priority, g + 1)
  }

  /** The first position from g on whose head has a lower priority. */
  function FindLower(groups: Groups, priority: int, g: nat): (r: nat)
    requires g <= |groups| && NonEmpty(groups)
    ensures g <= r <= |groups|
    ensures r < |groups| ==> groups[r][0].priority < priority
    ensures forall h :: g <= h < r ==> groups[h][0].priority >= priority
    decreases |groups| - g
  {
    if g == |groups| || groups[g][0].priority < priority then g else FindLower(groups, priority, g + 1)
  }

  function AddPrioNetwork(groups: Groups, n: Network): (r: Groups)
    requires NonEmpty(groups)
    ensures NonEmpty(r)
  {
    var g := FindGroup(groups, n.priority, 0);
    if g < |groups| then groups[g := groups[g] + [n]]
    else
      var p := FindLower(groups, n.priority, 0);
      Inserted(groups, p, [n])
  }

  /** The groups built from a network list by adding its networks in order. */
  function GroupsOf(nets: seq<Network>): (r: Groups)
    ensures NonEmpty(r)
  {
    if nets == [] then [] else AddPrioNetwork(GroupsOf(nets[..|nets| - 1]), nets[|nets| - 1])
  }

  // ----- the reference

  /** The networks of one priority, in list order. */
  function OfPriority(nets: seq<Network>, p: int): seq<Network> {
    if nets == [] then []
    else
      var last := nets[|nets| - 1];
      OfPriority(nets[..|nets| - 1], p) + if last.priority == p then [last] else []
  }

  ghost predicate Descending(nets: seq<Network>) {
    forall i, j :: 0 <= i < j < |nets| ==> nets[i].priority >= nets[j].priority
  }

  /** s is a stable descending sort of nets: in order of priority, with the
      networks of each priority as they are in nets. */
  ghost predicate StableSort(s: seq<Network>, nets: seq<Network>) {
    Descending(s) && SameByPriority(s, nets)
  }

  function Flatten(groups: Groups): seq<Network> {
    if groups == [] then [] else groups[0] + Flatten(groups[1..])
  }

  /** Heads strictly descend, and each group is all of its priority in list order. */
  ghost predicate Grouped(groups: Groups, nets: seq<Network>) {
    && NonEmpty(groups)
    && (forall g, h :: 0 <= g < h < |groups| ==> groups[g][0].priority > groups[h][0].priority)
    && (forall g :: 0 <= g < |groups| ==> groups[g] == OfPriority(nets, groups[g][0].priority))
    && (forall n :: n in nets ==> exists g :: 0 <= g < |groups| && groups[g][0].priority == n.priority)
  }

  lemma {:induction false} OfPriorityExact(nets: seq<Network>, p: int)
    ensures forall n :: n in OfPriority(nets, p) <==> n in nets && n.priority == p
  {
    if nets != [] {
      OfPriorityExact(nets[..|nets| - 1], p);
      assert nets == nets[..|nets| - 1] + [nets[|nets| - 1]];
    }
  }

  lemma {:induction false} OfPriorityEmpty(nets: seq<Network>, p: int)
    requires forall n :: n in nets ==> n.priority != p
    ensures OfPriority(nets, p) == []
  {
    if nets != [] {
      assert nets[|nets| - 1] in nets;
      OfPriorityEmpty(nets[..|nets| - 1], p);
    }
  }

  lemma OfPrioritySnoc(nets: seq<Network>, n: Network, p: int)
    ensures OfPriority(nets + [n], p) == OfPriority(nets, p) + if n.priority == p then [n] else []
  {
    assert (nets + [n])[..|nets|] == nets;
  }

  lemma AddToGroup(groups: Groups, nets: seq<Network>, n: Network, g: nat)
    requires Grouped(groups, nets) && g < |groups| && groups[g][0].priority == n.priority
    ensures Grouped(groups[g := groups[g] + [n]], nets + [n])
  {
    var r := groups[g := groups[g] + [n]];
    assert forall h :: 0 <= h < |r| ==> r[h][0] == groups[h][0];
    forall h | 0 <= h < |r|
      ensures r[h] == OfPriority(nets + [n], r[h][0].priority)
    {
      OfPrioritySnoc(nets, n, r[h][0].priority);
    }
    forall m | m in nets + [n]
      ensures exists h :: 0 <= h < |r| && r[h][0].priority == m.priority
    {
      if m == n {
        assert r[g][0].priority == m.priority;
      } else {
        var h :| 0 <= h < |groups| && groups[h][0].priority == m.priority;
        assert r[h][0].priority == m.priority;
      }
    }
  }

  function Inserted(groups: Groups, p: nat, group: seq<Network>): (r: Groups)
    requires p <= |groups|
    ensures |r| == |groups| + 1
    ensures forall h :: 0 <= h < |r| ==> r[h] == if h < p then groups[h] else if h == p then group else groups[h - 1]
  {
    groups[..p] + [group] + groups[p..]
  }

  lemma InsertedElements(groups: Groups, p: nat, group: seq<Network>)
    requires p <= |groups|
    ensures var r := Inserted(groups, p, group);
            && |r| == |groups| + 1
            && (forall h :: 0 <= h < p ==> r[h] == groups[h])
            && r[p] == group
            && (forall h :: p < h < |r| ==> r[h] == groups[h - 1])
  {
  }

  lemma AddNewGroup(groups: Groups, nets: seq<Network>, n: Network, p: nat)
    requires Grouped(groups, nets) && p <= |groups|
    requires forall g :: 0 <= g < |groups| ==> groups[g][0].priority != n.priority
    requires forall g :: 0 <= g < p ==> groups[g][0].priority >= n.priority
    requires p < |groups| ==> groups[p][0].priority < n.priority
    ensures Grouped(Inserted(groups, p, [n]), nets + [n])
  {
    hide OfPriority, Inserted;
    var r: Groups := Inserted(groups, p, [n]);
    InsertedElements(groups, p, [n]);
    forall m | m in nets
      ensures m.priority != n.priority
    {
      var g :| 0 <= g < |groups| && groups[g][0].priority == m.priority;
    }
    OfPriorityEmpty(nets, n.priority);
    forall h | 0 <= h < |r|
      ensures r[h] == OfPriority(nets + [n], r[h][0].priority)
    {
      OfPrioritySnoc(nets, n, r[h][0].priority);
    }
    forall m | m in nets + [n]
      ensures exists h :: 0 <= h < |r| && r[h][0].priority == m.priority
    {
      if m == n {
        assert r[p][0].priority == m.priority;
      } else {
        var g :| 0 <= g < |groups| && groups[g][0].priority == m.priority;
        assert r[if g < p then g else g + 1] == groups[g];
      }
    }
  }

  /** Adding networks one at a time groups them by priority. */
  lemma {:induction false} GroupsAreGrouped(nets: seq<Network>)
    ensures Grouped(GroupsOf(nets), nets)
  {
    hide Grouped;
    if nets == [] {
      EmptyGrouped();
    } else {
      var init, n := nets[..|nets| - 1], nets[|nets| - 1];
      var groups := GroupsOf(init);
      GroupsAreGrouped(init);
      assert nets == init + [n];
      var g := FindGroup(groups, n.priority, 0);
      if g < |groups| {
        AddToGroup(groups, init, n, g);
      } else {
        AddNewGroup(groups, init, n, FindLower(groups, n.priority, 0));
      }
    }
  }

  lemma EmptyGrouped()
    ensures Grouped([], [])
  {
  }

  // ----- the groups in a row

  lemma {:induction false} OfPriorityConcat(s: seq<Network>, t: seq<Network>, p: int)
    ensures OfPriority(s + t, p) == OfPriority(s, p) + OfPriority(t, p)
  {
    if t == [] {
      assert s + t == s;
    } else {
      var init, last := t[..|t| - 1], t[|t| - 1];
      OfPriorityConcat(s, init, p);
      assert s + t == (s + init) + [last];
      OfPrioritySnoc(s + init, last, p);
    }
  }

  lemma {:induction false} OfPriorityUniform(s: seq<Network>, p: int, q: int)
    requires forall n :: n in s ==> n.priority == p
    ensures OfPriority(s, q) == if p == q then s else []
  {
    if s != [] {
      OfPriorityUniform(s[..|s| - 1], p, q);
      assert s[|s| - 1] in s;
    }
  }

  /** Every group consists of networks with the priority of its head, and heads descend. */
  ghost predicate Layered(groups: Groups) {
    && NonEmpty(groups)
    && (forall g, n :: 0 <= g < |groups| && n in groups[g] ==> n.priority == groups[g][0].priority)
    && (forall g, h :: 0 <= g < h < |groups| ==> groups[g][0].priority > groups[h][0].priority)
  }

  lemma LayeredTail(groups: Groups)
    requires Layered(groups) && groups != []
    ensures Layered(groups[1..])
    ensures forall g :: 0 <= g < |groups| - 1 ==> groups[1..][g][0].priority < groups[0][0].priority
  {
    assert forall g :: 0 <= g < |groups| - 1 ==> groups[1..][g] == groups[g + 1];
  }

  lemma {:induction false} FlattenElements(groups: Groups, n: Network)
    requires Layered(groups) && n in Flatten(groups)
    ensures exists g :: 0 <= g < |groups| && n in groups[g] && n.priority == groups[g][0].priority
  {
    if n !in groups[0] {
      LayeredTail(groups);
      FlattenElements(groups[1..], n);
      var g :| 0 <= g < |groups| - 1 && n in groups[1..][g];
      assert n in groups[g + 1];
    }
  }

  lemma {:induction false} FlattenDescends(groups: Groups)
    requires Layered(groups)
    ensures Descending(Flatten(groups))
  {
    if groups != [] {
      LayeredTail(groups);
      FlattenDescends(groups[1..]);
      var rest := Flatten(groups[1..]);
      forall i | 0 <= i < |rest|
        ensures rest[i].priority < groups[0][0].priority
      {
        FlattenElements(groups[1..], rest[i]);
      }
      assert forall i :: 0 <= i < |groups[0]| ==> groups[0][i] in groups[0];
    }
  }

  lemma {:induction false} FlattenOfPriority(groups: Groups, g: nat)
    requires Layered(groups) && g < |groups|
    ensures OfPriority(Flatten(groups), groups[g][0].priority) == groups[g]
  {
    var p := groups[g][0].priority;
    LayeredTail(groups);
    OfPriorityConcat(groups[0], Flatten(groups[1..]), p);
    OfPriorityUniform(groups[0], groups[0][0].priority, p);
    if g > 0 {
      FlattenOfPriority(groups[1..], g - 1);
    } else {
      OfPriorityExact(Flatten(groups[1..]), p);
      var rest := OfPriority(Flatten(groups[1..]), p);
      if rest != [] {
        assert rest[0] in rest;
        FlattenElements(groups[1..], rest[0]);
      }
    }
  }

  /** The groups one after the other are a stable descending sort of the network list. */
  lemma FlattenIsStableSort(nets: seq<Network>)
    ensures StableSort(Flatten(GroupsOf(nets)), nets)
  {
    hide AddPrioNetwork;
    var groups: Groups := GroupsOf(nets);
    GroupsAreGrouped(nets);
    forall g, n | 0 <= g < |groups| && n in groups[g]
      ensures n.priority == groups[g][0].priority
    {
      OfPriorityExact(nets, groups[g][0].priority);
    }
    FlattenDescends(groups);
    forall p
      ensures OfPriority(Flatten(groups), p) == OfPriority(nets, p)
    {
      if g :| 0 <= g < |groups| && groups[g][0].priority == p {
        FlattenOfPriority(groups, g);
      } else {
        OfPriorityExact(nets, p);
        OfPriorityExact(Flatten(groups), p);
        NoSuchPriority(groups, nets, p);
      }
    }
  }

  lemma NoSuchPriority(groups: Groups, nets: seq<Network>, p: int)
    requires Grouped(groups, nets) && Layered(groups)
    requires forall g :: 0 <= g < |groups| ==> groups[g][0].priority != p
    ensures OfPriority(Flatten(groups), p) == [] && OfPriority(nets, p) == []
  {
    forall n | n in nets
      ensures n.priority != p
    {
      var g :| 0 <= g < |groups| && groups[g][0].priority == n.priority;
    }
    forall n | n in Flatten(groups)
      ensures n.priority != p
    {
      FlattenElements(groups, n);
    }
    OfPriorityEmpty(nets, p);
    OfPriorityEmpty(Flatten(groups), p);
  }

  lemma LastIsLowest(s: seq<Network>)
    requires Descending(s) && s != []
    ensures forall n :: n in s ==> n.priority >= s[|s| - 1].priority
    ensures Descending(s[..|s| - 1])
  {
  }

  ghost predicate SameByPriority(s: seq<Network>, t: seq<Network>) {
    forall p :: OfPriority(s, p) == OfPriority(t, p)
  }

  lemma SameElements(s: seq<Network>, t: seq<Network>, n: Network)
    requires SameByPriority(s, t) && n in s
    ensures n in t
  {
    OfPriorityExact(s, n.priority);
    OfPriorityExact(t, n.priority);
    assert n in OfPriority(s, n.priority);
  }

  lemma SameLast(s: seq<Network>, t: seq<Network>)
    requires SameByPriority(s, t) && s != [] && t != []
    requires s[|s| - 1].priority == t[|t| - 1].priority
    ensures s[|s| - 1] == t[|t| - 1]
    ensures SameByPriority(s[..|s| - 1], t[..|t| - 1])
  {
    var a, b, x, y := s[..|s| - 1], t[..|t| - 1], s[|s| - 1], t[|t| - 1];
    assert OfPriority(s, x.priority) == OfPriority(t, x.priority);
    assert (OfPriority(a, x.priority) + [x])[|OfPriority(a, x.priority)|] == x;
    forall p
      ensures OfPriority(a, p) == OfPriority(b, p)
    {
      assert OfPriority(s, p) == OfPriority(t, p);
      var c, d := if x.priority == p then [x] else [], if y.priority == p then [y] else [];
      assert (OfPriority(a, p) + c)[..|OfPriority(a, p)|] == OfPriority(a, p);
      assert (OfPriority(b, p) + d)[..|OfPriority(b, p)|] == OfPriority(b, p);
    }
  }

  /** There is only one stable descending sort, so nothing else could be meant. */
  lemma {:induction false} StableSortUnique(s: seq<Network>, t: seq<Network>)
    requires Descending(s) && Descending(t) && SameByPriority(s, t)
    ensures s == t
    decreases |s|
  {
    hide OfPriority, Descending, SameByPriority;
    if s == [] {
      if t != [] {
        SameFlipped(s, t);
        SameElements(t, s, t[0]);
      }
    } else {
      SameElements(s, t, s[|s| - 1]);
      SameFlipped(s, t);
      SameElements(t, s, t[|t| - 1]);
      LastIsLowest(s);
      LastIsLowest(t);
      SameLast(s, t);
      StableSortUnique(s[..|s| - 1], t[..|t| - 1]);
    }
  }

  lemma SameFlipped(s: seq<Network>, t: seq<Network>)
    requires SameByPriority(s, t)
    ensures SameByPriority(t, s)
  {
  }
}
