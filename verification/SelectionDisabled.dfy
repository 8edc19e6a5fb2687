/** Disabled networks and the choice of a network (wpa_supplicant/events.c): with
    them or without them the same is chosen. */
module SelectionDisabled {
  import opened BssTable
  import opened InfoElements
  import opened Matching
  import opened Networks
  import opened PriorityGroups
  import opened Selection
  import opened Wrappers

  /** The networks that are not disabled. */
  function Enabled(nets: seq<Network>): seq<Network> {
    if nets == [] then []
    else Enabled(nets[..|nets| - 1]) + if nets[|nets| - 1].settings.disabled then [] else [nets[|nets| - 1]]
  }

  lemma {:induction false} EnabledConcat(s: seq<Network>, t: seq<Network>)
    ensures Enabled(s + t) == Enabled(s) + Enabled(t)
    decreases |t|
  {
    if t == [] {
      assert s + t == s;
    } else {
      var init, last := t[..|t| - 1], t[|t| - 1];
      EnabledConcat(s, init);
      assert (s + t)[..|s + t| - 1] == s + init;
    }
  }

  lemma EnabledFront(nets: seq<Network>)
    requires nets != []
    ensures Enabled(nets) == (if nets[0].settings.disabled then [] else [nets[0]]) + Enabled(nets[1..])
  {
    EnabledConcat([nets[0]], nets[1..]);
    assert nets == [nets[0]] + nets[1..] && [nets[0]][..0] == [];
  }

  lemma EnabledSnoc(nets: seq<Network>, n: Network)
    ensures Enabled(nets + [n]) == Enabled(nets) + if n.settings.disabled then [] else [n]
    ensures EnabledCount(nets + [n]) == EnabledCount(nets) + if n.settings.disabled then 0 else 1
  {
    assert (nets + [n])[..|nets|] == nets;
  }

  lemma {:induction false} EnabledExact(nets: seq<Network>)
    ensures forall n :: n in Enabled(nets) <==> n in nets && !n.settings.disabled
    ensures EnabledCount(nets) == |Enabled(nets)| && EnabledCount(Enabled(nets)) == |Enabled(nets)|
  {
    if nets != [] {
      var init, last := nets[..|nets| - 1], nets[|nets| - 1];
      EnabledExact(init);
      assert nets == init + [last];
      EnabledSnoc(init, last);
      EnabledSnoc(Enabled(init), last);
      assert Enabled(init) + [] == Enabled(init);
    }
  }

  lemma {:induction false} EnabledOfPriority(nets: seq<Network>, p: int)
    ensures OfPriority(Enabled(nets), p) == Enabled(OfPriority(nets, p))
  {
    if nets != [] {
      var init, last := nets[..|nets| - 1], nets[|nets| - 1];
      assert nets == init + [last];
      EnabledOfPriority(init, p);
      hide Enabled, OfPriority;
      EnabledSnoc(init, last);
      OfPrioritySnoc(init, last, p);
      OfPrioritySnoc(Enabled(init), last, p);
      EnabledSnoc(OfPriority(init, p), last);
      Nothing(OfPriority(init, p));
      Nothing(Enabled(init));
      Nothing(Enabled(OfPriority(init, p)));
    }
  }

  lemma Nothing(s: seq<Network>)
    ensures s + [] == s
  {
  }

  lemma EnabledAround(a: seq<Network>, n: Network, b: seq<Network>)
    requires n.settings.disabled
    ensures Enabled(a + [n] + b) == Enabled(a + b)
  {
    hide Enabled;
    EnabledConcat(a, b);
    EnabledConcat(a + [n], b);
    EnabledSnoc(a, n);
    assert Enabled(a) + [] == Enabled(a);
  }

  ghost predicate On(nets: seq<Network>, i: nat) {
    i < |nets| && !nets[i].settings.disabled
  }

  lemma OnSnoc(nets: seq<Network>, n: Network, i: nat)
    ensures On(nets + [n], i) <==> On(nets, i) || (i == |nets| && !n.settings.disabled)
  {
  }

  lemma {:induction false} SomeEnabled(nets: seq<Network>)
    ensures |Enabled(nets)| > 0 <==> exists i: nat :: On(nets, i)
  {
    hide On;
    if nets == [] {
      NoneOn();
    } else {
      var init, last := nets[..|nets| - 1], nets[|nets| - 1];
      SomeEnabled(init);
      assert nets == init + [last];
      EnabledSnoc(init, last);
      forall i: nat
        ensures On(nets, i) <==> On(init, i) || (i == |init| && !last.settings.disabled)
      {
        OnSnoc(init, last, i);
      }
      assert !last.settings.disabled ==> On(nets, |init|);
    }
  }

  lemma NoneOn()
    ensures forall i: nat :: !On([], i)
  {
  }

  lemma {:induction false} TwoEnabled(nets: seq<Network>)
    ensures |Enabled(nets)| > 1 <==> exists i: nat, j: nat :: i < j && On(nets, i) && On(nets, j)
  {
    hide On;
    if nets == [] {
      NoneOn();
    } else {
      var init, last := nets[..|nets| - 1], nets[|nets| - 1];
      TwoEnabled(init);
      SomeEnabled(init);
      assert nets == init + [last];
      EnabledSnoc(init, last);
      OnInside(init);
      forall i: nat
        ensures On(nets, i) <==> On(init, i) || (i == |init| && !last.settings.disabled)
      {
        OnSnoc(init, last, i);
      }
      if |Enabled(nets)| > 1 && |Enabled(init)| == 1 {
        var i: nat :| On(init, i);
        assert i < |init| && On(nets, i) && On(nets, |init|);
      }
    }
  }

  lemma OnInside(nets: seq<Network>)
    ensures forall i: nat :: On(nets, i) ==> i < |nets|
  {
  }

  /** A single failure keeps a BSSID from being picked exactly if one network and no
      other is enabled; otherwise it takes two. */
  lemma LimitExact(nets: seq<Network>)
    ensures Limit(nets) == 0 || Limit(nets) == 1
    ensures Limit(nets) == 0
       <==> (exists i: nat :: On(nets, i)) && !(exists i: nat, j: nat :: i < j && On(nets, i) && On(nets, j))
  {
    hide Enabled, On;
    EnabledExact(nets);
    SomeEnabled(nets);
    TwoEnabled(nets);
  }

  // ----- the groups without disabled networks

  /** The groups of the networks whose priorities are below a bound. */
  ghost predicate Below(groups: Groups, nets: seq<Network>, bound: int) {
    && NonEmpty(groups)
    && (forall g :: 0 <= g < |groups| ==> groups[g][0].priority < bound)
    && (forall g, h :: 0 <= g < h < |groups| ==> groups[g][0].priority > groups[h][0].priority)
    && (forall g :: 0 <= g < |groups| ==> groups[g] == OfPriority(nets, groups[g][0].priority))
    && (forall n :: n in nets && n.priority < bound ==> Covered(groups, n.priority))
  }

  ghost predicate Covered(groups: Groups, p: int)
    requires NonEmpty(groups)
  {
    exists g :: 0 <= g < |groups| && groups[g][0].priority == p
  }

  lemma TailBelow(groups: Groups, nets: seq<Network>, bound: int)
    requires Below(groups, nets, bound) && groups != []
    ensures Below(groups[1..], nets, groups[0][0].priority)
    ensures forall n :: n in nets && n.priority < bound ==> n.priority <= groups[0][0].priority
  {
    hide OfPriority;
    var p, tail := groups[0][0].priority, groups[1..];
    assert forall g :: 0 <= g < |tail| ==> tail[g] == groups[g + 1];
    forall n | n in nets && n.priority < p
      ensures Covered(tail, n.priority)
    {
      assert Covered(groups, n.priority);
      var g :| 0 <= g < |groups| && groups[g][0].priority == n.priority;
      assert tail[g - 1][0].priority == n.priority;
    }
  }

  lemma ConsBelow(group: seq<Network>, tail: Groups, nets: seq<Network>, bound: int)
    requires group != [] && group[0].priority < bound && group == OfPriority(nets, group[0].priority)
    requires Below(tail, nets, group[0].priority)
    requires forall n :: n in nets && n.priority < bound ==> n.priority <= group[0].priority
    ensures Below([group] + tail, nets, bound)
  {
    hide OfPriority;
    var r := [group] + tail;
    forall n | n in nets && n.priority < bound
      ensures Covered(r, n.priority)
    {
      if n.priority < group[0].priority {
        assert Covered(tail, n.priority);
        var g :| 0 <= g < |tail| && tail[g][0].priority == n.priority;
        assert r[g + 1][0].priority == n.priority;
      } else {
        assert r[0][0].priority == n.priority;
      }
    }
  }

  lemma SomeGroup(a: Groups, b: Groups, nets: seq<Network>, bound: int)
    requires Below(a, nets, bound) && Below(b, nets, bound) && a != []
    ensures b != [] && a[0][0].priority <= b[0][0].priority
  {
    hide OfPriority;
    HeadsListed(a, nets, bound);
    assert Covered(b, a[0][0].priority);
    TailBelow(b, nets, bound);
  }

  /** There is only one such list of groups. */
  lemma {:induction false} BelowUnique(a: Groups, b: Groups, nets: seq<Network>, bound: int)
    requires Below(a, nets, bound) && Below(b, nets, bound)
    ensures a == b
    decreases |a|
  {
    if a != [] || b != [] {
      if a != [] {
        SomeGroup(a, b, nets, bound);
      }
      SomeGroup(b, a, nets, bound);
      SomeGroup(a, b, nets, bound);
      var p := a[0][0].priority;
      assert a[0] == OfPriority(nets, p) && b[0] == OfPriority(nets, p);
      TailBelow(a, nets, bound);
      TailBelow(b, nets, bound);
      hide OfPriority, Below;
      BelowUnique(a[1..], b[1..], nets, p);
      assert a == [a[0]] + a[1..] && b == [b[0]] + b[1..];
    }
  }

  lemma HeadsListed(groups: Groups, nets: seq<Network>, bound: int)
    requires Below(groups, nets, bound)
    ensures forall g :: 0 <= g < |groups| ==> groups[g][0] in nets
  {
    forall g | 0 <= g < |groups|
      ensures groups[g][0] in nets
    {
      OfPriorityExact(nets, groups[g][0].priority);
      assert groups[g][0] in groups[g];
    }
  }

  /** Each group without its disabled networks, and no empty group. */
  function Strip(groups: Groups): (r: Groups)
    requires NonEmpty(groups)
    ensures NonEmpty(r)
  {
    if groups == [] then []
    else (if Enabled(groups[0]) == [] then [] else [Enabled(groups[0])]) + Strip(groups[1..])
  }

  lemma {:induction false} StripBelow(groups: Groups, nets: seq<Network>, bound: int)
    requires Below(groups, nets, bound)
    ensures Below(Strip(groups), Enabled(nets), bound)
  {
    hide OfPriority, Enabled;
    EnabledExact(nets);
    if groups != [] {
      var group, tail := groups[0], groups[1..];
      var p := group[0].priority;
      TailBelow(groups, nets, bound);
      StripBelow(tail, nets, p);
      EnabledOfPriority(nets, p);
      OfPriorityExact(nets, p);
      EnabledExact(group);
      if Enabled(group) == [] {
        SkippedBelow(Strip(tail), Enabled(nets), p, bound);
        assert [] + Strip(tail) == Strip(tail);
      } else {
        assert Enabled(group)[0] in Enabled(group);
        ConsBelow(Enabled(group), Strip(tail), Enabled(nets), bound);
      }
    }
  }

  lemma SkippedBelow(groups: Groups, nets: seq<Network>, p: int, bound: int)
    requires Below(groups, nets, p) && p < bound
    requires forall n :: n in nets && n.priority < bound ==> n.priority < p
    ensures Below(groups, nets, bound)
  {
    hide OfPriority;
  }

  lemma GroupsBelow(nets: seq<Network>, bound: int)
    requires forall n :: n in nets ==> n.priority < bound
    ensures Below(GroupsOf(nets), nets, bound)
  {
    hide OfPriority, GroupsOf;
    var groups: Groups := GroupsOf(nets);
    GroupsAreGrouped(nets);
    forall g | 0 <= g < |groups|
      ensures groups[g][0].priority < bound
    {
      OfPriorityExact(nets, groups[g][0].priority);
      assert groups[g][0] in groups[g];
    }
    assert forall n :: n in nets ==> Covered(groups, n.priority);
  }

  lemma {:induction false} BoundOf(nets: seq<Network>) returns (bound: int)
    ensures forall n :: n in nets ==> n.priority < bound
  {
    if nets == [] {
      bound := 0;
    } else {
      bound := BoundOf(nets[1..]);
      if nets[0].priority >= bound {
        bound := nets[0].priority + 1;
      }
    }
  }

  /** The groups of the enabled networks are the groups without disabled ones. */
  lemma GroupsStripped(nets: seq<Network>)
    ensures GroupsOf(Enabled(nets)) == Strip(GroupsOf(nets))
  {
    hide GroupsOf, Strip, Below;
    var bound := BoundOf(nets);
    EnabledExact(nets);
    GroupsBelow(nets, bound);
    GroupsBelow(Enabled(nets), bound);
    StripBelow(GroupsOf(nets), nets, bound);
    BelowUnique(GroupsOf(Enabled(nets)), Strip(GroupsOf(nets)), Enabled(nets), bound);
  }

  // ----- the choice

  ghost function WithoutDisabled(sc: Scene): Scene {
    sc.(nets := Enabled(sc.nets))
  }

  lemma SameUsable(sc: Scene, bl: multiset<Mac>, p: nat, n: Network)
    requires p < |sc.results|
    ensures Usable(WithoutDisabled(sc), bl, p, n) <==> Usable(sc, bl, p, n)
    ensures Usable(sc, bl, p, n) ==> !n.settings.disabled
    ensures EntryOf(WithoutDisabled(sc), p) == EntryOf(sc, p)
    ensures Limit(Enabled(sc.nets)) == Limit(sc.nets)
  {
    EnabledExact(sc.nets);
  }

  /** The first network of a group that can use a result. */
  ghost function Taker(sc: Scene, bl: multiset<Mac>, p: nat, group: seq<Network>): Option<Network>
    requires p < |sc.results|
  {
    if group == [] then None
    else if Usable(sc, bl, p, group[0]) then Some(group[0])
    else Taker(sc, bl, p, group[1..])
  }

  lemma {:induction false} FirstNetTakes(sc: Scene, bl: multiset<Mac>, p: nat, group: seq<Network>, i: nat)
    requires p < |sc.results| && i <= |group|
    ensures var k := FirstNet(sc, bl, p, group, i);
            Taker(sc, bl, p, group[i..]) == if k < |group| then Some(group[k]) else None
    decreases |group| - i
  {
    hide Usable;
    if i < |group| {
      assert group[i..][0] == group[i] && group[i..][1..] == group[i + 1..];
      FirstNetTakes(sc, bl, p, group, i + 1);
    }
  }

  lemma {:induction false} SameTaker(sc: Scene, bl: multiset<Mac>, p: nat, group: seq<Network>)
    requires p < |sc.results|
    ensures Taker(WithoutDisabled(sc), bl, p, Enabled(group)) == Taker(sc, bl, p, group)
  {
    hide Usable, WithoutDisabled, Enabled;
    if group != [] {
      SameUsable(sc, bl, p, group[0]);
      SameTaker(sc, bl, p, group[1..]);
      EnabledFront(group);
      SameScene(sc);
      var rest := Enabled(group[1..]);
      assert ([group[0]] + rest)[1..] == rest && [] + rest == rest;
    } else {
      assert Enabled(group) == [] by {
        NoneEnabled();
      }
      SameScene(sc);
    }
  }

  lemma NoneEnabled()
    ensures Enabled([]) == []
  {
  }

  lemma SameScene(sc: Scene)
    ensures WithoutDisabled(sc).results == sc.results && WithoutDisabled(sc).lru == sc.lru
    ensures WithoutDisabled(sc).nets == Enabled(sc.nets)
  {
  }

  /** The first result of a group that it can use. */
  ghost function Yield(sc: Scene, bl: multiset<Mac>, group: seq<Network>, p: nat): (r: nat)
    requires p <= |sc.results|
    ensures p <= r <= |sc.results|
    decreases |sc.results| - p
  {
    if p == |sc.results| || Taker(sc, bl, p, group).Some? then p else Yield(sc, bl, group, p + 1)
  }

  lemma {:induction false} FirstResultYields(sc: Scene, bl: multiset<Mac>, group: seq<Network>, p: nat)
    requires p <= |sc.results|
    ensures FirstResult(sc, bl, group, p) == Yield(sc, bl, group, p)
    decreases |sc.results| - p
  {
    hide FirstNet, Taker;
    if p < |sc.results| {
      FirstNetTakes(sc, bl, p, group, 0);
      assert group[0..] == group;
      assert FirstNet(sc, bl, p, group, 0) <= |group| by {
        NetBound(sc, bl, p, group);
      }
      FirstResultYields(sc, bl, group, p + 1);
    }
  }

  lemma NetBound(sc: Scene, bl: multiset<Mac>, p: nat, group: seq<Network>)
    requires p < |sc.results|
    ensures FirstNet(sc, bl, p, group, 0) <= |group|
  {
  }

  lemma {:induction false} SameYield(sc: Scene, bl: multiset<Mac>, group: seq<Network>, p: nat)
    requires p <= |sc.results|
    ensures |WithoutDisabled(sc).results| == |sc.results|
    ensures Yield(WithoutDisabled(sc), bl, Enabled(group), p) == Yield(sc, bl, group, p)
    decreases |sc.results| - p
  {
    hide Taker, Enabled;
    if p < |sc.results| {
      SameTaker(sc, bl, p, group);
      SameYield(sc, bl, group, p + 1);
    }
  }

  /** A result, the network to use it with, and its entry in the table. */
  datatype Connection = Connection(result: nat, net: Network, bss: Entry)

  /** What the groups yield, from the first to the last. */
  ghost function Chosen(sc: Scene, bl: multiset<Mac>, groups: Groups): Option<Connection> {
    if groups == [] then None
    else
      var p := Yield(sc, bl, groups[0], 0);
      if p < |sc.results| && EntryOf(sc, p).Some? && Taker(sc, bl, p, groups[0]).Some?
      then Some(Connection(p, Taker(sc, bl, p, groups[0]).value, EntryOf(sc, p).value))
      else Chosen(sc, bl, groups[1..])
  }

  ghost function ConnectionOf(groups: Groups, c: Option<Choice>): Option<Connection> {
    if c.Some? && c.value.group < |groups| && c.value.net < |groups[c.value.group]|
    then Some(Connection(c.value.result, groups[c.value.group][c.value.net], c.value.bss))
    else None
  }

  lemma GroupChosen(sc: Scene, bl: multiset<Mac>, groups: Groups, g: nat)
    requires g < |groups|
    ensures var c, p := SelectBss(sc, bl, groups, g), Yield(sc, bl, groups[g], 0);
            && (c.Some? <==> p < |sc.results| && EntryOf(sc, p).Some? && Taker(sc, bl, p, groups[g]).Some?)
            && (c.Some? ==>
                  ConnectionOf(groups, c)
                    == Some(Connection(p, Taker(sc, bl, p, groups[g]).value, EntryOf(sc, p).value)))
  {
    hide Usable, EntryOf, Taker, Yield;
    FirstResultYields(sc, bl, groups[g], 0);
    var p := FirstResult(sc, bl, groups[g], 0);
    if p < |sc.results| {
      FirstNetTakes(sc, bl, p, groups[g], 0);
      assert groups[g][0..] == groups[g];
    }
  }

  lemma {:induction false} SelectFromChosen(sc: Scene, bl: multiset<Mac>, groups: Groups, g: nat)
    requires g <= |groups|
    ensures ConnectionOf(groups, SelectFrom(sc, bl, groups, g)) == Chosen(sc, bl, groups[g..])
    ensures SelectFrom(sc, bl, groups, g).None? <==> Chosen(sc, bl, groups[g..]).None?
    decreases |groups| - g
  {
    hide SelectBss, Taker, Yield, EntryOf;
    if g < |groups| {
      GroupChosen(sc, bl, groups, g);
      SelectFromChosen(sc, bl, groups, g + 1);
      assert groups[g..][0] == groups[g] && groups[g..][1..] == groups[g + 1..];
    }
  }

  lemma {:induction false} SameChosen(sc: Scene, bl: multiset<Mac>, groups: Groups)
    requires NonEmpty(groups)
    ensures Chosen(WithoutDisabled(sc), bl, Strip(groups)) == Chosen(sc, bl, groups)
  {
    hide Taker, Yield, Enabled, WithoutDisabled, EntryOf;
    SameScene(sc);
    if groups != [] {
      var group, rest := groups[0], Strip(groups[1..]);
      SameYield(sc, bl, group, 0);
      SameChosen(sc, bl, groups[1..]);
      var p := Yield(sc, bl, group, 0);
      if p < |sc.results| {
        SameTaker(sc, bl, p, group);
        SameUsable(sc, bl, p, group[0]);
      }
      if Enabled(group) == [] {
        EmptyYields(WithoutDisabled(sc), bl, 0);
        assert [] + rest == rest;
      } else {
        assert ([Enabled(group)] + rest)[1..] == rest;
      }
    }
  }

  lemma {:induction false} EmptyYields(sc: Scene, bl: multiset<Mac>, p: nat)
    requires p <= |sc.results|
    ensures Yield(sc, bl, [], p) == |sc.results|
    decreases |sc.results| - p
  {
    if p < |sc.results| {
      EmptyYields(sc, bl, p + 1);
    }
  }

  /** What is picked: the result with its BSS, and the network. */
  ghost function Picked(sc: Scene, bl: multiset<Mac>): Option<Connection> {
    ConnectionOf(GroupsOf(sc.nets), Pick(sc, bl).0)
  }

  /** Without the disabled networks the same network is picked for the same BSS, and
      the blacklist is cleared or not in the same way. */
  lemma DisabledIgnored(sc: Scene, bl: multiset<Mac>)
    ensures Picked(WithoutDisabled(sc), bl) == Picked(sc, bl)
    ensures Pick(WithoutDisabled(sc), bl).1 == Pick(sc, bl).1
    ensures Pick(WithoutDisabled(sc), bl).0.Some? <==> Pick(sc, bl).0.Some?
  {
    hide SelectFrom, GroupsOf, Chosen, Strip, WithoutDisabled, ConnectionOf;
    var sd := WithoutDisabled(sc);
    SameScene(sc);
    GroupsStripped(sc.nets);
    var groups: Groups := GroupsOf(sc.nets);
    var stripped: Groups := GroupsOf(sd.nets);
    assert groups[0..] == groups && stripped[0..] == stripped;
    SelectFromChosen(sc, bl, groups, 0);
    SelectFromChosen(sd, bl, stripped, 0);
    SameChosen(sc, bl, groups);
    SelectFromChosen(sc, multiset{}, groups, 0);
    SelectFromChosen(sd, multiset{}, stripped, 0);
    SameChosen(sc, multiset{}, groups);
  }

  /** So a disabled network added anywhere changes neither the pick nor how many
      failures are held against a BSSID. */
  lemma DisabledAdded(sc: Scene, bl: multiset<Mac>, a: seq<Network>, n: Network, b: seq<Network>)
    requires sc.nets == a + b && n.settings.disabled
    ensures var more := sc.(nets := a + [n] + b);
            && Picked(more, bl) == Picked(sc, bl) && Pick(more, bl).1 == Pick(sc, bl).1
            && Limit(more.nets) == Limit(sc.nets)
  {
    hide Picked, Pick, Enabled, EnabledCount;
    var more := sc.(nets := a + [n] + b);
    EnabledAround(a, n, b);
    EnabledExact(sc.nets);
    EnabledExact(more.nets);
    assert WithoutDisabled(more) == WithoutDisabled(sc);
    DisabledIgnored(sc, bl);
    DisabledIgnored(more, bl);
  }
}
