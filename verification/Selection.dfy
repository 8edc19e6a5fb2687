/** Choosing the BSS and the network to connect to (wpa_supplicant/events.c). */
module Selection {
  import opened BssTable
  import opened InfoElements
  import opened Matching
  import opened Networks
  import opened PriorityGroups
  import Blacklist
  import opened Wrappers

  /** What a selection works on: the configured networks, the scan results in
      their sorted order, and the BSS table. */
  datatype Scene = Scene(parse: Parser, nets: seq<Network>, results: seq<ScanRes>, lru: seq<Entry>)

  /** A result, the network to use it with and the BSS entry of the result. */
  datatype Choice = Choice(group: nat, result: nat, net: nat, bss: Entry)

  function EnabledCount(nets: seq<Network>): nat {
    if nets == [] then 0
    else EnabledCount(nets[..|nets| - 1]) + if nets[|nets| - 1].settings.disabled then 0 else 1
  }

  /** How many failures are held against a BSSID before it is skipped. */
  function Limit(nets: seq<Network>): nat {
    if EnabledCount(nets) == 1 then 0 else 1
  }

  /** The network can use the result, and the result's BSSID is not skipped. */
  ghost predicate Usable(sc: Scene, bl: multiset<Mac>, p: nat, n: Network)
    requires p < |sc.results|
  {
    bl[sc.results[p].bssid] <= Limit(sc.nets) && Admits(sc.parse, n.settings, sc.results[p])
  }

  /** The first network of a group, from position i on, that can use a result. */
  ghost function FirstNet(sc: Scene, bl: multiset<Mac>, p: nat, group: seq<Network>, i: nat): (r: nat)
    requires p < |sc.results| && i <= |group|
    ensures i <= r <= |group|
    ensures r < |group| ==> Usable(sc, bl, p, group[r])
    ensures forall j :: i <= j < r ==> !Usable(sc, bl, p, group[j])
    decreases |group| - i
  {
    if i == |group| || Usable(sc, bl, p, group[i]) then i else FirstNet(sc, bl, p, group, i + 1)
  }

  /** The first result, from position p on, that some network of a group can use. */
  ghost function FirstResult(sc: Scene, bl: multiset<Mac>, group: seq<Network>, p: nat): (r: nat)
    requires p <= |sc.results|
    ensures p <= r <= |sc.results|
    ensures r < |sc.results| ==> FirstNet(sc, bl, r, group, 0) < |group|
    ensures forall q :: p <= q < r ==> FirstNet(sc, bl, q, group, 0) == |group|
    decreases |sc.results| - p
  {
    if p == |sc.results| || FirstNet(sc, bl, p, group, 0) < |group| then p
    else FirstResult(sc, bl, group, p + 1)
  }

  ghost function EntryOf(sc: Scene, p: nat): Option<Entry>
    requires p < |sc.results|
  {
    Find(sc.lru, sc.results[p].bssid, SsidBytes(sc.results[p]))
  }

  /** What a group yields: its first usable result, if the table has that one. */
  ghost function SelectBss(sc: Scene, bl: multiset<Mac>, groups: Groups, g: nat): Option<Choice>
    requires g < |groups|
  {
    var p := FirstResult(sc, bl, groups[g], 0);
    if p == |sc.results| || EntryOf(sc, p).None? then None
    else Some(Choice(g, p, FirstNet(sc, bl, p, groups[g], 0), EntryOf(sc, p).value))
  }

  ghost function SelectFrom(sc: Scene, bl: multiset<Mac>, groups: Groups, g: nat): Option<Choice>
    requires g <= |groups|
    decreases |groups| - g
  {
    if g == |groups| then None
    else if SelectBss(sc, bl, groups, g).Some? then SelectBss(sc, bl, groups, g)
    else SelectFrom(sc, bl, groups, g + 1)
  }

  /** The choice under a blacklist or, failing that, under the empty one. */
  ghost function Pick(sc: Scene, bl: multiset<Mac>): (r: (Option<Choice>, bool))
  {
    var groups := GroupsOf(sc.nets);
    var c := SelectFrom(sc, bl, groups, 0);
    if c.Some? || bl == multiset{} then (c, false) else (SelectFrom(sc, multiset{}, groups, 0), true)
  }

  // ----- what is chosen

  ghost predicate Before(g: nat, p: nat, i: nat, h: nat, q: nat, j: nat) {
    g < h || (g == h && (p < q || (p == q && i < j)))
  }

  /** Position (g, p, i) of group, result and network is a usable combination. */
  ghost predicate UsableAt(sc: Scene, bl: multiset<Mac>, groups: Groups, g: nat, p: nat, i: nat) {
    g < |groups| && p < |sc.results| && i < |groups[g]| && Usable(sc, bl, p, groups[g][i])
  }

  /** The choice is the first usable combination in order of group, result and network. */
  ghost predicate IsFirst(sc: Scene, bl: multiset<Mac>, groups: Groups, c: Choice) {
    && UsableAt(sc, bl, groups, c.group, c.result, c.net)
    && EntryOf(sc, c.result) == Some(c.bss)
    && forall g, p, i :: UsableAt(sc, bl, groups, g, p, i) ==> !Before(g, p, i, c.group, c.result, c.net)
  }

  ghost predicate NothingUsable(sc: Scene, bl: multiset<Mac>, groups: Groups) {
    forall g, p, i :: !UsableAt(sc, bl, groups, g, p, i)
  }

  /** Every result that some network can use, blacklist aside, has its entry in
      the BSS table. */
  ghost predicate UsableListed(sc: Scene) {
    forall g, p, i :: UsableAt(sc, multiset{}, GroupsOf(sc.nets), g, p, i) ==> EntryOf(sc, p).Some?
  }

  lemma UsableWithoutBlacklist(sc: Scene, bl: multiset<Mac>, groups: Groups, g: nat, p: nat, i: nat)
    requires UsableAt(sc, bl, groups, g, p, i)
    ensures UsableAt(sc, multiset{}, groups, g, p, i)
  {
  }

  /** What a group yields is its first usable combination. */
  lemma SelectBssFirst(sc: Scene, bl: multiset<Mac>, groups: Groups, g: nat, p: nat, i: nat)
    requires g < |groups| && UsableAt(sc, bl, groups, g, p, i)
    ensures var r := FirstResult(sc, bl, groups[g], 0);
            && r <= p < |sc.results|
            && UsableAt(sc, bl, groups, g, r, FirstNet(sc, bl, r, groups[g], 0))
            && (p == r ==> i >= FirstNet(sc, bl, r, groups[g], 0))
  {
    hide Usable;
    assert FirstNet(sc, bl, p, groups[g], 0) <= i;
  }

  /** A group that yields nothing holds no usable combination. */
  lemma SelectBssExact(sc: Scene, bl: multiset<Mac>, groups: Groups, g: nat)
    requires UsableListed(sc) && groups == GroupsOf(sc.nets) && g < |groups|
    ensures var c := SelectBss(sc, bl, groups, g);
            && (c.None? ==> forall p, i :: !UsableAt(sc, bl, groups, g, p, i))
            && (c.Some? ==>
                  && c.value.group == g && UsableAt(sc, bl, groups, g, c.value.result, c.value.net)
                  && EntryOf(sc, c.value.result) == Some(c.value.bss)
                  && forall p, i :: UsableAt(sc, bl, groups, g, p, i) ==>
                       !Before(g, p, i, g, c.value.result, c.value.net))
  {
    hide Usable, GroupsOf, EntryOf;
    forall p: nat, i: nat | UsableAt(sc, bl, groups, g, p, i)
      ensures var r := FirstResult(sc, bl, groups[g], 0);
              && SelectBss(sc, bl, groups, g).Some?
              && p >= r && (p == r ==> i >= FirstNet(sc, bl, p, groups[g], 0))
    {
      SelectBssFirst(sc, bl, groups, g, p, i);
      var r := FirstResult(sc, bl, groups[g], 0);
      UsableWithoutBlacklist(sc, bl, groups, g, r, FirstNet(sc, bl, r, groups[g], 0));
    }
  }

  lemma {:induction false} SelectFromExact(sc: Scene, bl: multiset<Mac>, groups: Groups, g: nat)
    requires UsableListed(sc) && groups == GroupsOf(sc.nets) && g <= |groups|
    requires forall h: nat, p, i :: h < g ==> !UsableAt(sc, bl, groups, h, p, i)
    ensures var c := SelectFrom(sc, bl, groups, g);
            && (c.None? ==> NothingUsable(sc, bl, groups))
            && (c.Some? ==> IsFirst(sc, bl, groups, c.value))
    decreases |groups| - g
  {
    hide Usable, SelectBss, EntryOf, UsableListed, GroupsOf;
    if g < |groups| {
      SelectBssExact(sc, bl, groups, g);
      if SelectBss(sc, bl, groups, g).None? {
        SelectFromExact(sc, bl, groups, g + 1);
      }
    }
  }

  /** The pick is the first usable combination under the blacklist; without one
      the blacklist is cleared and the pick is the first combination at all. */
  lemma PickExact(sc: Scene, bl: multiset<Mac>)
    requires UsableListed(sc)
    ensures var (c, cleared), groups := Pick(sc, bl), GroupsOf(sc.nets);
            && (cleared <==> bl != multiset{} && NothingUsable(sc, bl, groups))
            && (c.Some? ==> IsFirst(sc, if cleared then multiset{} else bl, groups, c.value))
            && (c.None? <==> NothingUsable(sc, multiset{}, groups))
  {
    hide IsFirst, NothingUsable, SelectFrom, GroupsOf, UsableListed;
    var groups := GroupsOf(sc.nets);
    SelectFromExact(sc, bl, groups, 0);
    SelectFromExact(sc, multiset{}, groups, 0);
    FirstIsUsable(sc, bl, groups);
    FirstIsUsable(sc, multiset{}, groups);
  }

  lemma FirstIsUsable(sc: Scene, bl: multiset<Mac>, groups: Groups)
    ensures forall c :: IsFirst(sc, bl, groups, c) ==> !NothingUsable(sc, bl, groups)
    ensures !NothingUsable(sc, bl, groups) ==> !NothingUsable(sc, multiset{}, groups)
  {
    if !NothingUsable(sc, bl, groups) {
      var g, p, i :| UsableAt(sc, bl, groups, g, p, i);
      assert UsableAt(sc, multiset{}, groups, g, p, i);
    }
  }

  /** No usable network has a higher priority than the chosen one. */
  lemma HighestPriority(sc: Scene, bl: multiset<Mac>, c: Choice, p: nat, n: Network)
    requires IsFirst(sc, bl, GroupsOf(sc.nets), c)
    requires p < |sc.results| && n in sc.nets && Usable(sc, bl, p, n)
    ensures GroupsOf(sc.nets)[c.group][c.net].priority >= n.priority
  {
    hide Usable, GroupsOf;
    var groups: Groups := GroupsOf(sc.nets);
    GroupsAreGrouped(sc.nets);
    var g :| 0 <= g < |groups| && groups[g][0].priority == n.priority;
    OfPriorityExact(sc.nets, n.priority);
    var i :| 0 <= i < |groups[g]| && groups[g][i] == n;
    assert UsableAt(sc, bl, groups, g, p, i);
    OfPriorityExact(sc.nets, groups[c.group][0].priority);
    assert groups[c.group][c.net] in OfPriority(sc.nets, groups[c.group][0].priority);
  }

  // ----- results without an entry

  /** A group yields nothing when no result is usable or the first usable one
      has no entry in the table. */
  ghost predicate YieldsNothing(sc: Scene, bl: multiset<Mac>, groups: Groups, g: nat)
    requires g < |groups|
  {
    var p := FirstResult(sc, bl, groups[g], 0);
    p == |sc.results| || EntryOf(sc, p).None?
  }

  lemma {:induction false} SelectFromNone(sc: Scene, bl: multiset<Mac>, groups: Groups, g: nat)
    requires g <= |groups|
    ensures SelectFrom(sc, bl, groups, g).None? <==> forall h :: g <= h < |groups| ==> YieldsNothing(sc, bl, groups, h)
    decreases |groups| - g
  {
    hide FirstResult, FirstNet, EntryOf;
    if g < |groups| {
      SelectFromNone(sc, bl, groups, g + 1);
      assert SelectBss(sc, bl, groups, g).None? <==> YieldsNothing(sc, bl, groups, g);
    }
  }

  /** Whatever the table holds: nothing is chosen exactly when every group yields
      nothing, both under the blacklist and under the empty one; and the
      blacklist is cleared exactly when it is not empty and leaves nothing. */
  lemma PickNone(sc: Scene, bl: multiset<Mac>)
    ensures var (c, cleared), groups := Pick(sc, bl), GroupsOf(sc.nets);
            && (cleared <==> bl != multiset{} && forall g :: 0 <= g < |groups| ==> YieldsNothing(sc, bl, groups, g))
            && (c.None? <==> forall g :: 0 <= g < |groups| ==>
                  YieldsNothing(sc, bl, groups, g) && YieldsNothing(sc, multiset{}, groups, g))
  {
    hide GroupsOf, SelectFrom, YieldsNothing;
    SelectFromNone(sc, bl, GroupsOf(sc.nets), 0);
    SelectFromNone(sc, multiset{}, GroupsOf(sc.nets), 0);
  }

  /** NULL is taken to mean that nothing is usable even without a blacklist. With
      an empty blacklist it does exactly when some group with a usable result has
      the first of them in the table, or no group has any. */
  lemma NullMeansNothingUsable(sc: Scene)
    ensures var groups := GroupsOf(sc.nets);
            (Pick(sc, multiset{}).0.None? <==> NothingUsable(sc, multiset{}, groups))
            <==> ((exists g :: 0 <= g < |groups| && !YieldsNothing(sc, multiset{}, groups, g))
                  || forall g :: 0 <= g < |groups| ==> FirstResult(sc, multiset{}, groups[g], 0) == |sc.results|)
  {
    hide GroupsOf, Pick, EntryOf;
    PickNone(sc, multiset{});
    NothingUsableExact(sc, multiset{}, GroupsOf(sc.nets));
  }

  /** The same under any blacklist: NULL is wrong exactly when something is usable
      and every group yields nothing with and without the blacklist. */
  lemma NullDespiteUsable(sc: Scene, bl: multiset<Mac>)
    ensures var groups := GroupsOf(sc.nets);
            (Pick(sc, bl).0.None? <==> NothingUsable(sc, multiset{}, groups))
            <==> ((exists g :: 0 <= g < |groups|
                     && (!YieldsNothing(sc, bl, groups, g) || !YieldsNothing(sc, multiset{}, groups, g)))
                  || forall g :: 0 <= g < |groups| ==> FirstResult(sc, multiset{}, groups[g], 0) == |sc.results|)
  {
    hide GroupsOf, Pick, EntryOf;
    var groups: Groups := GroupsOf(sc.nets);
    PickNone(sc, bl);
    NothingUsableExact(sc, multiset{}, groups);
    NothingUsableExact(sc, bl, groups);
    FirstIsUsable(sc, bl, groups);
  }

  lemma NothingUsableExact(sc: Scene, bl: multiset<Mac>, groups: Groups)
    ensures NothingUsable(sc, bl, groups)
       <==> forall g :: 0 <= g < |groups| ==> FirstResult(sc, bl, groups[g], 0) == |sc.results|
  {
    hide Usable;
    forall g: nat, p: nat, i: nat | UsableAt(sc, bl, groups, g, p, i)
      ensures FirstResult(sc, bl, groups[g], 0) < |sc.results|
    {
      SelectBssFirst(sc, bl, groups, g, p, i);
    }
    forall g: nat | g < |groups| && FirstResult(sc, bl, groups[g], 0) < |sc.results|
      ensures !NothingUsable(sc, bl, groups)
    {
      var r := FirstResult(sc, bl, groups[g], 0);
      assert UsableAt(sc, bl, groups, g, r, FirstNet(sc, bl, r, groups[g], 0));
    }
  }

  /** What is chosen is the first usable combination exactly when the groups
      before it have no usable one. */
  lemma {:induction false} ChosenIsFirst(sc: Scene, bl: multiset<Mac>, groups: Groups, g: nat)
    requires g <= |groups| && SelectFrom(sc, bl, groups, g).Some?
    ensures var c := SelectFrom(sc, bl, groups, g).value;
            && g <= c.group < |groups| && SelectBss(sc, bl, groups, c.group) == Some(c)
            && (IsFirst(sc, bl, groups, c)
                <==> forall h :: 0 <= h < c.group ==> FirstResult(sc, bl, groups[h], 0) == |sc.results|)
    decreases |groups| - g
  {
    hide Usable, EntryOf, IsFirst;
    if SelectBss(sc, bl, groups, g).Some? {
      FirstOfGroup(sc, bl, groups, SelectBss(sc, bl, groups, g).value);
    } else {
      ChosenIsFirst(sc, bl, groups, g + 1);
    }
  }

  lemma FirstOfGroup(sc: Scene, bl: multiset<Mac>, groups: Groups, c: Choice)
    requires c.group < |groups| && SelectBss(sc, bl, groups, c.group) == Some(c)
    ensures IsFirst(sc, bl, groups, c)
       <==> forall h :: 0 <= h < c.group ==> FirstResult(sc, bl, groups[h], 0) == |sc.results|
  {
    hide Usable, EntryOf;
    forall h: nat, p: nat, i: nat | UsableAt(sc, bl, groups, h, p, i)
      ensures FirstResult(sc, bl, groups[h], 0) < |sc.results|
      ensures h == c.group ==> !Before(h, p, i, c.group, c.result, c.net)
    {
      SelectBssFirst(sc, bl, groups, h, p, i);
    }
    forall h: nat | h < c.group && FirstResult(sc, bl, groups[h], 0) < |sc.results|
      ensures !IsFirst(sc, bl, groups, c)
    {
      var r := FirstResult(sc, bl, groups[h], 0);
      var i := FirstNet(sc, bl, r, groups[h], 0);
      assert UsableAt(sc, bl, groups, h, r, i) && Before(h, r, i, c.group, c.result, c.net);
    }
  }

  // ----- how the program chooses

  method ReadSsid(res: ScanRes) returns (ssid: seq<byte>)
    ensures ssid == SsidBytes(res)
  {
    hide Parse, FirstById, First;
    var ie := GetIe(res.ies, WLAN_EID_SSID);
    if ie.Some? {
      ElementFields(res.ies, ie.value);
      return res.ies[ie.value + 2..ie.value + 2 + res.ies[ie.value + 1]];
    }
    return [];
  }

  method AnnouncesWpa(res: ScanRes) returns (wpa: bool)
    ensures wpa <==> Protected(res)
  {
    hide Parse, FirstById, FirstVendor, First;
    var ie := GetVendorIe(res.ies, WPA_IE_VENDOR_TYPE);
    var wpaIeLen := if ie.Some? then res.ies[ie.value + 1] else 0;
    if ie.Some? {
      ElementFields(res.ies, ie.value);
    }
    ie := GetIe(res.ies, WLAN_EID_RSN);
    var rsnIeLen := if ie.Some? then res.ies[ie.value + 1] else 0;
    if ie.Some? {
      ElementFields(res.ies, ie.value);
    }
    wpa := wpaIeLen > 0 || rsnIeLen > 0;
  }

  class Supplicant {
    const scene: Scene
    const groups: Groups
    const blacklist: Blacklist.List
    var blacklistCleared: nat

    /** The groups are those of the configured networks. */
    ghost predicate Valid()
      reads this, blacklist, blacklist.items
    {
      blacklist.Valid() && groups == GroupsOf(scene.nets)
    }

    constructor (sc: Scene, gs: Groups, list: Blacklist.List)
      requires list.Valid() && gs == GroupsOf(sc.nets)
      ensures Valid() && scene == sc && blacklist == list
    {
      scene, groups, blacklist, blacklistCleared := sc, gs, list, 0;
    }

    method EnabledNetworks() returns (count: nat)
      ensures count == EnabledCount(scene.nets)
    {
      count := 0;
      var i := 0;
      while i < |scene.nets|
        invariant 0 <= i <= |scene.nets|
        invariant count == EnabledCount(scene.nets[..i])
      {
        assert scene.nets[..i + 1][..i] == scene.nets[..i];
        if !scene.nets[i].settings.disabled {
          count := count + 1;
        }
        i := i + 1;
      }
      assert scene.nets[..i] == scene.nets;
    }

    /** Whether a result is skipped because its BSSID failed too often. */
    method Blacklisted(bssid: Mac) returns (skip: bool)
      requires Valid()
      ensures skip <==> blacklist.counts[bssid] > Limit(scene.nets)
    {
      var e := blacklist.Get(bssid);
      if e == null {
        return false;
      }
      var limit := 1;
      var enabled := EnabledNetworks();
      if enabled == 1 {
        limit := 0;
      }
      return e.count > limit;
    }

    /** The first network of a group that can use a result; |group| stands for NULL. */
    method ScanResMatch(p: nat, group: seq<Network>) returns (net: nat)
      requires Valid() && p < |scene.results|
      ensures net == FirstNet(scene, blacklist.counts, p, group, 0)
    {
      hide Admits, Protected, SsidBytes, Limit;
      var res := scene.results[p];
      ghost var bl := blacklist.counts;
      var ssid := ReadSsid(res);
      var skip := Blacklisted(res.bssid);
      if skip || |ssid| == 0 {
        NoneUsable(scene, bl, p, group);
        return |group|;
      }
      var wpa := AnnouncesWpa(res);
      net := 0;
      while net < |group|
        invariant 0 <= net <= |group|
        invariant FirstNet(scene, bl, p, group, 0) == FirstNet(scene, bl, p, group, net)
      {
        var fits := NetMatch(group[net].settings, res, ssid, wpa);
        if fits {
          return;
        }
        net := net + 1;
      }
    }

    /** The checks of one network against a result. */
    method NetMatch(s: Settings, res: ScanRes, ssid: seq<byte>, wpa: bool) returns (r: bool)
      requires ssid == SsidBytes(res) != [] && (wpa <==> Protected(res))
      ensures r <==> Admits(scene.parse, s, res)
      ensures r ==>
                && !s.disabled && (s.bssid.Some? ==> res.bssid == s.bssid.value)
                && (s.ssid != [] ==> ssid == s.ssid) && (s.freqList.Some? ==> res.radio.freq in s.freqList.value)
    {
      hide Secure, Protected, SsidBytes, PrivacyMatches;
      var checkSsid := if wpa then true else |s.ssid| != 0;
      if s.disabled {
        return false;
      }
      if checkSsid && (|ssid| != |s.ssid| || ssid != s.ssid) {
        return false;
      }
      if s.bssid.Some? && res.bssid != s.bssid.value {
        return false;
      }
      var secure := SsidBssMatch(scene.parse, s, res);
      if !secure {
        return false;
      }
      MasksTogether(s.keyMgmt);
      if !wpa && s.keyMgmt & WPA_KEY_MGMT_NONE == 0 && s.keyMgmt & WPA_KEY_MGMT_WPS == 0
         && s.keyMgmt & WPA_KEY_MGMT_IEEE8021X_NO_WPA == 0
      {
        return false;
      }
      var privacy := MatchPrivacy(s, res);
      if !wpa && !privacy {
        return false;
      }
      if !wpa && res.radio.caps & IEEE80211_CAP_IBSS != 0 {
        return false;
      }
      r := FreqAllowed(s.freqList, res.radio.freq);
    }

    /** The entry of a result in the BSS table. */
    method BssGet(p: nat, ssid: seq<byte>) returns (e: Option<Entry>)
      requires p < |scene.results| && ssid == SsidBytes(scene.results[p])
      ensures e == EntryOf(scene, p)
    {
      var i := 0;
      assert scene.lru[0..] == scene.lru;
      while i < |scene.lru|
        invariant 0 <= i <= |scene.lru|
        invariant EntryOf(scene, p) == Find(scene.lru[i..], scene.results[p].bssid, ssid)
      {
        if scene.lru[i].bssid == scene.results[p].bssid && scene.lru[i].ssid == ssid {
          return Some(scene.lru[i]);
        }
        i := i + 1;
      }
      return None;
    }

    method SelectBssOf(g: nat) returns (c: Option<Choice>)
      requires Valid() && g < |groups|
      ensures c == SelectBss(scene, blacklist.counts, groups, g)
    {
      hide Usable, Valid, Parse, FirstById, First;
      var p := 0;
      while p < |scene.results|
        invariant 0 <= p <= |scene.results|
        invariant FirstResult(scene, blacklist.counts, groups[g], 0)
               == FirstResult(scene, blacklist.counts, groups[g], p)
      {
        var net := ScanResMatch(p, groups[g]);
        if net < |groups[g]| {
          var res := scene.results[p];
          var ssid := ReadSsid(res);
          var e := BssGet(p, ssid);
          return if e.None? then None else Some(Choice(g, p, net, e.value));
        }
        p := p + 1;
      }
      return None;
    }

    /** Goes through the groups once. */
    method TryGroups() returns (c: Option<Choice>)
      requires Valid()
      ensures c == SelectFrom(scene, blacklist.counts, groups, 0)
    {
      hide SelectBss;
      c := None;
      var prio := 0;
      while prio < |groups|
        invariant 0 <= prio <= |groups| && c.None?
        invariant SelectFrom(scene, blacklist.counts, groups, 0)
               == SelectFrom(scene, blacklist.counts, groups, prio)
      {
        c := SelectBssOf(prio);
        if c.Some? {
          return;
        }
        prio := prio + 1;
      }
    }

    /** Picks a network, clearing the blacklist at most once. */
    method PickNetwork() returns (selected: Option<Choice>)
      requires Valid()
      modifies this`blacklistCleared, blacklist
      ensures Valid()
      ensures var (c, cleared) := Pick(scene, old(blacklist.counts));
              && selected == c
              && blacklist.counts == (if cleared then multiset{} else old(blacklist.counts))
              && blacklistCleared == old(blacklistCleared) + if cleared then 1 else 0
    {
      hide SelectFrom, GroupsOf, Blacklist.Linked, Blacklist.Distinct, Blacklist.Counted;
      selected := None;
      while selected.None?
        invariant Valid()
        invariant || (&& selected.None? && blacklist.counts == old(blacklist.counts)
                      && blacklistCleared == old(blacklistCleared))
                  || (&& old(blacklist.counts) != multiset{} && blacklist.counts == multiset{}
                      && SelectFrom(scene, old(blacklist.counts), groups, 0).None?
                      && blacklistCleared == old(blacklistCleared) + 1
                      && (selected.Some? ==> selected == SelectFrom(scene, multiset{}, groups, 0)))
                  || (&& selected.Some? && selected == SelectFrom(scene, old(blacklist.counts), groups, 0)
                      && blacklist.counts == old(blacklist.counts) && blacklistCleared == old(blacklistCleared))
        decreases selected.None?, |blacklist.counts|
      {
        selected := TryGroups();
        var empty := blacklist.IsEmpty();
        if selected.None? && !empty {
          blacklist.Clear();
          blacklistCleared := blacklistCleared + 1;
        } else if selected.None? {
          break;
        }
      }
    }
  }

  lemma NoneUsable(sc: Scene, bl: multiset<Mac>, p: nat, group: seq<Network>)
    requires p < |sc.results|
    requires bl[sc.results[p].bssid] > Limit(sc.nets) || SsidBytes(sc.results[p]) == []
    ensures FirstNet(sc, bl, p, group, 0) == |group|
  {
  }

  lemma MasksTogether(m: bv16)
    ensures m & (WPA_KEY_MGMT_NONE | WPA_KEY_MGMT_WPS | WPA_KEY_MGMT_IEEE8021X_NO_WPA) == 0 <==>
            m & WPA_KEY_MGMT_NONE == 0 && m & WPA_KEY_MGMT_WPS == 0 && m & WPA_KEY_MGMT_IEEE8021X_NO_WPA == 0
  {
  }
}
