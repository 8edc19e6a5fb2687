/** A scan in which every attempt fails and one access point is never tried,
    because the blacklist is cleared too early (wpa_supplicant/events.c). */
module SelectionStarvation {
  import opened BssTable
  import opened BssTableInvariant
  import opened BssTableRuns
  import opened BssTableLru
  import opened BssRounds
  import BssStore
  import opened InfoElements
  import opened Matching
  import opened Networks
  import opened PriorityGroups
  import opened Selection
  import opened SelectionRounds
  import opened SelectionRuns
  import opened Wrappers

  /** A second open access point, with a network of its own. */
  const HOME: Mac := [2, 0, 0, 0, 0, 3]
  const HOME_SSID: seq<byte> := [97, 49]
  const HOME_NET := Network(1, 1, ANY_OPEN.settings.(ssid := HOME_SSID))

  function OpenElements(ssid: seq<byte>): (r: seq<Element>)
    requires |ssid| <= 32
    ensures WellFormed(r)
  {
    [Element(WLAN_EID_SSID, ssid)]
  }

  /** The first round after the start: the peer, an access point for any open
      network, and the access point of the network with the higher priority. */
  function Crowd(): (r: Round)
    ensures |r.received| == 3
  {
    Elements();
    Round(Config(200, 2), [],
          [BssStore.Received(ResultOf(GROUP, PEER_ELEMENTS), Time(1, 0), false),
           BssStore.Received(ResultOf(AP, OpenElements(AP_SSID)), Time(1, 0), false),
           BssStore.Received(ResultOf(HOME, OpenElements(HOME_SSID)), Time(1, 0), false)],
          None, true)
  }

  ghost function CrowdScene(parse: Parser): (sc: Scene)
    ensures |sc.results| == 3 && |sc.nets| == 2
  {
    var r := Crowd();
    Scene(parse, [HOME_NET, ANY_OPEN], [r.received[0].res, r.received[1].res, r.received[2].res], TableAfter(r).lru)
  }

  // ----- which network can use which result

  /** An open result suits an open network that asks for any SSID or for this one. */
  lemma OpenAdmits(parse: Parser, wanted: seq<byte>, res: ScanRes)
    requires SsidBytes(res) != [] && !Protected(res) && res.radio == RADIO
    ensures Admits(parse, ANY_OPEN.settings.(ssid := wanted), res) <==> wanted == [] || wanted == SsidBytes(res)
  {
    hide SsidBytes, Protected;
    NoPrivacy();
    NotWpa();
    var s := ANY_OPEN.settings.(ssid := wanted);
    assert UsesWep(s) == UsesWep(ANY_OPEN.settings);
  }

  lemma OpenResult(bssid: Mac, ssid: seq<byte>)
    requires 0 < |ssid| <= 32
    ensures var res := ResultOf(bssid, OpenElements(ssid));
            && SsidOf(res) == Some(ssid) && SsidBytes(res) == ssid && !Protected(res) && res.radio == RADIO
            && res.bssid == bssid
  {
    hide Serialize;
    var es := OpenElements(ssid);
    ResultParses(bssid, es);
    assert es[1..] == [];
    NoProtection(es);
  }

  lemma PeerResult()
    ensures WellFormed(PEER_ELEMENTS)
    ensures var res := ResultOf(GROUP, PEER_ELEMENTS);
            && SsidOf(res) == None && SsidBytes(res) == P2P_WILDCARD_SSID && !Protected(res) && res.radio == RADIO
            && res.bssid == GROUP
  {
    hide FirstById, FirstVendor, Serialize;
    Elements();
    ResultParses(GROUP, PEER_ELEMENTS);
    PeerElements();
  }

  lemma WhoAdmits(parse: Parser, p: nat)
    requires p < 3
    ensures var sc := CrowdScene(parse);
            && Admits(sc.parse, ANY_OPEN.settings, sc.results[p])
            && (Admits(sc.parse, HOME_NET.settings, sc.results[p]) <==> p == 2)
  {
    hide Admits, TableAfter, Serialize, SsidBytes, Protected, SsidOf;
    PeerResult();
    OpenResult(AP, AP_SSID);
    OpenResult(HOME, HOME_SSID);
    var res := CrowdScene(parse).results[p];
    OpenAdmits(parse, [], res);
    OpenAdmits(parse, HOME_SSID, res);
    assert ANY_OPEN.settings.(ssid := []) == ANY_OPEN.settings;
    assert HOME_SSID != AP_SSID && HOME_SSID != P2P_WILDCARD_SSID;
  }

  // ----- which result has an entry

  lemma CrowdKeys()
    ensures StoredKeys(Crowd().received) == [(AP, AP_SSID), (HOME, HOME_SSID)] && Fits(Crowd())
  {
    hide SsidOf, StoredKeys, Serialize, SsidBytes, Protected;
    var received := Crowd().received;
    PeerResult();
    OpenResult(AP, AP_SSID);
    OpenResult(HOME, HOME_SSID);
    assert received[..3] == received && received[..3][..2] == received[..2] && received[..2][..1] == received[..1];
    assert received[..1][..0] == [];
    LastResult(received);
    LastResult(received[..2]);
    LastResult(received[..1]);
    NoResults([]);
    DistinctLength([(AP, AP_SSID), (HOME, HOME_SSID)]);
  }

  lemma CrowdEntries(parse: Parser)
    ensures var sc := CrowdScene(parse);
            SelectionRounds.After(sc, Crowd()) && EntryOf(sc, 0).None? && EntryOf(sc, 1).Some? && EntryOf(sc, 2).Some?
  {
    hide StoredKeys, TableAfter, SsidOf, Find, Fits, Serialize, BssTableLru.DistinctKeys, Run, SsidBytes, Protected;
    var sc, r := CrowdScene(parse), Crowd();
    CrowdKeys();
    PeerResult();
    OpenResult(AP, AP_SSID);
    OpenResult(HOME, HOME_SSID);
    StorableListed(sc, r, 1);
    StorableListed(sc, r, 2);
    OnlyRoundKeys(r);
    FindExact(sc.lru, GROUP, SsidBytes(sc.results[0]));
  }

  // ----- every attempt

  lemma CrowdGroups()
    ensures GroupsOf([HOME_NET, ANY_OPEN]) == [[HOME_NET], [ANY_OPEN]]
    ensures Limit([HOME_NET, ANY_OPEN]) == 1
  {
    var nets := [HOME_NET, ANY_OPEN];
    assert nets[..1] == [HOME_NET] && [HOME_NET][..0] == [];
    OneGroup(HOME_NET);
    assert EnabledCount([HOME_NET]) == 1;
  }

  /** Only the home access point is on the blacklist, if any. */
  ghost predicate OnlyHome(bl: multiset<Mac>) {
    bl[GROUP] == 0 && bl[AP] == 0
  }

  lemma CrowdUsable(parse: Parser, bl: multiset<Mac>)
    requires OnlyHome(bl)
    ensures var sc := CrowdScene(parse);
            && Usable(sc, bl, 0, ANY_OPEN)
            && !Usable(sc, bl, 0, HOME_NET) && !Usable(sc, bl, 1, HOME_NET)
            && (Usable(sc, bl, 2, HOME_NET) <==> bl[HOME] <= 1)
  {
    hide Admits, TableAfter, Serialize;
    CrowdGroups();
    WhoAdmits(parse, 0);
    WhoAdmits(parse, 1);
    WhoAdmits(parse, 2);
  }

  /** The group of the home network yields its access point until that is over the
      limit; the other group never yields anything. */
  lemma CrowdYields(parse: Parser, bl: multiset<Mac>)
    requires OnlyHome(bl)
    ensures var sc, groups := CrowdScene(parse), [[HOME_NET], [ANY_OPEN]];
            && FirstResult(sc, bl, groups[0], 0) == (if bl[HOME] <= 1 then 2 else 3)
            && (YieldsNothing(sc, bl, groups, 0) <==> bl[HOME] > 1)
            && YieldsNothing(sc, bl, groups, 1)
  {
    hide Usable, TableAfter, EntryOf, Serialize;
    var sc := CrowdScene(parse);
    CrowdUsable(parse, bl);
    CrowdEntries(parse);
    assert FirstNet(sc, bl, 0, [HOME_NET], 0) == 1 && FirstNet(sc, bl, 1, [HOME_NET], 0) == 1;
    assert FirstNet(sc, bl, 2, [HOME_NET], 0) == if bl[HOME] <= 1 then 0 else 1;
    assert FirstNet(sc, bl, 0, [ANY_OPEN], 0) == 0;
    assert FirstResult(sc, bl, [HOME_NET], 0) == FirstResult(sc, bl, [HOME_NET], 1);
    assert FirstResult(sc, bl, [HOME_NET], 1) == FirstResult(sc, bl, [HOME_NET], 2);
  }

  lemma CrowdSelects(parse: Parser, bl: multiset<Mac>)
    requires OnlyHome(bl)
    ensures var c := SelectFrom(CrowdScene(parse), bl, [[HOME_NET], [ANY_OPEN]], 0);
            && (c.Some? <==> bl[HOME] <= 1)
            && (c.Some? ==> c.value.result == 2)
  {
    hide EntryOf, CrowdScene, FirstNet, FirstResult, YieldsNothing;
    var sc, groups: Groups := CrowdScene(parse), [[HOME_NET], [ANY_OPEN]];
    CrowdYields(parse, bl);
    SelectFromNone(sc, bl, groups, 0);
    SelectFromNone(sc, bl, groups, 1);
    assert SelectFrom(sc, bl, groups, 1).None?;
  }

  /** Every attempt picks the home access point, after a premature clear when that
      is over the limit. */
  lemma CrowdPicks(parse: Parser, bl: multiset<Mac>)
    requires OnlyHome(bl)
    ensures var sc := CrowdScene(parse);
            var (c, cleared) := Pick(sc, bl);
            && c.Some? && c.value.result == 2 && (cleared <==> bl[HOME] > 1)
  {
    hide EntryOf, TableAfter, Serialize, SelectFrom, GroupsOf;
    CrowdGroups();
    CrowdSelects(parse, bl);
    CrowdSelects(parse, multiset{});
  }

  lemma CrowdAttempt(parse: Parser, log: Log)
    requires OnlyHome(log.bl)
    ensures Attempt(CrowdScene(parse), log)
         == if log.bl[HOME] > 1 then Log(multiset{HOME}, [HOME], log.rounds + [log.tries])
            else Log(log.bl + multiset{HOME}, log.tries + [HOME], log.rounds)
  {
    hide Pick, TableAfter, Serialize;
    CrowdPicks(parse, log.bl);
    assert CrowdScene(parse).results[2].bssid == HOME;
    assert multiset{} + multiset{HOME} == multiset{HOME} && [] + [HOME] == [HOME];
  }

  /** However many attempts fail, the other access point is never tried. */
  lemma {:induction false} NeverTried(parse: Parser, n: nat)
    ensures var log := SelectionRuns.After(CrowdScene(parse), n);
            && OnlyHome(log.bl) && log.bl[HOME] == (if n == 0 then 0 else 2 - n % 2)
            && AP !in log.tries && (forall r :: r in log.rounds ==> AP !in r)
  {
    hide CrowdScene, Attempt;
    if n > 0 {
      NeverTried(parse, n - 1);
      var log := SelectionRuns.After(CrowdScene(parse), n - 1);
      CrowdAttempt(parse, log);
      assert AP != HOME && GROUP != HOME && multiset{HOME}[AP] == multiset{HOME}[GROUP] == 0;
    }
  }

  lemma CrowdPremature(parse: Parser, bl: multiset<Mac>)
    requires OnlyHome(bl)
    ensures Premature(CrowdScene(parse), bl) <==> bl[HOME] > 1
  {
    hide TableAfter, Serialize, Usable, EntryOf, GroupsOf, YieldsNothing;
    var sc, groups: Groups := CrowdScene(parse), [[HOME_NET], [ANY_OPEN]];
    CrowdGroups();
    CrowdYields(parse, bl);
    CrowdUsable(parse, bl);
    assert UsableAt(sc, bl, groups, 1, 0, 0) by {
      assert groups[1][0] == ANY_OPEN;
    }
  }

  /** The scene follows a round the program can receive, and the access point is in
      the table and suits a network; yet every
      second failure leads to a premature clear, and the access point is never tried. */
  lemma Starvation(parse: Parser, n: nat)
    ensures var sc := CrowdScene(parse);
            && SelectionRounds.After(sc, Crowd()) && Fits(Crowd()) && EntryOf(sc, 1).Some?
            && sc.results[1].bssid == AP && AP in MatchableSet(sc) && SomethingYields(sc)
            && (Premature(sc, SelectionRuns.After(sc, n).bl) <==> n > 0 && n % 2 == 0)
            && AP !in SelectionRuns.After(sc, n).tries
  {
    hide TableAfter, Serialize, EntryOf, GroupsOf, YieldsNothing, Fits, SelectionRounds.After, SelectionRuns.After,
         Premature, MatchableSet;
    CrowdGroups();
    CrowdKeys();
    CrowdEntries(parse);
    ApMatchable(parse);
    CrowdYields(parse, multiset{});
    NeverTried(parse, n);
    CrowdPremature(parse, SelectionRuns.After(CrowdScene(parse), n).bl);
  }

  lemma ApMatchable(parse: Parser)
    ensures AP in MatchableSet(CrowdScene(parse))
  {
    hide TableAfter, Serialize, Admits, GroupsOf, MatchableSet;
    var sc := CrowdScene(parse);
    CrowdGroups();
    WhoAdmits(parse, 1);
    MatchableExact(sc);
    assert UsableAt(sc, multiset{}, GroupsOf(sc.nets), 1, 1, 0);
    assert MatchedAt(sc, AP, 1, 1, 0);
  }
}
