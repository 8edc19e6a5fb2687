/** Selection right after a round of scan results, from the table which that
    round has left (wpa_supplicant/events.c on top of wpa_supplicant/bss.c). */
module SelectionRounds {
  import opened BssTable
  import opened BssTableInvariant
  import opened BssTableRuns
  import opened BssTableLru
  import opened BssTableSightings
  import opened BssRounds
  import BssStore
  import opened InfoElements
  import opened Matching
  import opened Networks
  import opened PriorityGroups
  import opened Selection
  import opened Wrappers

  /** What happened to the table, and the round that was taken into it last. */
  datatype Round = Round(cfg: Config, before: seq<Event>, received: seq<Received>,
                         info: Option<ScanInfo>, newScan: bool)

  function TableAfter(r: Round): Table {
    BssStore.ScanRound(Run(r.cfg, r.before), r.cfg, r.received, r.info, r.newScan)
  }

  /** Selection looks at the results of the round and at the table it left. */
  ghost predicate After(sc: Scene, r: Round) {
    && |sc.results| == |r.received|
    && (forall p :: 0 <= p < |sc.results| ==> sc.results[p] == r.received[p].res)
    && sc.lru == TableAfter(r).lru
  }

  /** The table has room for the round, and what is seen does not expire at once. */
  ghost predicate Fits(r: Round) {
    Lasting(r.cfg, r.newScan) && DistinctCount(StoredKeys(r.received)) <= r.cfg.maxCount
  }

  predicate Storable(res: ScanRes) {
    SsidOf(res).Some?
  }

  /** Every result that some network can use is one that the table stores. */
  ghost predicate UsableStorable(sc: Scene) {
    forall g: nat, p: nat, i: nat :: UsableAt(sc, multiset{}, GroupsOf(sc.nets), g, p, i) ==> Storable(sc.results[p])
  }

  lemma {:induction false} StorableHasKey(received: seq<Received>, p: nat)
    requires p < |received| && Storable(received[p].res)
    ensures (received[p].res.bssid, SsidOf(received[p].res).value) in StoredKeys(received)
  {
    hide SsidOf, StoredKeys;
    LastResult(received);
    if p < |received| - 1 {
      StorableHasKey(received[..|received| - 1], p);
    }
  }

  lemma SameSsid(res: ScanRes)
    requires Storable(res)
    ensures SsidOf(res).value == SsidBytes(res)
  {
  }

  /** The table has the entry of every result of the round that it stores at all. */
  lemma StorableListed(sc: Scene, r: Round, p: nat)
    requires After(sc, r) && Fits(r) && p < |sc.results| && Storable(sc.results[p])
    ensures EntryOf(sc, p).Some?
  {
    hide StoredKeys, TableAfter, SsidOf, Keys, Find, DistinctCount, SsidBytes;
    var res := sc.results[p];
    StorableHasKey(r.received, p);
    RoundKeys(r);
    SameSsid(res);
    KeysFind(sc.lru, res.bssid, SsidBytes(res));
  }

  lemma RoundKeys(r: Round)
    requires Fits(r)
    ensures forall k :: k in StoredKeys(r.received) ==> k in Keys(TableAfter(r).lru)
  {
    hide StoredKeys, Keys, BssStore.ScanRound, Run, DistinctCount;
    RoundListed(r.cfg, r.before, r.received, r.info, r.newScan);
  }

  /** So when what can be used is also stored, selection after a round picks the
      first usable combination, and picks nothing only when nothing can be used. */
  lemma PickAfterRound(sc: Scene, r: Round, bl: multiset<Mac>)
    requires After(sc, r) && Fits(r) && UsableStorable(sc)
    ensures UsableListed(sc)
    ensures var (c, cleared), groups := Pick(sc, bl), GroupsOf(sc.nets);
            && (cleared <==> bl != multiset{} && NothingUsable(sc, bl, groups))
            && (c.Some? ==> IsFirst(sc, if cleared then multiset{} else bl, groups, c.value))
            && (c.None? <==> NothingUsable(sc, multiset{}, groups))
  {
    hide Pick, GroupsOf, After, Fits, Storable, EntryOf, IsFirst, NothingUsable, Usable;
    forall g: nat, p: nat, i: nat | UsableAt(sc, multiset{}, GroupsOf(sc.nets), g, p, i)
      ensures EntryOf(sc, p).Some?
    {
      StorableListed(sc, r, p);
    }
    PickExact(sc, bl);
  }

  /** After the first round the table holds keys of that round only. */
  lemma OnlyRoundKeys(r: Round)
    requires r.before == []
    ensures forall e :: e in TableAfter(r).lru ==> KeyOf(e) in StoredKeys(r.received)
  {
    hide SsidOf, BssStore.ScanRound, BssStore.RoundEvents, Run;
    var evs := [UpdateStart] + BssStore.RoundEvents(r.received) + [ScanEnd(r.info, r.newScan)];
    BssStore.RoundIsRun(r.cfg, [], r.received, r.info, r.newScan);
    assert [] + [UpdateStart] + BssStore.RoundEvents(r.received) + [ScanEnd(r.info, r.newScan)] == evs;
    EveryRunInSightOrder(r.cfg, evs);
    HistoryConcat([UpdateStart] + BssStore.RoundEvents(r.received), [ScanEnd(r.info, r.newScan)]);
    HistoryConcat([UpdateStart], BssStore.RoundEvents(r.received));
    assert [UpdateStart][..0] == [] && [ScanEnd(r.info, r.newScan)][..0] == [];
  }

  // ----- a round after which nothing is picked although something can be used

  const GROUP: Mac := [2, 0, 0, 0, 0, 1]
  const AP: Mac := [2, 0, 0, 0, 0, 2]
  const AP_SSID: seq<byte> := [97, 112]

  /** A device that waits for Wi-Fi Direct peers: it announces itself under the
      wildcard SSID of such groups. */
  const PEER_ELEMENTS: seq<Element> :=
    [Element(WLAN_EID_SSID, P2P_WILDCARD_SSID), Element(WLAN_EID_VENDOR_SPECIFIC, [0x50, 0x6f, 0x9a, 9])]

  /** An access point without protection. */
  const AP_ELEMENTS: seq<Element> := [Element(WLAN_EID_SSID, AP_SSID)]

  const RADIO := Radio(0, 2412, 100, 1, 0, 0, -50, 0)

  function ResultOf(bssid: Mac, es: seq<Element>): ScanRes
    requires WellFormed(es)
  {
    ScanRes(bssid, RADIO, 0, Serialize(es), [])
  }

  lemma ResultParses(bssid: Mac, es: seq<Element>)
    requires WellFormed(es)
    ensures Parse(ResultOf(bssid, es).ies) == es
  {
    ParseSerialize(es, []);
    assert Serialize(es) + [] == Serialize(es);
  }

  lemma Elements()
    ensures WellFormed(PEER_ELEMENTS) && WellFormed(AP_ELEMENTS)
  {
  }

  /** A network for any open access point. */
  const ANY_OPEN := Network(0, 0,
    Settings(false, [], None, WPA_PROTO_WPA | WPA_PROTO_RSN, WPA_KEY_MGMT_NONE, 0, 0,
             [[], [], [], []], 0, 0, false, None))

  ghost function PeerFirst(parse: Parser): Scene {
    Elements();
    var r := PeerRound();
    Scene(parse, [ANY_OPEN], [r.received[0].res, r.received[1].res], TableAfter(r).lru)
  }

  /** The first round after the start, with the default limits of the table. */
  function PeerRound(): (r: Round)
    ensures |r.received| == 2
  {
    Elements();
    Round(Config(200, 2), [],
          [BssStore.Received(ResultOf(GROUP, PEER_ELEMENTS), Time(1, 0), false),
           BssStore.Received(ResultOf(AP, AP_ELEMENTS), Time(1, 0), false)],
          None, true)
  }

  lemma PeerElements()
    ensures FirstById(PEER_ELEMENTS, WLAN_EID_SSID) == Some(Element(WLAN_EID_SSID, P2P_WILDCARD_SSID))
    ensures FirstVendor(PEER_ELEMENTS, P2P_IE_VENDOR_TYPE).Some?
    ensures FirstVendor(PEER_ELEMENTS, WPA_IE_VENDOR_TYPE).None?
    ensures FirstById(PEER_ELEMENTS, WLAN_EID_RSN).None?
  {
    var rest := PEER_ELEMENTS[1..];
    var v := Element(WLAN_EID_VENDOR_SPECIFIC, [0x50, 0x6f, 0x9a, 9]);
    assert rest == [v] && rest[1..] == [];
    assert Be32(v.body) == P2P_IE_VENDOR_TYPE;
    assert FirstVendor(rest, WPA_IE_VENDOR_TYPE).None? && FirstById(rest, WLAN_EID_RSN).None?;
  }

  /** The peer's result is one that the table skips, but an open network can use it. */
  lemma PeerSkipped(parse: Parser)
    ensures WellFormed(PEER_ELEMENTS)
    ensures var res := ResultOf(GROUP, PEER_ELEMENTS);
            SsidOf(res).None? && Admits(parse, ANY_OPEN.settings, res)
  {
    hide FirstById, FirstVendor, Serialize;
    Elements();
    ResultParses(GROUP, PEER_ELEMENTS);
    PeerElements();
    NoPrivacy();
    NotWpa();
  }

  lemma NoPrivacy()
    ensures RADIO.caps & IEEE80211_CAP_PRIVACY == 0 && RADIO.caps & IEEE80211_CAP_IBSS == 0
    ensures !UsesWep(ANY_OPEN.settings)
  {
    assert WPA_KEY_MGMT_NONE & WPA_KEY_MGMT_IEEE8021X_NO_WPA == 0;
  }

  lemma NotWpa()
    ensures !WpaKeyMgmt(ANY_OPEN.settings.keyMgmt)
    ensures ANY_OPEN.settings.keyMgmt & (WPA_KEY_MGMT_NONE | WPA_KEY_MGMT_WPS | WPA_KEY_MGMT_IEEE8021X_NO_WPA) != 0
  {
  }

  lemma NoProtection(es: seq<Element>)
    requires |es| == 1 && es[0].id == WLAN_EID_SSID
    ensures FirstVendor(es, WPA_IE_VENDOR_TYPE).None? && FirstById(es, WLAN_EID_RSN).None?
    ensures FirstVendor(es, P2P_IE_VENDOR_TYPE).None?
  {
    assert es[1..] == [];
  }

  /** The access point's result is stored, and the open network can use it. */
  lemma ApStored(parse: Parser)
    ensures WellFormed(AP_ELEMENTS)
    ensures var res := ResultOf(AP, AP_ELEMENTS);
            SsidOf(res) == Some(AP_SSID) && Admits(parse, ANY_OPEN.settings, res)
  {
    hide Serialize;
    Elements();
    ResultParses(AP, AP_ELEMENTS);
    assert AP_ELEMENTS[1..] == [];
    NoProtection(AP_ELEMENTS);
    NoPrivacy();
    NotWpa();
  }

  /** The only key of this round is that of the access point. */
  lemma PeerRoundKeys()
    ensures StoredKeys(PeerRound().received) == [(AP, AP_SSID)] && Fits(PeerRound())
  {
    hide SsidOf, StoredKeys, Serialize;
    var received := PeerRound().received;
    PeerSkipped(_ => None);
    ApStored(_ => None);
    assert received[..2] == received && received[..1][..0] == [] && received[..2][..1] == received[..1];
    LastResult(received);
    LastResult(received[..1]);
    NoResults([]);
    DistinctLength([(AP, AP_SSID)]);
  }

  /** The peer has no entry after the round, the access point has. */
  lemma PeerRoundEntries(parse: Parser)
    ensures var sc := PeerFirst(parse);
            After(sc, PeerRound()) && EntryOf(sc, 0).None? && EntryOf(sc, 1).Some?
  {
    hide StoredKeys, TableAfter, SsidOf, Find, Fits, Serialize, BssTableLru.DistinctKeys, Run;
    var sc, r := PeerFirst(parse), PeerRound();
    PeerRoundKeys();
    ApStored(parse);
    PeerSkipped(parse);
    StorableListed(sc, r, 1);
    OnlyRoundKeys(r);
    FindExact(sc.lru, GROUP, SsidBytes(sc.results[0]));
  }

  lemma OneGroup(n: Network)
    ensures GroupsOf([n]) == [[n]]
  {
    assert [n][..0] == [];
    assert GroupsOf([]) == [];
  }

  lemma PeerUsable(parse: Parser, bl: multiset<Mac>)
    ensures var sc := PeerFirst(parse);
            && |sc.results| == 2
            && (Usable(sc, bl, 0, ANY_OPEN) <==> bl[GROUP] == 0)
            && (Usable(sc, bl, 1, ANY_OPEN) <==> bl[AP] == 0)
  {
    hide Admits, TableAfter, Serialize;
    var sc := PeerFirst(parse);
    PeerSkipped(parse);
    ApStored(parse);
    assert [ANY_OPEN][..0] == [];
    assert EnabledCount([]) == 0;
  }

  /** After this round nothing is picked unless the peer alone is blacklisted,
      although both results can be used and the table has the access point. */
  lemma NullWithAccessPoint(parse: Parser, bl: multiset<Mac>)
    ensures var sc := PeerFirst(parse);
            && After(sc, PeerRound()) && Fits(PeerRound())
            && UsableAt(sc, multiset{}, GroupsOf(sc.nets), 0, 1, 0) && EntryOf(sc, 1).Some?
            && (Pick(sc, bl).0.None? <==> bl[GROUP] == 0 || bl[AP] > 0)
  {
    hide Usable, After, Fits, TableAfter, EntryOf, GroupsOf, Pick, Serialize;
    var sc := PeerFirst(parse);
    PeerRoundKeys();
    PeerRoundEntries(parse);
    OneGroup(ANY_OPEN);
    PickNone(sc, bl);
    PeerGroup(parse, bl);
    PeerGroup(parse, multiset{});
    PeerUsable(parse, multiset{});
  }

  lemma PeerGroup(parse: Parser, bl: multiset<Mac>)
    ensures var sc := PeerFirst(parse);
            YieldsNothing(sc, bl, [[ANY_OPEN]], 0) <==> bl[GROUP] == 0 || bl[AP] > 0
  {
    hide Usable, TableAfter, EntryOf, Serialize;
    var sc := PeerFirst(parse);
    PeerUsable(parse, bl);
    PeerRoundEntries(parse);
    assert FirstNet(sc, bl, 0, [ANY_OPEN], 0) == if Usable(sc, bl, 0, ANY_OPEN) then 0 else 1;
    assert FirstNet(sc, bl, 1, [ANY_OPEN], 0) == if Usable(sc, bl, 1, ANY_OPEN) then 0 else 1;
  }
}
