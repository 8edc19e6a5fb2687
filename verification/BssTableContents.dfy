/** What the entries of the BSS table hold after any run: the table maps each
    listed key to the latest result with that key (wpa_supplicant/bss.c). */
module BssTableContents {
  import opened InfoElements
  import opened BssTable
  import opened BssTableInvariant
  import opened BssTableExpiry
  import opened BssTableRuns
  import opened BssTableLru
  import opened Wrappers

  // ----- under which name a result is stored

  /** The element is the Wi-Fi Direct vendor element. */
  ghost predicate IsP2p(e: Element) {
    e.id == 221 && |e.body| >= 4 && e.body[..4] == [0x50, 0x6f, 0x9a, 9]
  }

  /** The i-th element is the first SSID element; it says ssid. */
  ghost predicate NamedBy(es: seq<Element>, i: nat, ssid: seq<byte>) {
    i < |es| && es[i] == Element(0, ssid) && forall j :: 0 <= j < i ==> es[j].id != 0
  }

  ghost predicate Named(es: seq<Element>, ssid: seq<byte>) {
    exists i: nat :: NamedBy(es, i, ssid)
  }

  ghost predicate HasP2p(es: seq<Element>) {
    exists e :: e in es && IsP2p(e)
  }

  /** "DIRECT-" */
  const DIRECT: seq<byte> := [0x44, 0x49, 0x52, 0x45, 0x43, 0x54, 0x2d]

  lemma P2pBytes(e: Element)
    ensures IsVendor(e, P2P_IE_VENDOR_TYPE) <==> IsP2p(e)
  {
    if |e.body| >= 4 {
      assert e.body[..4] == [e.body[0], e.body[1], e.body[2], e.body[3]];
      assert [0x50, 0x6f, 0x9a, 9] == e.body[..4] <==>
          e.body[0] == 0x50 && e.body[1] == 0x6f && e.body[2] == 0x9a && e.body[3] == 9;
    }
  }

  lemma {:induction false} FirstP2p(es: seq<Element>)
    ensures FirstVendor(es, P2P_IE_VENDOR_TYPE).Some? <==> HasP2p(es)
  {
    hide IsP2p, IsVendor;
    if es != [] {
      P2pBytes(es[0]);
      FirstP2p(es[1..]);
    }
  }

  lemma {:induction false} FirstSsid(es: seq<Element>, ssid: seq<byte>)
    ensures (FirstById(es, WLAN_EID_SSID).Some? && FirstById(es, WLAN_EID_SSID).value.body == ssid)
       <==> Named(es, ssid)
    ensures FirstById(es, WLAN_EID_SSID).Some? ==> FirstById(es, WLAN_EID_SSID).value.id == 0
  {
    if es != [] {
      FirstSsid(es[1..], ssid);
      if es[0].id == 0 {
        assert es[0].body == ssid ==> NamedBy(es, 0, ssid);
      } else {
        if i: nat :| NamedBy(es[1..], i, ssid) {
          assert NamedBy(es, i + 1, ssid);
        }
        if i: nat :| NamedBy(es, i, ssid) {
          assert NamedBy(es[1..], i - 1, ssid);
        }
      }
    }
  }

  /** A result is stored under the SSID of its first SSID element, if that has at
      most 32 bytes and is not the Wi-Fi Direct wildcard next to a Wi-Fi Direct element. */
  lemma SsidExact(res: ScanRes, ssid: seq<byte>)
    ensures SsidOf(res) == Some(ssid)
       <==> Named(Parse(res.ies), ssid) && |ssid| <= 32 && !(ssid == DIRECT && HasP2p(Parse(res.ies)))
  {
    hide Parse, FirstById, FirstVendor, Named, HasP2p;
    var es := Parse(res.ies);
    FirstSsid(es, ssid);
    FirstP2p(es);
    var first := FirstById(es, WLAN_EID_SSID);
    assert P2P_WILDCARD_SSID == DIRECT;
    assert SsidOf(res) == Some(ssid)
      <==> && first.Some? && first.value.body == ssid && |ssid| <= 32
           && !(ssid == P2P_WILDCARD_SSID && FirstVendor(es, P2P_IE_VENDOR_TYPE).Some?);
  }

  // ----- one result

  /** The entry holds what the result says, as of the time of its data. */
  ghost predicate Carries(f: Entry, ev: Event) {
    && ev.ScanResult?
    && f.radio == ev.res.radio && f.ies == ev.res.ies && f.beaconIes == ev.res.beaconIes
    && f.lastUpdate == LastUpdate(ev.now, ev.res.age)
  }

  /** After a result, the entry with its key holds what it says, and every other
      entry is one that was listed. */
  lemma ResultContents(t: Table, cfg: Config, res: ScanRes, now: Time, moves: bool, f: Entry)
    requires Inv(t, cfg) && SsidOf(res).Some? && f in UpdateScanRes(t, cfg, res, now, moves).lru
    ensures if KeyOf(f) == (res.bssid, SsidOf(res).value) then Carries(f, ScanResult(res, now, moves)) else f in t.lru
  {
    hide SsidOf, Ordered, Ascending, Find;
    var ssid := SsidOf(res).value;
    var e := Find(t.lru, res.bssid, ssid);
    FindExact(t.lru, res.bssid, ssid);
    if e.None? {
      var n := NewEntry(t, ssid, res, now);
      AppendKeepsSound(t, n);
      RemoveKeepsSound(Append(t, n), (t.lru + [n])[0]);
    } else {
      UpdateKeepsSound(t, e.value, res, now, moves);
      if f in t.lru && f != e.value && KeyOf(f) == KeyOf(e.value) {
        SameKeySameEntry(t.lru, f, e.value);
      }
    }
  }

  lemma SameKeySameEntry(lru: seq<Entry>, e: Entry, f: Entry)
    requires Ordered(lru) && e in lru && f in lru && KeyOf(e) == KeyOf(f)
    ensures e == f
  {
    var i :| 0 <= i < |lru| && lru[i] == e;
    var j :| 0 <= j < |lru| && lru[j] == f;
  }

  // ----- runs

  /** The event is a result that is stored under the key. */
  ghost predicate Sights(ev: Event, k: Key) {
    ev.ScanResult? && SsidOf(ev.res) == Some(k.1) && ev.res.bssid == k.0
  }

  /** The i-th event is the latest result for the key. */
  ghost predicate Latest(evs: seq<Event>, i: nat, k: Key) {
    i < |evs| && Sights(evs[i], k) && forall j :: i < j < |evs| ==> !Sights(evs[j], k)
  }

  lemma LatestSnoc(before: seq<Event>, ev: Event, i: nat, k: Key)
    requires Latest(before, i, k) && !Sights(ev, k)
    ensures Latest(before + [ev], i, k)
  {
    hide Sights;
  }

  /** What else happens to an entry leaves its contents alone. */
  lemma OtherContents(t: Table, cfg: Config, ev: Event, f: Entry)
    requires Inv(t, cfg) && !(ev.ScanResult? && SsidOf(ev.res).Some?) && f in Step(t, cfg, ev).lru
    ensures exists e :: e in t.lru && f == e.(missCount := f.missCount)
  {
    hide SsidOf, Inv, Covered, InUse, FlushByAge, FlushFrom, UpdateEnd;
    match ev {
      case ScanResult(_, _, _) => assert f == f.(missCount := f.missCount);
      case ScanEnd(info, newScan) => ScanEndOrigin(t, cfg, info, newScan, f);
      case _ =>
        OtherOrigin(t, cfg, ev, f);
        assert f == f.(missCount := f.missCount);
    }
  }

  /** After any run, each entry holds what the latest result with its key said:
      no frequency, signal level, element or time of an earlier one is left. */
  lemma {:induction false} HoldsLatest(cfg: Config, evs: seq<Event>, f: Entry)
    requires f in Run(cfg, evs).lru
    ensures exists i: nat :: i < |evs| && Latest(evs, i, KeyOf(f)) && Carries(f, evs[i])
    decreases |evs|
  {
    hide Step, Inv, SsidOf, Latest, Carries;
    var before, ev := evs[..|evs| - 1], evs[|evs| - 1];
    var t := Run(cfg, before);
    assert evs == before + [ev];
    ReachableInv(cfg, before);
    if Sights(ev, KeyOf(f)) {
      NowLatest(before, ev, KeyOf(f));
      StepIsResult(t, cfg, ev);
      ResultContents(t, cfg, ev.res, ev.now, ev.moves, f);
    } else {
      var e := Origin(t, cfg, ev, f);
      HoldsLatest(cfg, before, e);
      var i: nat :| i < |before| && Latest(before, i, KeyOf(e)) && Carries(e, before[i]);
      LatestSnoc(before, ev, i, KeyOf(f));
      SameContents(e, f, before[i]);
    }
  }

  lemma NowLatest(before: seq<Event>, ev: Event, k: Key)
    requires Sights(ev, k)
    ensures Latest(before + [ev], |before|, k)
  {
  }

  lemma StepIsResult(t: Table, cfg: Config, ev: Event)
    requires ev.ScanResult?
    ensures Step(t, cfg, ev) == UpdateScanRes(t, cfg, ev.res, ev.now, ev.moves)
  {
  }

  lemma SameContents(e: Entry, f: Entry, ev: Event)
    requires f == e.(missCount := f.missCount)
    ensures Carries(e, ev) <==> Carries(f, ev)
  {
  }

  /** Where an entry comes from that the event is no result for. */
  lemma Origin(t: Table, cfg: Config, ev: Event, f: Entry) returns (e: Entry)
    requires Inv(t, cfg) && f in Step(t, cfg, ev).lru && !Sights(ev, KeyOf(f))
    ensures e in t.lru && f == e.(missCount := f.missCount)
  {
    hide Step, Inv, SsidOf, Carries;
    if ev.ScanResult? && SsidOf(ev.res).Some? {
      StepIsResult(t, cfg, ev);
      ResultContents(t, cfg, ev.res, ev.now, ev.moves, f);
      e := f;
    } else {
      OtherContents(t, cfg, ev, f);
      e :| e in t.lru && f == e.(missCount := f.missCount);
    }
  }

  // ----- what is never lost

  /** The addresses that the latest event to set them set. */
  function Association(evs: seq<Event>): (Mac, Mac) {
    if evs == [] then ([], [])
    else
      var ev := evs[|evs| - 1];
      if ev.Associate? then (ev.bssid, ev.pendingBssid) else Association(evs[..|evs| - 1])
  }

  lemma StepKeepsAddresses(t: Table, cfg: Config, ev: Event)
    requires Inv(t, cfg) && !ev.Associate?
    ensures Step(t, cfg, ev).bssid == t.bssid && Step(t, cfg, ev).pendingBssid == t.pendingBssid
  {
    hide Sound, Survivors, UntilFresh, InUseOnly;
    assert t.lru[0..] == t.lru && t.lru[..0] == [];
    match ev {
      case ScanEnd(info, newScan) => UpdateEndFilters(t, cfg, info, 0);
      case AgeFlush(now, age) => FlushLoop(t, now.(sec := now.sec - age), 0);
      case FlushAll => FlushKeepsInUse(t, 0);
      case _ =>
    }
  }

  lemma {:induction false} AssociationExact(cfg: Config, evs: seq<Event>)
    ensures (Run(cfg, evs).bssid, Run(cfg, evs).pendingBssid) == Association(evs)
  {
    hide Step, Inv;
    if evs != [] {
      var before, ev := evs[..|evs| - 1], evs[|evs| - 1];
      AssociationExact(cfg, before);
      ReachableInv(cfg, before);
      if ev.Associate? {
        SetsAddresses(Run(cfg, before), cfg, ev);
      } else {
        StepKeepsAddresses(Run(cfg, before), cfg, ev);
      }
    }
  }

  lemma SetsAddresses(t: Table, cfg: Config, ev: Event)
    requires ev.Associate?
    ensures Step(t, cfg, ev).bssid == ev.bssid && Step(t, cfg, ev).pendingBssid == ev.pendingBssid
  {
  }

  /** The event is a result for the entry that makes it grow and move. */
  ghost predicate Moved(t: Table, ev: Event, id: nat) {
    ev.ScanResult? && ev.moves &&
      exists e :: e in t.lru && e.id == id && Sights(ev, KeyOf(e))
                  && |ev.res.ies| + |ev.res.beaconIes| > |e.ies| + |e.beaconIes|
  }

  /** The pointer to the current BSS is set by associations only, and lost exactly
      when its entry moves or is given up. */
  lemma CurrentExact(t: Table, cfg: Config, ev: Event)
    requires Inv(t, cfg) && !ev.Associate?
    ensures t.current.None? ==> Step(t, cfg, ev).current.None?
    ensures t.current.Some? ==>
              var id := t.current.value;
              Step(t, cfg, ev).current
              == if Moved(t, ev, id) || !HasId(Step(t, cfg, ev).lru, id) then None else Some(id)
  {
    hide Inv, Sound, SsidOf, Moved, HasId, Step;
    InvIsSound(t, cfg);
    if !ev.ScanResult? {
      OthersKeepCurrent(t, cfg, ev);
      StepKeepsInv(t, cfg, ev);
      InvIsSound(Step(t, cfg, ev), cfg);
      StaysCurrent(t, cfg, ev);
    } else if SsidOf(ev.res).None? {
      SkippedMovesNothing(t, cfg, ev);
    } else {
      CurrentAfterResult(t, cfg, ev, SsidOf(ev.res).value);
    }
  }

  lemma OthersKeepCurrent(t: Table, cfg: Config, ev: Event)
    requires Sound(t) && !ev.Associate? && !ev.ScanResult?
    ensures Step(t, cfg, ev).current == t.current
  {
    hide Sound, Survivors, UntilFresh, InUseOnly;
    match ev {
      case ScanEnd(info, newScan) => UpdateEndFilters(t, cfg, info, 0);
      case AgeFlush(now, age) => FlushLoop(t, now.(sec := now.sec - age), 0);
      case FlushAll => FlushKeepsInUse(t, 0);
      case _ =>
    }
  }

  lemma StaysCurrent(t: Table, cfg: Config, ev: Event)
    requires Sound(t) && !ev.ScanResult?
    requires Step(t, cfg, ev).current == t.current && Sound(Step(t, cfg, ev))
    ensures t.current.Some? ==> !Moved(t, ev, t.current.value) && HasId(Step(t, cfg, ev).lru, t.current.value)
  {
    hide Step;
  }

  lemma SkippedMovesNothing(t: Table, cfg: Config, ev: Event)
    requires Sound(t) && ev.ScanResult? && SsidOf(ev.res).None?
    ensures Step(t, cfg, ev) == t
    ensures t.current.Some? ==> !Moved(t, ev, t.current.value) && HasId(t.lru, t.current.value)
  {
    hide SsidOf;
  }

  lemma CurrentAfterResult(t: Table, cfg: Config, ev: Event, ssid: seq<byte>)
    requires Inv(t, cfg) && ev.ScanResult? && SsidOf(ev.res) == Some(ssid)
    ensures t.current.None? ==> Step(t, cfg, ev).current.None?
    ensures t.current.Some? ==>
              var id := t.current.value;
              Step(t, cfg, ev).current
              == if Moved(t, ev, id) || !HasId(Step(t, cfg, ev).lru, id) then None else Some(id)
  {
    hide SsidOf, Ordered, Ascending, Find, Without;
    var res, now := ev.res, ev.now;
    var e := Find(t.lru, res.bssid, ssid);
    FindExact(t.lru, res.bssid, ssid);
    if e.None? {
      var n := NewEntry(t, ssid, res, now);
      AppendKeepsSound(t, n);
      RemoveKeepsSound(Append(t, n), (t.lru + [n])[0]);
    } else {
      UpdateKeepsSound(t, e.value, res, now, ev.moves);
      CurrentAfterUpdate(t, ev, e.value);
    }
  }

  lemma CurrentAfterUpdate(t: Table, ev: Event, e: Entry)
    requires Sound(t) && e in t.lru && ev.ScanResult? && Sights(ev, KeyOf(e))
    requires Sound(Update(t, e, ev.res, ev.now, ev.moves))
    requires forall f :: f in Update(t, e, ev.res, ev.now, ev.moves).lru
                    <==> (f in t.lru && f != e) || f == Updated(t, e, ev.res, ev.now)
    ensures forall id :: HasId(t.lru, id) ==> HasId(Update(t, e, ev.res, ev.now, ev.moves).lru, id)
    ensures forall id :: Moved(t, ev, id) <==> id == e.id && ev.moves && Grows(e, ev.res)
  {
    hide SsidOf, Ascending, Without;
    var u := Update(t, e, ev.res, ev.now, ev.moves);
    forall id | HasId(t.lru, id)
      ensures HasId(u.lru, id)
    {
      var f :| f in t.lru && f.id == id;
      if f == e {
        assert Updated(t, e, ev.res, ev.now) in u.lru;
      } else {
        assert f in u.lru;
      }
    }
    forall f | f in t.lru && Sights(ev, KeyOf(f))
      ensures f == e
    {
      SameKeySameEntry(t.lru, f, e);
    }
  }

  /** After any run, an entry with the associated or the pending BSSID comes
      unchanged out of every scan end, age flush and full flush. */
  lemma AssociatedStays(cfg: Config, before: seq<Event>, ev: Event, e: Entry)
    requires e in Run(cfg, before).lru
    requires e.bssid == Association(before).0 || e.bssid == Association(before).1
    requires ev.ScanEnd? || ev.AgeFlush? || ev.FlushAll?
    ensures e in Run(cfg, before + [ev]).lru
  {
    hide Inv, Sound, InUse, Step;
    var t := Run(cfg, before);
    assert (before + [ev])[..|before|] == before;
    AssociationExact(cfg, before);
    ReachableInv(cfg, before);
    InvIsSound(t, cfg);
    AddressInUse(t, e);
    InUseStays(t, cfg, ev, e);
  }

  lemma InUseStays(t: Table, cfg: Config, ev: Event, e: Entry)
    requires Sound(t) && e in t.lru && InUse(t, e)
    requires ev.ScanEnd? || ev.AgeFlush? || ev.FlushAll?
    ensures e in Step(t, cfg, ev).lru
  {
    hide Sound, InUse, UntilFresh, InUseOnly, UpdateEnd, Remove, SameContext;
    assert t.lru[0..] == t.lru && t.lru[..0] == [];
    match ev {
      case ScanEnd(info, newScan) => UnchangedAtScanEnd(t, cfg, info, newScan, e);
      case AgeFlush(now, age) =>
        var limit := now.(sec := now.sec - age);
        FlushLoop(t, limit, 0);
        FlushOnlyStale(t, limit, t.lru);
      case FlushAll =>
        FlushKeepsInUse(t, 0);
        InUseOnlyKeeps(t, t.lru, e);
    }
  }

  lemma AddressInUse(t: Table, e: Entry)
    requires e.bssid == t.bssid || e.bssid == t.pendingBssid
    ensures InUse(t, e)
  {
  }

  lemma {:induction false} InUseOnlyKeeps(t: Table, es: seq<Entry>, e: Entry)
    requires e in es && InUse(t, e)
    ensures e in InUseOnly(t, es)
  {
    hide InUse;
    if es[0] != e {
      InUseOnlyKeeps(t, es[1..], e);
    }
  }

  lemma UnchangedAtScanEnd(t: Table, cfg: Config, info: Option<ScanInfo>, newScan: bool, e: Entry)
    requires Sound(t) && e in t.lru && InUse(t, e)
    ensures e in UpdateEnd(t, cfg, info, newScan).lru
  {
    hide Sound, Covered, InUse, Survivors;
    assert t.lru[0..] == t.lru && t.lru[..0] == [];
    UpdateEndFilters(t, cfg, info, 0);
    SurvivorsExact(t, cfg, info, t.lru);
    assert AtScanEnd(t, cfg, info, e) == Some(e);
  }

  // ----- which scans count a miss

  lemma SurvivorUnchanged(t: Table, cfg: Config, info: Option<ScanInfo>, e: Entry)
    requires Sound(t) && e in t.lru
    ensures e in UpdateEnd(t, cfg, info, true).lru <==> AtScanEnd(t, cfg, info, e) == Some(e)
  {
    hide Sound, AtScanEnd, Survivors, UpdateEndFrom;
    assert t.lru[0..] == t.lru && t.lru[..0] == [];
    UpdateEndFilters(t, cfg, info, 0);
    SurvivorsExact(t, cfg, info, t.lru);
    ScanEndKeepsId(t, cfg, info);
    if e in UpdateEnd(t, cfg, info, true).lru {
      var g :| g in t.lru && AtScanEnd(t, cfg, info, g) == Some(e);
      SameIdSameEntry(t, e, g);
    }
  }

  /** After any run, the end of a new scan leaves an entry not seen in it as it is
      exactly if the entry is the current BSS, has one of the addresses in use, or
      the scan was for other frequencies or for other SSIDs. */
  lemma SparedExactly(cfg: Config, before: seq<Event>, info: Option<ScanInfo>, e: Entry)
    requires e in Run(cfg, before).lru && !SeenThisScan(cfg, before, e.id)
    ensures e in Run(cfg, before + [ScanEnd(info, true)]).lru
       <==> || Run(cfg, before).current == Some(e.id)
            || e.bssid == Association(before).0 || e.bssid == Association(before).1
            || (info.Some? && |info.value.freqs| > 0 && e.radio.freq !in info.value.freqs)
            || (info.Some? && |info.value.ssids| > 0 && [] !in info.value.ssids && e.ssid !in info.value.ssids)
  {
    hide Inv, Sound, UpdateEnd;
    var t, evs := Run(cfg, before), before + [ScanEnd(info, true)];
    assert evs[..|evs| - 1] == before;
    AssociationExact(cfg, before);
    ReachableInv(cfg, before);
    InvIsSound(t, cfg);
    MissCountExact(cfg, before, e);
    UpdateIdxBound(cfg, before, e);
    SurvivorUnchanged(t, cfg, info, e);
    assert e.missCount + 1 != e.missCount;
  }
}
