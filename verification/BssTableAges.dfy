/** When the age flush of the BSS table misses entries that are too old: the flush
    stops at the first fresh entry, and results may carry data of any age. */
module BssTableAges {
  import opened InfoElements
  import opened BssTable
  import opened BssTableInvariant
  import opened BssTableExpiry
  import opened BssTableRuns
  import opened Wrappers

  function Limit(now: Time, age: int): Time {
    now.(sec := now.sec - age)
  }

  /** After any run, an age flush removes every entry that is too old and not in
      use exactly when none of these stands behind a fresh one. */
  lemma FlushByAgeExact(cfg: Config, before: seq<Event>, now: Time, age: int)
    ensures var t := Run(cfg, before);
            && Run(cfg, before + [AgeFlush(now, age)]) == FlushByAge(t, now, age)
            && (FlushByAge(t, now, age).lru == NotExpired(t, Limit(now, age), t.lru)
                <==> !StaleBehindFresh(t, Limit(now, age), t.lru))
  {
    hide Sound, NotExpired, UntilFresh, StaleBehindFresh, SameContext, FlushOldFrom, Run;
    var t := Run(cfg, before);
    RunSnoc(cfg, before, AgeFlush(now, age));
    ReachableInv(cfg, before);
    FlushLoop(t, Limit(now, age), 0);
    assert t.lru[0..] == t.lru && t.lru[..0] == [];
    assert FlushByAge(t, now, age).lru == UntilFresh(t, Limit(now, age), t.lru);
    EarlyExitExact(t, Limit(now, age), t.lru);
  }

  lemma RunSnoc(cfg: Config, before: seq<Event>, ev: Event)
    ensures Run(cfg, before + [ev]) == Step(Run(cfg, before), cfg, ev)
  {
    assert (before + [ev])[..|before|] == before;
  }

  // ----- a scan after which the flush misses an entry

  const CFG := Config(200, 2)
  const FIRST: Mac := [2, 0, 0, 0, 0, 1]
  const SECOND: Mac := [2, 0, 0, 0, 0, 2]
  const NAME: seq<byte> := [97, 112]
  const SCANNED := Time(100, 0)
  const FLUSHED := Time(110, 0)

  /** A result that carries nothing but its SSID, with data that is age milliseconds old. */
  function Aged(bssid: Mac, age: nat): ScanRes {
    ScanRes(bssid, Radio(0, 2412, 100, 1, 0, 0, -50, 0), age, Encode(Element(WLAN_EID_SSID, NAME)), [])
  }

  /** One scan: the first result is current, the second is a minute old. */
  function MixedScan(): seq<Event> {
    [UpdateStart] + [ScanResult(Aged(FIRST, 0), SCANNED, false)] + [ScanResult(Aged(SECOND, 60000), SCANNED, false)]
  }

  lemma AgedSsid(bssid: Mac, age: nat)
    ensures SsidOf(Aged(bssid, age)) == Some(NAME)
  {
    var e := Element(WLAN_EID_SSID, NAME);
    assert Serialize([e]) + [] == Encode(e);
    ParseSerialize([e], []);
    assert [e][1..] == [];
  }

  lemma MixedScanTable()
    ensures var lru := Run(CFG, MixedScan()).lru;
            && |lru| == 2
            && lru[0].bssid == FIRST && lru[0].lastUpdate == Time(100, 0)
            && lru[1].bssid == SECOND && lru[1].lastUpdate == Time(40, 0)
    ensures var t := Run(CFG, MixedScan());
            t.current == None && t.bssid == [] && t.pendingBssid == []
  {
    hide Run, SsidOf, Parse;
    assert Run(CFG, []) == EMPTY by { EmptyRun(); }
    RunSnoc(CFG, [], UpdateStart);
    assert [] + [UpdateStart] == [UpdateStart];
    RunSnoc(CFG, [UpdateStart], ScanResult(Aged(FIRST, 0), SCANNED, false));
    AgedSsid(FIRST, 0);
    var t1 := Run(CFG, [UpdateStart] + [ScanResult(Aged(FIRST, 0), SCANNED, false)]);
    assert |t1.lru| == 1 && t1.lru[0].bssid == FIRST;
    RunSnoc(CFG, [UpdateStart] + [ScanResult(Aged(FIRST, 0), SCANNED, false)],
            ScanResult(Aged(SECOND, 60000), SCANNED, false));
    AgedSsid(SECOND, 60000);
    assert Find(t1.lru[1..], SECOND, NAME) == None;
  }

  lemma EmptyRun()
    ensures Run(CFG, []) == EMPTY
  {
  }

  /** Ten seconds after this scan, a flush of what is older than thirty seconds
      keeps the entry that is seventy seconds old. */
  lemma OldEntryMissed()
    ensures var t, now, age := Run(CFG, MixedScan()), FLUSHED, 30;
            && StaleBehindFresh(t, Limit(now, age), t.lru)
            && FlushByAge(t, now, age).lru != NotExpired(t, Limit(now, age), t.lru)
  {
    hide Run, FlushByAge, NotExpired;
    MixedScanTable();
    FlushByAgeExact(CFG, MixedScan(), FLUSHED, 30);
    var t := Run(CFG, MixedScan());
    assert Fresh(t, Limit(FLUSHED, 30), t.lru[0]) && Stale(t, Limit(FLUSHED, 30), t.lru[1]);
  }
}
