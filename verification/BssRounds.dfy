/** What the BSS table lists after a round of scan results
    (wpa_supplicant/wpa_supplicant.c, wpa_supplicant/bss.c). */
module BssRounds {
  import opened InfoElements
  import opened BssTable
  import opened BssTableInvariant
  import opened BssTableExpiry
  import opened BssTableRuns
  import opened BssTableLru
  import opened BssTableSightings
  import BssStore
  import opened Wrappers

  type Received = BssStore.Received

  /** The keys under which the results of a round are stored, in order. */
  function StoredKeys(results: seq<Received>): seq<Key> {
    History(BssStore.RoundEvents(results))
  }

  /** How many different keys the results of a round have. */
  ghost function DistinctCount(keys: seq<Key>): nat {
    |set k | k in keys|
  }

  // ----- the reference under concatenation

  /** What was seen last stands last, whatever was seen before. */
  lemma {:induction false} RecencyConcat(a: seq<Key>, b: seq<Key>) returns (p: seq<Key>)
    ensures Recency(a + b) == p + Recency(b)
  {
    hide Without, BssTableLru.DistinctKeys;
    if b == [] {
      assert a + b == a && Recency(a) + [] == Recency(a);
      return Recency(a);
    }
    var init, k := b[..|b| - 1], b[|b| - 1];
    var q := RecencyConcat(a, init);
    assert (a + b)[..|a + b| - 1] == a + init;
    var r := Recency(init);
    RecencyExact(a + init);
    if k in r {
      InBackOnly(q, r, k);
      WithoutConcat(q, r, k);
      p := q;
    } else {
      WithoutAbsent(r, k);
      p := Without(q, k);
      if k in q {
        WithoutFront(q, r, k);
      } else {
        WithoutAbsent(q, k);
        WithoutAbsent(q + r, k);
      }
    }
    assert (p + Without(r, k)) + [k] == p + (Without(r, k) + [k]);
  }

  lemma InBackOnly(q: seq<Key>, r: seq<Key>, k: Key)
    requires BssTableLru.DistinctKeys(q + r) && k in r
    ensures k !in q
  {
    var j :| 0 <= j < |r| && r[j] == k;
    assert (q + r)[|q| + j] == k;
    assert forall i :: 0 <= i < |q| ==> (q + r)[i] == q[i];
  }

  lemma {:induction false} RecencyOfDistinct(s: seq<Key>)
    requires BssTableLru.DistinctKeys(s)
    ensures Recency(s) == s
  {
    if s != [] {
      var init, k := s[..|s| - 1], s[|s| - 1];
      RecencyOfDistinct(init);
      WithoutAbsent(init, k);
      assert s == init + [k];
    }
  }

  lemma {:induction false} DistinctLength(s: seq<Key>)
    requires BssTableLru.DistinctKeys(s)
    ensures DistinctCount(s) == |s|
  {
    if s != [] {
      var init, k := s[..|s| - 1], s[|s| - 1];
      DistinctLength(init);
      assert (set x | x in s) == (set x | x in init) + {k};
    }
  }

  lemma RecencyLength(h: seq<Key>)
    ensures |Recency(h)| == DistinctCount(h)
  {
    RecencyExact(h);
    DistinctLength(Recency(h));
    assert (set k | k in Recency(h)) == (set k | k in h);
  }

  // ----- the results of a round

  lemma {:induction false} HistoryConcat(a: seq<Event>, b: seq<Event>)
    ensures History(a + b) == History(a) + History(b)
  {
    hide SsidOf;
    if b == [] {
      assert a + b == a;
    } else {
      HistoryConcat(a, b[..|b| - 1]);
      assert (a + b)[..|a + b| - 1] == a + b[..|b| - 1];
    }
  }

  /** The key of one result, when it is stored. */
  function KeyOfResult(r: Received): seq<Key> {
    if SsidOf(r.res).Some? then [(r.res.bssid, SsidOf(r.res).value)] else []
  }

  lemma LastResult(results: seq<Received>)
    requires results != []
    ensures var init, r := results[..|results| - 1], results[|results| - 1];
            && BssStore.RoundEvents(results) == BssStore.RoundEvents(init) + [ScanResult(r.res, r.now, r.moves)]
            && StoredKeys(results) == StoredKeys(init) + KeyOfResult(r)
  {
    hide SsidOf;
    var evs := BssStore.RoundEvents(results);
    assert evs[..|evs| - 1] == BssStore.RoundEvents(results[..|results| - 1]);
  }

  lemma RecencySnoc(all: seq<Key>, k: Key)
    ensures Recency(all + [k]) == Without(Recency(all), k) + [k]
  {
    assert (all + [k])[..|all|] == all;
  }

  /** Taking the results of a round leaves the keys seen last, as many as fit. */
  lemma {:induction false} ResultsHoldRecent(cfg: Config, before: seq<Event>, results: seq<Received>)
    ensures Keys(Run(cfg, before + BssStore.RoundEvents(results)).lru)
         == LastN(Recency(Keys(Run(cfg, before).lru) + StoredKeys(results)), cfg.maxCount)
  {
    hide Inv, SsidOf, LastN, Run, Recency, StoredKeys, Keys, Without;
    var keys := Keys(Run(cfg, before).lru);
    if results == [] {
      assert before + BssStore.RoundEvents(results) == before && keys + StoredKeys(results) == keys by {
        NoResults(results);
      }
      ReachableInv(cfg, before);
      ListedKeys(Run(cfg, before), cfg);
    } else {
      hide BssStore.RoundEvents;
      var init, r := results[..|results| - 1], results[|results| - 1];
      LastResult(results);
      ResultsHoldRecent(cfg, before, init);
      var evs, all := before + BssStore.RoundEvents(init), keys + StoredKeys(init);
      assert before + BssStore.RoundEvents(results) == evs + [ScanResult(r.res, r.now, r.moves)];
      assert keys + StoredKeys(results) == all + KeyOfResult(r);
      TakesOne(cfg, evs, r, all);
      if SsidOf(r.res).Some? {
        RecencySnoc(all, (r.res.bssid, SsidOf(r.res).value));
      } else {
        assert all + KeyOfResult(r) == all;
      }
    }
  }

  lemma NoResults(results: seq<Received>)
    requires results == []
    ensures BssStore.RoundEvents(results) == [] && StoredKeys(results) == []
  {
  }

  lemma ListedKeys(t: Table, cfg: Config)
    requires Inv(t, cfg)
    ensures LastN(Recency(Keys(t.lru)), cfg.maxCount) == Keys(t.lru)
  {
    InvIsOrdered(t, cfg);
    KeysDistinct(t.lru);
    RecencyOfDistinct(Keys(t.lru));
  }

  lemma TakesOne(cfg: Config, evs: seq<Event>, r: Received, all: seq<Key>)
    requires Keys(Run(cfg, evs).lru) == LastN(Recency(all), cfg.maxCount)
    ensures Keys(Run(cfg, evs + [ScanResult(r.res, r.now, r.moves)]).lru)
         == if SsidOf(r.res).None? then LastN(Recency(all), cfg.maxCount)
            else
              var k := (r.res.bssid, SsidOf(r.res).value);
              LastN(Without(Recency(all), k) + [k], cfg.maxCount)
  {
    hide Inv, SsidOf, Touch, LastN, UpdateScanRes, Recency, Without;
    var ev := ScanResult(r.res, r.now, r.moves);
    assert (evs + [ev])[..|evs|] == evs;
    StepOfResult(Run(cfg, evs), cfg, ev);
    ReachableInv(cfg, evs);
    if SsidOf(r.res).Some? {
      ResultTouches(Run(cfg, evs), cfg, r.res, r.now, r.moves);
      RecencyExact(all);
      TouchRecent(Recency(all), (r.res.bssid, SsidOf(r.res).value), cfg.maxCount);
    } else {
      SkippedResult(Run(cfg, evs), cfg, ev);
    }
  }

  lemma InLastN(p: seq<Key>, r: seq<Key>, max: nat, k: Key)
    requires k in r && |r| <= max
    ensures k in LastN(p + r, max)
  {
    var i :| 0 <= i < |r| && r[i] == k;
    var s := p + r;
    assert s[|p| + i] == k;
    if |s| > max {
      assert LastN(s, max)[|p| + i - (|s| - max)] == k;
    }
  }

  /** All keys of a round that fits the table are listed when its results have been taken. */
  lemma ResultsListed(cfg: Config, before: seq<Event>, results: seq<Received>)
    requires DistinctCount(StoredKeys(results)) <= cfg.maxCount
    ensures forall k :: k in StoredKeys(results) ==> k in Keys(Run(cfg, before + BssStore.RoundEvents(results)).lru)
  {
    hide Run, StoredKeys, LastN, Recency, Keys, DistinctCount;
    ResultsHoldRecent(cfg, before, results);
    var p := RecencyConcat(Keys(Run(cfg, before).lru), StoredKeys(results));
    RecencyExact(StoredKeys(results));
    RecencyLength(StoredKeys(results));
    forall k | k in StoredKeys(results)
      ensures k in Keys(Run(cfg, before + BssStore.RoundEvents(results)).lru)
    {
      InLastN(p, Recency(StoredKeys(results)), cfg.maxCount, k);
    }
  }

  // ----- the end of a round

  /** Entries stored in this round count as updated in this scan. */
  lemma {:induction false} StoredIsCurrent(cfg: Config, before: seq<Event>, results: seq<Received>, e: Entry)
    requires e in Run(cfg, before + BssStore.RoundEvents(results)).lru && KeyOf(e) in StoredKeys(results)
    ensures e.missCount == 0 && e.updateIdx == Run(cfg, before + BssStore.RoundEvents(results)).updateIdx
  {
    hide UpdateScanRes, SsidOf, Find;
    var n := |results| - 1;
    var r, init := results[n], BssStore.RoundEvents(results[..n]);
    var evs := BssStore.RoundEvents(results);
    var ev := ScanResult(r.res, r.now, r.moves);
    assert evs[..|evs| - 1] == init && (before + evs)[..|before + evs| - 1] == before + init;
    var t := Run(cfg, before + init);
    StepOfResult(t, cfg, ev);
    ReachableInv(cfg, before + init);
    ScanResOrigin(t, cfg, r.res, r.now, r.moves, e);
    if Touched(t, r.res) != Some(e.id) {
      OthersKey(t, cfg, r, e);
      StoredIsCurrent(cfg, before, results[..n], e);
    }
  }

  /** An entry that a result does not touch has another key. */
  lemma OthersKey(t: Table, cfg: Config, r: Received, e: Entry)
    requires Inv(t, cfg) && e in t.lru && Touched(t, r.res) != Some(e.id)
    ensures SsidOf(r.res).Some? ==> KeyOf(e) != (r.res.bssid, SsidOf(r.res).value)
  {
    hide SsidOf, Ordered, Find;
    if SsidOf(r.res).Some? {
      FindExact(t.lru, r.res.bssid, SsidOf(r.res).value);
      if KeyOf(e) == (r.res.bssid, SsidOf(r.res).value) {
        SameKeySameEntry(t.lru, e, Find(t.lru, r.res.bssid, SsidOf(r.res).value).value);
      }
    }
  }

  lemma CurrentStays(t: Table, cfg: Config, info: Option<ScanInfo>, e: Entry)
    requires e.missCount == 0 && e.updateIdx == t.updateIdx && cfg.expirationScanCount >= 1
    ensures AtScanEnd(t, cfg, info, e).Some?
  {
  }

  /** A round in which what is seen this scan does not expire at its end. */
  ghost predicate Lasting(cfg: Config, newScan: bool) {
    newScan ==> cfg.expirationScanCount >= 1
  }

  /** Whatever happened before, all keys of a round are listed at its end exactly
      when the table has room for as many different keys. */
  lemma RoundListed(cfg: Config, before: seq<Event>, results: seq<Received>, info: Option<ScanInfo>, newScan: bool)
    requires Lasting(cfg, newScan)
    ensures (forall k :: k in StoredKeys(results) ==>
               k in Keys(BssStore.ScanRound(Run(cfg, before), cfg, results, info, newScan).lru))
       <==> DistinctCount(StoredKeys(results)) <= cfg.maxCount
  {
    hide Run, BssStore.ScanRound, Keys, StoredKeys, AtScanEnd;
    BssStore.RoundIsRun(cfg, before, results, info, newScan);
    var started := before + [UpdateStart];
    var taken := started + BssStore.RoundEvents(results);
    if DistinctCount(StoredKeys(results)) <= cfg.maxCount {
      ResultsListed(cfg, started, results);
      forall k | k in StoredKeys(results)
        ensures k in Keys(Run(cfg, taken + [ScanEnd(info, newScan)]).lru)
      {
        KeysExact(Run(cfg, taken).lru, k);
        var e :| e in Run(cfg, taken).lru && KeyOf(e) == k;
        StoredIsCurrent(cfg, started, results, e);
        if newScan {
          CurrentStays(Run(cfg, taken), cfg, info, e);
        }
        LossExact(cfg, taken, ScanEnd(info, newScan), e);
      }
    } else {
      ReachableInv(cfg, taken + [ScanEnd(info, newScan)]);
      TooMany(Run(cfg, taken + [ScanEnd(info, newScan)]), cfg, StoredKeys(results));
    }
  }

  lemma TooMany(t: Table, cfg: Config, keys: seq<Key>)
    requires Inv(t, cfg) && DistinctCount(keys) > cfg.maxCount
    ensures exists k :: k in keys && k !in Keys(t.lru)
  {
    hide Keys;
    InvIsOrdered(t, cfg);
    KeysDistinct(t.lru);
    DistinctLength(Keys(t.lru));
    KeysLength(t.lru);
    if forall k :: k in keys ==> k in Keys(t.lru) {
      var a, b := set k | k in keys, set k | k in Keys(t.lru);
      assert a <= b;
      SubsetSize(a, b);
    }
  }

  lemma KeysLength(lru: seq<Entry>)
    ensures |Keys(lru)| == |lru|
  {
  }

  lemma {:induction false} SubsetSize(a: set<Key>, b: set<Key>)
    requires a <= b
    ensures |a| <= |b|
  {
    if a != {} {
      var x :| x in a;
      SubsetSize(a - {x}, b - {x});
    }
  }
}
