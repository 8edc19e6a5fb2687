/** Runs of the BSS table: the invariant, least-recent eviction, missed-scan
    counts and age expiry, over every sequence of events. */
module BssTableRuns {
  import opened InfoElements
  import opened BssTable
  import opened BssTableInvariant
  import opened BssTableExpiry
  import opened Wrappers

  /** One call into the table, or a change of the association state it consults. */
  datatype Event =
    | UpdateStart
    | ScanResult(res: ScanRes, now: Time, moves: bool)
    | ScanEnd(info: Option<ScanInfo>, newScan: bool)
    | AgeFlush(now: Time, age: int)
    | FlushAll
    | Associate(current: Option<nat>, bssid: Mac, pendingBssid: Mac)

  const EMPTY := Table([], [], 0, 0, 0, None, [], [])

  function Step(t: Table, cfg: Config, ev: Event): Table {
    match ev
    case UpdateStart => t.(updateIdx := t.updateIdx + 1)
    case ScanResult(res, now, moves) => UpdateScanRes(t, cfg, res, now, moves)
    case ScanEnd(info, newScan) => UpdateEnd(t, cfg, info, newScan)
    case AgeFlush(now, age) => FlushByAge(t, now, age)
    case FlushAll => FlushFrom(t, 0)
    case Associate(current, bssid, pendingBssid) =>
      t.(current := if current.Some? && current.value in t.byId then current else None,
         bssid := bssid, pendingBssid := pendingBssid)
  }

  function Run(cfg: Config, evs: seq<Event>): Table {
    if evs == [] then EMPTY else Step(Run(cfg, evs[..|evs| - 1]), cfg, evs[|evs| - 1])
  }

  /** Every event keeps the two lists, the keys, the order and the capacity right. */
  lemma StepKeepsInv(t: Table, cfg: Config, ev: Event)
    requires Inv(t, cfg)
    ensures Inv(Step(t, cfg, ev), cfg)
  {
    hide Ordered, Ascending, Remove, UpdateScanRes;
    assert t.lru[0..] == t.lru && t.lru[..0] == [];
    match ev {
      case UpdateStart =>
      case ScanResult(res, now, moves) => ScanResKeepsInv(t, cfg, res, now, moves);
      case ScanEnd(info, newScan) => UpdateEndFilters(t, cfg, info, 0);
      case AgeFlush(now, age) => FlushLoop(t, now.(sec := now.sec - age), 0);
      case FlushAll => FlushKeepsInUse(t, 0);
      case Associate(_, _, _) =>
    }
  }

  lemma {:induction false} ReachableInv(cfg: Config, evs: seq<Event>)
    ensures Inv(Run(cfg, evs), cfg)
  {
    hide Step;
    if evs != [] {
      ReachableInv(cfg, evs[..|evs| - 1]);
      StepKeepsInv(Run(cfg, evs[..|evs| - 1]), cfg, evs[|evs| - 1]);
    }
  }

  // ----- missed scans

  /** The id of the entry a scan result updates or creates. */
  function Touched(t: Table, res: ScanRes): Option<nat> {
    var ssid := SsidOf(res);
    if ssid.None? then None
    else
      var e := Find(t.lru, res.bssid, ssid.value);
      if e.None? then Some(t.nextId) else Some(e.value.id)
  }

  /** The last event is a scan result for the entry with this id. */
  ghost predicate Touches(cfg: Config, before: seq<Event>, ev: Event, id: nat) {
    ev.ScanResult? && Touched(Run(cfg, before), ev.res) == Some(id)
  }

  /** The entry has been updated since the last update_start. */
  ghost predicate SeenThisScan(cfg: Config, evs: seq<Event>, id: nat) {
    if evs == [] then false
    else
      var before, ev := evs[..|evs| - 1], evs[|evs| - 1];
      if ev.UpdateStart? then false
      else Touches(cfg, before, ev, id) || SeenThisScan(cfg, before, id)
  }

  /** A new scan ends that covers the entry, with the entry listed and not in use. */
  ghost predicate Exposed(cfg: Config, before: seq<Event>, ev: Event, id: nat) {
    && ev.ScanEnd? && ev.newScan
    && exists e :: && e in Run(cfg, before).lru && e.id == id
                   && !InUse(Run(cfg, before), e) && Covered(e, ev.info)
  }

  /** How many new scans have ended, since the last update of the entry, that
      covered it, found it not in use and did not update it. */
  ghost function Missed(cfg: Config, evs: seq<Event>, id: nat): nat {
    if evs == [] then 0
    else
      var before, ev := evs[..|evs| - 1], evs[|evs| - 1];
      if Touches(cfg, before, ev, id) then 0
      else if Exposed(cfg, before, ev, id) && !SeenThisScan(cfg, before, id)
      then Missed(cfg, before, id) + 1
      else Missed(cfg, before, id)
  }

  /** The bookkeeping fields of an entry agree with the trace. */
  ghost predicate CountsAgree(cfg: Config, evs: seq<Event>, e: Entry) {
    && e.missCount == Missed(cfg, evs, e.id)
    && (e.updateIdx == Run(cfg, evs).updateIdx <==> SeenThisScan(cfg, evs, e.id))
  }

  /** Where an entry of the next table comes from. */
  lemma ScanResOrigin(t: Table, cfg: Config, res: ScanRes, now: Time, moves: bool, f: Entry)
    requires Inv(t, cfg) && f in UpdateScanRes(t, cfg, res, now, moves).lru
    ensures UpdateScanRes(t, cfg, res, now, moves).updateIdx == t.updateIdx
    ensures if Touched(t, res) == Some(f.id) then f.missCount == 0 && f.updateIdx == t.updateIdx
            else f in t.lru
  {
    hide Parse, Ordered, Ascending;
    var ssid := SsidOf(res);
    if ssid.Some? {
      FindExact(t.lru, res.bssid, ssid.value);
      var e := Find(t.lru, res.bssid, ssid.value);
      if e.None? {
        var n := NewEntry(t, ssid.value, res, now);
        AppendKeepsSound(t, n);
        var u := Append(t, n);
        assert u.lru[0] in u.lru;
        RemoveKeepsSound(u, u.lru[0]);
      } else {
        UpdateKeepsSound(t, e.value, res, now, moves);
        assert f != e.value && f in t.lru ==> f.id != e.value.id by {
          WithoutExact(t.lru, e.value);
        }
      }
    }
  }

  lemma ScanEndOrigin(t: Table, cfg: Config, info: Option<ScanInfo>, newScan: bool, f: Entry)
    requires Inv(t, cfg) && f in UpdateEnd(t, cfg, info, newScan).lru
    ensures UpdateEnd(t, cfg, info, newScan).updateIdx == t.updateIdx
    ensures exists e :: && e in t.lru && e.id == f.id
                        && f == if newScan && !InUse(t, e) && Covered(e, info) && e.updateIdx < t.updateIdx
                                then e.(missCount := e.missCount + 1) else e
  {
    hide Sound, Covered;
    if newScan {
      assert t.lru[0..] == t.lru;
      UpdateEndFilters(t, cfg, info, 0);
      SurvivorsExact(t, cfg, info, t.lru);
      var e :| e in t.lru && AtScanEnd(t, cfg, info, e) == Some(f);
    }
  }

  lemma OtherOrigin(t: Table, cfg: Config, ev: Event, f: Entry)
    requires Inv(t, cfg) && !ev.ScanResult? && !ev.ScanEnd?
    requires f in Step(t, cfg, ev).lru
    ensures f in t.lru
    ensures Step(t, cfg, ev).updateIdx == if ev.UpdateStart? then t.updateIdx + 1 else t.updateIdx
  {
    hide Sound, Remove;
    assert t.lru[0..] == t.lru;
    match ev {
      case AgeFlush(now, age) =>
        var limit := now.(sec := now.sec - age);
        FlushLoop(t, limit, 0);
        FlushOnlyStale(t, limit, t.lru);
      case FlushAll =>
        FlushKeepsInUse(t, 0);
        InUseOnlyListed(t, t.lru);
      case _ =>
    }
  }

  lemma {:induction false} InUseOnlyListed(t: Table, es: seq<Entry>)
    ensures forall e :: e in InUseOnly(t, es) ==> e in es
  {
    if es != [] {
      InUseOnlyListed(t, es[1..]);
    }
  }

  lemma SameIdSameEntry(t: Table, e: Entry, f: Entry)
    requires Sound(t) && e in t.lru && f in t.lru && e.id == f.id
    ensures e == f
  {
    var i :| 0 <= i < |t.lru| && t.lru[i] == e;
    var j :| 0 <= j < |t.lru| && t.lru[j] == f;
  }

  /** In every run, scan_miss_count is the number of scans the entry has missed. */
  lemma {:induction false} MissCountExact(cfg: Config, evs: seq<Event>, f: Entry)
    requires f in Run(cfg, evs).lru
    ensures CountsAgree(cfg, evs, f)
    decreases |evs|, 1
  {
    hide Step, Inv, Sound;
    var before, ev := evs[..|evs| - 1], evs[|evs| - 1];
    var t := Run(cfg, before);
    ReachableInv(cfg, before);
    match ev {
      case ScanResult(_, _, _) => ResultCounts(cfg, evs, f);
      case ScanEnd(info, newScan) => EndCounts(cfg, evs, f);
      case _ =>
        OtherOrigin(t, cfg, ev, f);
        MissCountExact(cfg, before, f);
        UpdateIdxBound(cfg, before, f);
    }
  }

  lemma UpdateIdxBound(cfg: Config, evs: seq<Event>, f: Entry)
    requires f in Run(cfg, evs).lru
    ensures f.updateIdx <= Run(cfg, evs).updateIdx
  {
    hide Run;
    ReachableInv(cfg, evs);
  }

  lemma {:induction false} ResultCounts(cfg: Config, evs: seq<Event>, f: Entry)
    requires evs != [] && evs[|evs| - 1].ScanResult?
    requires f in Run(cfg, evs).lru
    ensures CountsAgree(cfg, evs, f)
    decreases |evs|, 0
  {
    hide Inv, UpdateScanRes, Touched;
    var before, ev := evs[..|evs| - 1], evs[|evs| - 1];
    var t := Run(cfg, before);
    ReachableInv(cfg, before);
    ScanResOrigin(t, cfg, ev.res, ev.now, ev.moves, f);
    if Touched(t, ev.res) != Some(f.id) {
      MissCountExact(cfg, before, f);
    }
  }

  lemma {:induction false} EndCounts(cfg: Config, evs: seq<Event>, f: Entry)
    requires evs != [] && evs[|evs| - 1].ScanEnd?
    requires f in Run(cfg, evs).lru
    ensures CountsAgree(cfg, evs, f)
    decreases |evs|, 0
  {
    hide Inv, Sound, UpdateEnd, Covered, InUse;
    var before, ev := evs[..|evs| - 1], evs[|evs| - 1];
    var t := Run(cfg, before);
    ReachableInv(cfg, before);
    ScanEndOrigin(t, cfg, ev.info, ev.newScan, f);
    var e :| && e in t.lru && e.id == f.id
             && f == if ev.newScan && !InUse(t, e) && Covered(e, ev.info) && e.updateIdx < t.updateIdx
                     then e.(missCount := e.missCount + 1) else e;
    MissCountExact(cfg, before, e);
    UpdateIdxBound(cfg, before, e);
    if Exposed(cfg, before, ev, f.id) {
      var g :| g in t.lru && g.id == f.id && !InUse(t, g) && Covered(g, ev.info);
      InvIsSound(t, cfg);
      SameIdSameEntry(t, e, g);
    }
  }

  lemma InvIsSound(t: Table, cfg: Config)
    requires Inv(t, cfg)
    ensures Sound(t)
  {
  }

  /** The end of a new scan keeps an entry unless the scan exposed it and its
      missed scans have reached the configured count; an entry updated in that
      scan stays. */
  lemma ScanEndExpiresExactly(cfg: Config, before: seq<Event>, info: Option<ScanInfo>, e: Entry)
    requires cfg.expirationScanCount >= 1
    requires e in Run(cfg, before).lru
    ensures var ev := ScanEnd(info, true);
            var evs := before + [ev];
            && (HasId(Run(cfg, evs).lru, e.id)
                <==> !(Exposed(cfg, before, ev, e.id) && Missed(cfg, evs, e.id) >= cfg.expirationScanCount))
            && (SeenThisScan(cfg, before, e.id) ==>
                  Missed(cfg, before, e.id) == 0 && HasId(Run(cfg, evs).lru, e.id))
  {
    hide Inv, Sound, Covered, InUse, UpdateEnd;
    var ev := ScanEnd(info, true);
    var evs := before + [ev];
    var t := Run(cfg, before);
    assert evs[..|evs| - 1] == before;
    ReachableInv(cfg, before);
    InvIsSound(t, cfg);
    MissCountExact(cfg, before, e);
    UpdateIdxBound(cfg, before, e);
    SeenHasNoMisses(cfg, before, e.id);
    KeptIffSurvives(t, cfg, info, e);
    if Exposed(cfg, before, ev, e.id) {
      var g :| g in t.lru && g.id == e.id && !InUse(t, g) && Covered(g, info);
      SameIdSameEntry(t, e, g);
    }
  }

  lemma KeptIffSurvives(t: Table, cfg: Config, info: Option<ScanInfo>, e: Entry)
    requires Sound(t) && e in t.lru
    ensures HasId(UpdateEnd(t, cfg, info, true).lru, e.id) <==> AtScanEnd(t, cfg, info, e).Some?
  {
    hide Sound, AtScanEnd, Survivors, UpdateEndFrom;
    assert t.lru[0..] == t.lru && t.lru[..0] == [];
    UpdateEndFilters(t, cfg, info, 0);
    SurvivorsExact(t, cfg, info, t.lru);
    ScanEndKeepsId(t, cfg, info);
    var u := UpdateEnd(t, cfg, info, true);
    var f := AtScanEnd(t, cfg, info, e);
    if f.Some? {
      assert f.value in u.lru;
    }
    if HasId(u.lru, e.id) {
      var h :| h in u.lru && h.id == e.id;
      var g :| g in t.lru && AtScanEnd(t, cfg, info, g) == Some(h);
      SameIdSameEntry(t, e, g);
    }
  }

  lemma ScanEndKeepsId(t: Table, cfg: Config, info: Option<ScanInfo>)
    ensures forall e {:trigger AtScanEnd(t, cfg, info, e)} ::
              AtScanEnd(t, cfg, info, e).Some? ==> AtScanEnd(t, cfg, info, e).value.id == e.id
  {
  }

  lemma {:induction false} SeenHasNoMisses(cfg: Config, evs: seq<Event>, id: nat)
    ensures SeenThisScan(cfg, evs, id) ==> Missed(cfg, evs, id) == 0
  {
    hide Run, Touches, Exposed;
    if evs != [] {
      SeenHasNoMisses(cfg, evs[..|evs| - 1], id);
    }
  }

  /** With an expiration count of zero, even an entry updated in this very scan goes. */
  lemma ZeroCountExpiresUpdated(cfg: Config, before: seq<Event>, info: Option<ScanInfo>, e: Entry)
    requires cfg.expirationScanCount == 0
    requires e in Run(cfg, before).lru
    ensures HasId(Run(cfg, before + [ScanEnd(info, true)]).lru, e.id)
       <==> InUse(Run(cfg, before), e) || !Covered(e, info)
  {
    var evs := before + [ScanEnd(info, true)];
    assert evs[..|evs| - 1] == before;
    ReachableInv(cfg, before);
    KeptIffSurvives(Run(cfg, before), cfg, info, e);
  }

  // ----- age

  /** Scan results carry age 0 and the clock does not go back between them. */
  ghost predicate Timely(evs: seq<Event>) {
    && (forall i :: 0 <= i < |evs| && evs[i].ScanResult? ==> evs[i].res.age == 0 && Normalised(evs[i].now))
    && (forall i, j :: 0 <= i < j < |evs| && evs[i].ScanResult? && evs[j].ScanResult? ==>
          Micros(evs[i].now) <= Micros(evs[j].now))
  }

  /** The time of an entry is the time at which one of the scan results came in. */
  ghost predicate Stamped(evs: seq<Event>, e: Entry) {
    exists i :: 0 <= i < |evs| && evs[i].ScanResult? && evs[i].now == e.lastUpdate
  }

  ghost predicate InTimeOrder(cfg: Config, evs: seq<Event>) {
    TimeOrdered(Run(cfg, evs).lru) && forall e :: e in Run(cfg, evs).lru ==> Stamped(evs, e)
  }

  lemma ConsInTime(e: Entry, rest: seq<Entry>)
    requires Normalised(e.lastUpdate) && TimeOrdered(rest)
    requires forall f :: f in rest ==> Micros(e.lastUpdate) <= Micros(f.lastUpdate)
    ensures TimeOrdered([e] + rest)
  {
    assert forall k :: 0 <= k < |rest| ==> rest[k] in rest;
  }

  lemma TailInTime(es: seq<Entry>)
    requires TimeOrdered(es) && es != []
    ensures TimeOrdered(es[1..])
    ensures forall f :: f in es[1..] ==> Micros(es[0].lastUpdate) <= Micros(f.lastUpdate)
  {
    assert forall k :: 0 <= k < |es| - 1 ==> es[1..][k] == es[k + 1];
  }

  /** Every entry of r has the time of some entry of es. */
  ghost predicate TimesFrom(r: seq<Entry>, es: seq<Entry>) {
    forall f :: f in r ==> exists e :: e in es && e.lastUpdate == f.lastUpdate
  }

  lemma {:induction false} SurvivorsInTime(t: Table, cfg: Config, info: Option<ScanInfo>, es: seq<Entry>)
    requires TimeOrdered(es)
    ensures TimeOrdered(Survivors(t, cfg, info, es)) && TimesFrom(Survivors(t, cfg, info, es), es)
  {
    hide Normalised, Micros, Covered, InUse;
    if es != [] {
      TailInTime(es);
      SurvivorsInTime(t, cfg, info, es[1..]);
      var f := AtScanEnd(t, cfg, info, es[0]);
      if f.Some? {
        assert f.value.lastUpdate == es[0].lastUpdate;
        ConsInTime(f.value, Survivors(t, cfg, info, es[1..]));
      }
      assert forall e :: e in es[1..] ==> e in es;
    }
  }

  lemma {:induction false} UntilFreshInTime(t: Table, limit: Time, es: seq<Entry>)
    requires TimeOrdered(es)
    ensures TimeOrdered(UntilFresh(t, limit, es))
  {
    hide Normalised, Micros, Stale, Fresh;
    if es != [] {
      TailInTime(es);
      UntilFreshInTime(t, limit, es[1..]);
      FlushOnlyStale(t, limit, es[1..]);
      ConsInTime(es[0], UntilFresh(t, limit, es[1..]));
    }
  }

  lemma {:induction false} InUseOnlyInTime(t: Table, es: seq<Entry>)
    requires TimeOrdered(es)
    ensures TimeOrdered(InUseOnly(t, es))
  {
    hide Normalised, Micros, InUse;
    if es != [] {
      TailInTime(es);
      InUseOnlyInTime(t, es[1..]);
      InUseOnlyListed(t, es[1..]);
      ConsInTime(es[0], InUseOnly(t, es[1..]));
    }
  }

  lemma SnocInTime(es: seq<Entry>, e: Entry)
    requires TimeOrdered(es) && Normalised(e.lastUpdate)
    requires forall f :: f in es ==> Micros(f.lastUpdate) <= Micros(e.lastUpdate)
    ensures TimeOrdered(es + [e])
  {
    assert forall k :: 0 <= k < |es| ==> es[k] in es;
  }

  lemma DropInTime(es: seq<Entry>, i: nat)
    requires TimeOrdered(es) && i < |es|
    ensures TimeOrdered(Drop(es, i))
  {
    assert forall f :: f in Drop(es, i) ==> f in es;
  }

  lemma AddInTime(t: Table, cfg: Config, ssid: seq<byte>, res: ScanRes, now: Time)
    requires Inv(t, cfg) && TimeOrdered(t.lru) && res.age == 0 && Normalised(now)
    requires forall e :: e in t.lru ==> Micros(e.lastUpdate) <= Micros(now)
    requires Find(t.lru, res.bssid, ssid).None?
    ensures var u := Add(t, cfg, ssid, res, now);
            TimeOrdered(u.lru) && forall f :: f in u.lru ==> f in t.lru || f.lastUpdate == now
  {
    hide Parse, Ascending, DistinctKeys, ByRecency, TimeOrdered, Without, Micros;
    LastUpdateExact(now, 0);
    SameMicros(now, LastUpdate(now, 0));
    FindExact(t.lru, res.bssid, ssid);
    var n := NewEntry(t, ssid, res, now);
    SnocInTime(t.lru, n);
    AppendKeepsSound(t, n);
    EntryAt(t.lru + [n], 0);
    DropInTime(t.lru + [n], 0);
    assert forall f :: f in Drop(t.lru + [n], 0) ==> f in t.lru + [n];
  }

  lemma SameMicros(a: Time, b: Time)
    requires Normalised(a) && Normalised(b) && Micros(a) == Micros(b)
    ensures a == b
  {
  }

  lemma UpdateInTime(t: Table, cfg: Config, e: Entry, res: ScanRes, now: Time, moves: bool)
    requires Inv(t, cfg) && TimeOrdered(t.lru) && res.age == 0 && Normalised(now) && e in t.lru
    requires forall f :: f in t.lru ==> Micros(f.lastUpdate) <= Micros(now)
    ensures var u := Update(t, e, res, now, moves);
            TimeOrdered(u.lru) && forall f :: f in u.lru ==> f in t.lru || f.lastUpdate == now
  {
    hide Parse, Ascending, DistinctKeys, ByRecency, TimeOrdered, Without, Micros;
    LastUpdateExact(now, 0);
    SameMicros(now, LastUpdate(now, 0));
    var i :| 0 <= i < |t.lru| && t.lru[i] == e;
    EntryAt(t.lru, i);
    DropInTime(t.lru, i);
    assert forall f :: f in Drop(t.lru, i) ==> f in t.lru;
    SnocInTime(Drop(t.lru, i), Updated(t, e, res, now));
  }

  /** A scan result of age 0 arrives at the recent end with the current time. */
  lemma ResultInTime(t: Table, cfg: Config, res: ScanRes, now: Time, moves: bool)
    requires Inv(t, cfg) && TimeOrdered(t.lru) && res.age == 0 && Normalised(now)
    requires forall e :: e in t.lru ==> Micros(e.lastUpdate) <= Micros(now)
    ensures var u := UpdateScanRes(t, cfg, res, now, moves);
            TimeOrdered(u.lru) && forall f :: f in u.lru ==> f in t.lru || f.lastUpdate == now
  {
    hide Add, Update, SsidOf, Micros, TimeOrdered, Inv, Find;
    var ssid := SsidOf(res);
    if ssid.Some? {
      var e := Find(t.lru, res.bssid, ssid.value);
      FindExact(t.lru, res.bssid, ssid.value);
      if e.None? {
        AddInTime(t, cfg, ssid.value, res, now);
      } else {
        UpdateInTime(t, cfg, e.value, res, now, moves);
      }
    }
  }

  lemma {:induction false} TimelyRunInOrder(cfg: Config, evs: seq<Event>)
    requires Timely(evs)
    ensures InTimeOrder(cfg, evs)
  {
    hide Normalised, Micros, TimeOrdered, Inv, Step, NotExpired, UntilFresh, Survivors, InUseOnly;
    if evs == [] {
      EmptyInTime();
    } else {
      var before, ev := evs[..|evs| - 1], evs[|evs| - 1];
      var t := Run(cfg, before);
      TimelyRunInOrder(cfg, before);
      ReachableInv(cfg, before);
      assert forall e :: Stamped(before, e) ==> Stamped(evs, e);
      StepInTime(t, cfg, ev, if ev.ScanResult? then ev.now else Time(0, 0));
      assert Run(cfg, evs) == Step(t, cfg, ev);
      forall f | f in Run(cfg, evs).lru
        ensures Stamped(evs, f)
      {
        assert ev.ScanResult? && f.lastUpdate == ev.now ==> Stamped(evs, f);
        if !(ev.ScanResult? && f.lastUpdate == ev.now) {
          var e :| e in t.lru && e.lastUpdate == f.lastUpdate;
          assert Stamped(before, e);
        }
      }
    }
  }

  lemma EmptyInTime()
    ensures TimeOrdered([])
  {
  }

  lemma StepInTime(t: Table, cfg: Config, ev: Event, now: Time)
    requires Inv(t, cfg) && TimeOrdered(t.lru)
    requires ev.ScanResult? ==> ev.res.age == 0 && ev.now == now && Normalised(now)
    requires ev.ScanResult? ==> forall e :: e in t.lru ==> Micros(e.lastUpdate) <= Micros(now)
    ensures TimeOrdered(Step(t, cfg, ev).lru)
    ensures forall f :: f in Step(t, cfg, ev).lru ==>
              (ev.ScanResult? && f.lastUpdate == now) || exists e :: e in t.lru && e.lastUpdate == f.lastUpdate
  {
    hide Normalised, Micros, TimeOrdered, Sound, UpdateScanRes, Remove, Survivors, UntilFresh, InUseOnly;
    assert t.lru[0..] == t.lru && t.lru[..0] == [];
    match ev {
      case ScanResult(res, n, moves) => ResultInTime(t, cfg, res, n, moves);
      case ScanEnd(info, newScan) =>
        UpdateEndFilters(t, cfg, info, 0);
        SurvivorsInTime(t, cfg, info, t.lru);
        assert newScan ==> Step(t, cfg, ev).lru == Survivors(t, cfg, info, t.lru);
      case AgeFlush(n, age) =>
        var limit := n.(sec := n.sec - age);
        FlushLoop(t, limit, 0);
        UntilFreshInTime(t, limit, t.lru);
        FlushOnlyStale(t, limit, t.lru);
        assert Step(t, cfg, ev).lru == UntilFresh(t, limit, t.lru);
      case FlushAll =>
        FlushKeepsInUse(t, 0);
        InUseOnlyInTime(t, t.lru);
        InUseOnlyListed(t, t.lru);
        assert Step(t, cfg, ev).lru == InUseOnly(t, t.lru);
      case _ =>
    }
  }

  /** In a run of current results and a clock that does not go back, an age
      flush removes exactly the entries that are too old and not in use. */
  lemma AgeFlushExact(cfg: Config, before: seq<Event>, now: Time, age: int, e: Entry)
    requires Timely(before) && Normalised(now)
    ensures e in Run(cfg, before + [AgeFlush(now, age)]).lru
       <==> && e in Run(cfg, before).lru
            && (InUse(Run(cfg, before), e) || Micros(e.lastUpdate) >= Micros(now) - age * USEC)
  {
    hide Micros, Inv, Sound, TimeOrdered;
    var evs := before + [AgeFlush(now, age)];
    assert evs[..|evs| - 1] == before;
    var t := Run(cfg, before);
    var limit := now.(sec := now.sec - age);
    ReachableInv(cfg, before);
    InvIsSound(t, cfg);
    TimelyRunInOrder(cfg, before);
    TimeOrderedFlushExact(t, limit);
    NotExpiredExact(t, limit, t.lru);
    if e in t.lru {
      StaleMeansOld(t.lru, e, now, age);
    }
  }

  lemma StaleMeansOld(lru: seq<Entry>, e: Entry, now: Time, age: int)
    requires TimeOrdered(lru) && e in lru && Normalised(now)
    ensures TimeBefore(e.lastUpdate, now.(sec := now.sec - age))
       <==> Micros(e.lastUpdate) < Micros(now) - age * USEC
  {
    TimeBeforeExact(e.lastUpdate, now.(sec := now.sec - age));
  }

  lemma {:induction false} NotExpiredExact(t: Table, limit: Time, es: seq<Entry>)
    ensures forall e :: e in NotExpired(t, limit, es) <==> e in es && !Stale(t, limit, e)
  {
    if es != [] {
      NotExpiredExact(t, limit, es[1..]);
    }
  }
}
