/** The order of the BSS table in terms of what was seen: in every run the list
    is in the order in which its keys were last seen, so the entry given up when
    the table is full is the one not seen for longest. */
module BssTableSightings {
  import opened InfoElements
  import opened BssTable
  import opened BssTableInvariant
  import opened BssTableExpiry
  import opened BssTableRuns
  import opened BssTableLru
  import opened Wrappers

  /** Every key of the list has been seen, and each one before the next. */
  ghost predicate InSightOrder(h: seq<Key>, lru: seq<Entry>) {
    && (forall e :: e in lru ==> KeyOf(e) in h)
    && (forall i, j :: 0 <= i < j < |lru| ==> LastSeen(h, KeyOf(lru[i])) < LastSeen(h, KeyOf(lru[j])))
  }

  ghost predicate SeenBefore(h: seq<Key>, e: Entry, f: Entry) {
    KeyOf(e) in h && KeyOf(f) in h && LastSeen(h, KeyOf(e)) < LastSeen(h, KeyOf(f))
  }

  // ----- taking entries out

  lemma TailInSightOrder(h: seq<Key>, es: seq<Entry>)
    requires InSightOrder(h, es) && es != []
    ensures InSightOrder(h, es[1..])
    ensures forall f :: f in es[1..] ==> SeenBefore(h, es[0], f)
  {
    assert es[0] in es;
    assert forall k :: 0 <= k < |es| - 1 ==> es[1..][k] == es[k + 1];
  }

  lemma ConsInSightOrder(h: seq<Key>, e: Entry, rest: seq<Entry>)
    requires KeyOf(e) in h && InSightOrder(h, rest)
    requires forall f :: f in rest ==> SeenBefore(h, e, f)
    ensures InSightOrder(h, [e] + rest)
  {
    hide LastSeen;
    assert forall k :: 0 <= k < |rest| ==> rest[k] in rest;
  }

  lemma {:induction false} SurvivorsInSightOrder(h: seq<Key>, t: Table, cfg: Config, info: Option<ScanInfo>,
                                                 es: seq<Entry>)
    requires InSightOrder(h, es)
    ensures InSightOrder(h, Survivors(t, cfg, info, es))
    ensures forall f :: f in Survivors(t, cfg, info, es) ==> exists e :: e in es && KeyOf(e) == KeyOf(f)
  {
    hide LastSeen, Covered, InUse, InSightOrder;
    if es == [] {
      EmptyInSightOrder(h);
    } else {
      TailInSightOrder(h, es);
      var rest := Survivors(t, cfg, info, es[1..]);
      SurvivorsInSightOrder(h, t, cfg, info, es[1..]);
      SeenMember(h, es, es[0]);
      var f := AtScanEnd(t, cfg, info, es[0]);
      if f.Some? {
        assert KeyOf(f.value) == KeyOf(es[0]);
        ConsInSightOrder(h, f.value, rest);
      } else {
        assert [] + rest == rest;
      }
      assert forall e :: e in es[1..] ==> e in es;
    }
  }

  lemma EmptyInSightOrder(h: seq<Key>)
    ensures InSightOrder(h, [])
  {
  }

  lemma SeenMember(h: seq<Key>, es: seq<Entry>, e: Entry)
    requires InSightOrder(h, es) && e in es
    ensures KeyOf(e) in h
  {
  }

  lemma {:induction false} UntilFreshInSightOrder(h: seq<Key>, t: Table, limit: Time, es: seq<Entry>)
    requires InSightOrder(h, es)
    ensures InSightOrder(h, UntilFresh(t, limit, es))
  {
    hide LastSeen, Stale, Fresh, InSightOrder;
    if es != [] {
      TailInSightOrder(h, es);
      UntilFreshInSightOrder(h, t, limit, es[1..]);
      FlushOnlyStale(t, limit, es[1..]);
      SeenMember(h, es, es[0]);
      ConsInSightOrder(h, es[0], UntilFresh(t, limit, es[1..]));
    }
  }

  lemma {:induction false} InUseOnlyInSightOrder(h: seq<Key>, t: Table, es: seq<Entry>)
    requires InSightOrder(h, es)
    ensures InSightOrder(h, InUseOnly(t, es))
  {
    hide LastSeen, InUse, InSightOrder;
    if es != [] {
      TailInSightOrder(h, es);
      InUseOnlyInSightOrder(h, t, es[1..]);
      InUseOnlyListed(t, es[1..]);
      SeenMember(h, es, es[0]);
      ConsInSightOrder(h, es[0], InUseOnly(t, es[1..]));
      assert [] + InUseOnly(t, es[1..]) == InUseOnly(t, es[1..]);
    }
  }

  // ----- one more sighting

  lemma LastSeenSnoc(h: seq<Key>, k: Key, x: Key)
    requires x == k || x in h
    ensures LastSeen(h + [k], x) == if x == k then |h| else LastSeen(h, x)
  {
    assert (h + [k])[..|h|] == h;
  }

  lemma DropInSightOrder(h: seq<Key>, es: seq<Entry>, i: nat)
    requires InSightOrder(h, es) && i < |es|
    ensures InSightOrder(h, Drop(es, i))
  {
    hide LastSeen;
    assert forall f :: f in Drop(es, i) ==> f in es;
  }

  /** A key seen now stands behind all others. */
  lemma SightingAtEnd(h: seq<Key>, es: seq<Entry>, e: Entry)
    requires InSightOrder(h, es) && forall f :: f in es ==> KeyOf(f) != KeyOf(e)
    ensures InSightOrder(h + [KeyOf(e)], es + [e])
  {
    hide LastSeen;
    var k := KeyOf(e);
    forall i, j | 0 <= i < j < |es| + 1
      ensures SeenBefore(h + [k], (es + [e])[i], (es + [e])[j])
    {
      assert es[i] in es;
      LastSeenSnoc(h, k, KeyOf(es[i]));
      if j < |es| {
        assert es[j] in es;
        LastSeenSnoc(h, k, KeyOf(es[j]));
      } else {
        LastSeenSnoc(h, k, k);
      }
    }
  }

  lemma AddInSightOrder(h: seq<Key>, t: Table, cfg: Config, ssid: seq<byte>, res: ScanRes, now: Time)
    requires Inv(t, cfg) && InSightOrder(h, t.lru) && Find(t.lru, res.bssid, ssid).None?
    ensures InSightOrder(h + [(res.bssid, ssid)], Add(t, cfg, ssid, res, now).lru)
  {
    hide Find, Ascending, BssTableInvariant.DistinctKeys, ByRecency, InSightOrder, Without;
    FindExact(t.lru, res.bssid, ssid);
    var n := NewEntry(t, ssid, res, now);
    SightingAtEnd(h, t.lru, n);
    AppendKeepsSound(t, n);
    EntryAt(t.lru + [n], 0);
    DropInSightOrder(h + [KeyOf(n)], t.lru + [n], 0);
  }

  lemma UpdateInSightOrder(h: seq<Key>, t: Table, cfg: Config, e: Entry, res: ScanRes, now: Time, moves: bool)
    requires Inv(t, cfg) && InSightOrder(h, t.lru) && e in t.lru && e.bssid == res.bssid
    ensures InSightOrder(h + [KeyOf(e)], Update(t, e, res, now, moves).lru)
  {
    hide Ascending, BssTableInvariant.DistinctKeys, ByRecency, InSightOrder, Without;
    var i :| 0 <= i < |t.lru| && t.lru[i] == e;
    EntryAt(t.lru, i);
    DropInSightOrder(h, t.lru, i);
    WithoutExact(t.lru, e);
    SightingAtEnd(h, Drop(t.lru, i), Updated(t, e, res, now));
  }

  // ----- runs

  lemma ResultInSightOrder(h: seq<Key>, t: Table, cfg: Config, res: ScanRes, now: Time, moves: bool)
    requires Inv(t, cfg) && InSightOrder(h, t.lru) && SsidOf(res).Some?
    ensures InSightOrder(h + [(res.bssid, SsidOf(res).value)], UpdateScanRes(t, cfg, res, now, moves).lru)
  {
    hide Add, Update, SsidOf, InSightOrder, Inv, Find;
    var ssid := SsidOf(res).value;
    var e := Find(t.lru, res.bssid, ssid);
    FindExact(t.lru, res.bssid, ssid);
    if e.None? {
      AddInSightOrder(h, t, cfg, ssid, res, now);
    } else {
      UpdateInSightOrder(h, t, cfg, e.value, res, now, moves);
    }
  }

  lemma OtherInSightOrder(h: seq<Key>, t: Table, cfg: Config, ev: Event)
    requires Inv(t, cfg) && InSightOrder(h, t.lru) && !(ev.ScanResult? && SsidOf(ev.res).Some?)
    ensures InSightOrder(h, Step(t, cfg, ev).lru)
  {
    hide InSightOrder, Sound, SsidOf, Remove, Survivors, UntilFresh, InUseOnly;
    assert t.lru[0..] == t.lru && t.lru[..0] == [];
    match ev {
      case ScanEnd(info, newScan) =>
        UpdateEndFilters(t, cfg, info, 0);
        SurvivorsInSightOrder(h, t, cfg, info, t.lru);
        assert newScan ==> Step(t, cfg, ev).lru == Survivors(t, cfg, info, t.lru);
      case AgeFlush(now, age) =>
        var limit := now.(sec := now.sec - age);
        FlushLoop(t, limit, 0);
        UntilFreshInSightOrder(h, t, limit, t.lru);
        assert Step(t, cfg, ev).lru == UntilFresh(t, limit, t.lru);
      case FlushAll =>
        FlushKeepsInUse(t, 0);
        InUseOnlyInSightOrder(h, t, t.lru);
        assert Step(t, cfg, ev).lru == InUseOnly(t, t.lru);
      case _ =>
    }
  }

  /** In every run, whatever was expired or flushed on the way, the list holds
      keys that were seen, in the order in which they were last seen. */
  lemma {:induction false} EveryRunInSightOrder(cfg: Config, evs: seq<Event>)
    ensures InSightOrder(History(evs), Run(cfg, evs).lru)
  {
    hide InSightOrder, Inv, Step, SsidOf;
    if evs == [] {
      EmptyInSightOrder([]);
    } else {
      var before, ev := evs[..|evs| - 1], evs[|evs| - 1];
      EveryRunInSightOrder(cfg, before);
      ReachableInv(cfg, before);
      if ev.ScanResult? && SsidOf(ev.res).Some? {
        ResultInSightOrder(History(before), Run(cfg, before), cfg, ev.res, ev.now, ev.moves);
        StepOfResult(Run(cfg, before), cfg, ev);
      } else {
        OtherInSightOrder(History(before), Run(cfg, before), cfg, ev);
        assert History(before) + [] == History(before);
      }
    }
  }

  lemma StepOfResult(t: Table, cfg: Config, ev: Event)
    requires ev.ScanResult?
    ensures Step(t, cfg, ev) == UpdateScanRes(t, cfg, ev.res, ev.now, ev.moves)
  {
  }

  // ----- what is lost

  ghost predicate AnyFreshBefore(t: Table, limit: Time, e: Entry) {
    exists i, j :: 0 <= i < j < |t.lru| && t.lru[j] == e && Fresh(t, limit, t.lru[i])
  }

  /** Why an event may take an entry off the list. */
  ghost predicate LostBy(t: Table, cfg: Config, ev: Event, e: Entry) {
    match ev
    case ScanResult(res, _, _) =>
      && SsidOf(res).Some? && Find(t.lru, res.bssid, SsidOf(res).value).None?
      && t.numBss == cfg.maxCount && t.lru != [] && e == t.lru[0]
    case ScanEnd(info, newScan) => newScan && AtScanEnd(t, cfg, info, e).None?
    case AgeFlush(now, age) =>
      var limit := now.(sec := now.sec - age);
      Stale(t, limit, e) && !AnyFreshBefore(t, limit, e)
    case FlushAll => !InUse(t, e)
    case _ => false
  }

  lemma KeysExact(lru: seq<Entry>, k: Key)
    ensures k in Keys(lru) <==> exists e :: e in lru && KeyOf(e) == k
  {
    if k in Keys(lru) {
      var i :| 0 <= i < |lru| && Keys(lru)[i] == k;
      assert lru[i] in lru;
    }
    forall e | e in lru && KeyOf(e) == k
      ensures k in Keys(lru)
    {
      var i :| 0 <= i < |lru| && lru[i] == e;
      assert Keys(lru)[i] == k;
    }
  }

  lemma SameKeySameEntry(lru: seq<Entry>, e: Entry, f: Entry)
    requires Ordered(lru) && e in lru && f in lru && KeyOf(e) == KeyOf(f)
    ensures e == f
  {
    var i :| 0 <= i < |lru| && lru[i] == e;
    var j :| 0 <= j < |lru| && lru[j] == f;
  }

  /** When the entries of a list come from another, a key stays exactly if its entry does. */
  lemma KeyKept(lru: seq<Entry>, rest: seq<Entry>, e: Entry)
    requires Ordered(lru) && e in lru && forall f :: f in rest ==> f in lru
    ensures KeyOf(e) in Keys(rest) <==> e in rest
  {
    hide Ordered, Keys;
    KeysExact(rest, KeyOf(e));
    if f :| f in rest && KeyOf(f) == KeyOf(e) {
      SameKeySameEntry(lru, e, f);
    }
  }

  lemma InvIsOrdered(t: Table, cfg: Config)
    requires Inv(t, cfg)
    ensures Sound(t) && Ordered(t.lru) && DistinctIds(t.lru)
  {
  }

  lemma KeysDistinct(lru: seq<Entry>)
    requires Ordered(lru)
    ensures BssTableLru.DistinctKeys(Keys(lru))
  {
    assert BssTableInvariant.DistinctKeys(lru);
  }

  /** A key listed before one result is listed after it unless it is the first of a full list. */
  lemma TouchLoses(keys: seq<Key>, k: Key, max: nat, x: Key)
    requires BssTableLru.DistinctKeys(keys) && |keys| <= max && x in keys
    ensures x !in Touch(keys, k, max) <==> k !in keys && |keys| == max && x == keys[0]
  {
    WithoutKey(keys, k);
    var r := Without(keys, k) + [k];
    if k !in keys && |r| > max {
      assert r[1..] == keys[1..] + [k];
      assert x in keys[1..] <==> x != keys[0];
    }
  }

  lemma LostToResult(t: Table, cfg: Config, res: ScanRes, now: Time, moves: bool, e: Entry)
    requires Inv(t, cfg) && e in t.lru
    ensures KeyOf(e) !in Keys(UpdateScanRes(t, cfg, res, now, moves).lru)
       <==> LostBy(t, cfg, ScanResult(res, now, moves), e)
  {
    hide Parse, Touch, Ascending, Ordered, UpdateScanRes, AtScanEnd, FirstById, FirstVendor, Find;
    KeysExact(t.lru, KeyOf(e));
    if SsidOf(res).Some? {
      var k := (res.bssid, SsidOf(res).value);
      ResultTouches(t, cfg, res, now, moves);
      KeysDistinct(t.lru);
      TouchLoses(Keys(t.lru), k, cfg.maxCount, KeyOf(e));
      KeysFind(t.lru, res.bssid, SsidOf(res).value);
      if KeyOf(e) == Keys(t.lru)[0] {
        SameKeySameEntry(t.lru, e, t.lru[0]);
      }
    } else {
      SkippedResult(t, cfg, ScanResult(res, now, moves));
      StepOfResult(t, cfg, ScanResult(res, now, moves));
    }
  }

  lemma LostAtScanEnd(t: Table, cfg: Config, info: Option<ScanInfo>, newScan: bool, e: Entry)
    requires Inv(t, cfg) && e in t.lru
    ensures KeyOf(e) !in Keys(UpdateEnd(t, cfg, info, newScan).lru)
       <==> LostBy(t, cfg, ScanEnd(info, newScan), e)
  {
    hide Inv, Sound, Ordered, SameContext, InUse, Covered, Remove, Keys, AtScanEnd, Survivors;
    InvIsOrdered(t, cfg);
    assert t.lru[0..] == t.lru && t.lru[..0] == [];
    UpdateEndFilters(t, cfg, info, 0);
    assert newScan ==> UpdateEnd(t, cfg, info, newScan).lru == Survivors(t, cfg, info, t.lru);
    SurvivorKey(t, cfg, info, e);
    KeysExact(t.lru, KeyOf(e));
  }

  lemma SurvivorKey(t: Table, cfg: Config, info: Option<ScanInfo>, e: Entry)
    requires Ordered(t.lru) && e in t.lru
    ensures KeyOf(e) in Keys(Survivors(t, cfg, info, t.lru)) <==> AtScanEnd(t, cfg, info, e).Some?
  {
    hide Ordered, Keys, AtScanEnd, Survivors;
    SurvivorsExact(t, cfg, info, t.lru);
    ScanEndKeepsKey(t, cfg, info);
    var s := Survivors(t, cfg, info, t.lru);
    KeysExact(s, KeyOf(e));
    if AtScanEnd(t, cfg, info, e).Some? {
      assert AtScanEnd(t, cfg, info, e).value in s;
    }
    if g :| g in s && KeyOf(g) == KeyOf(e) {
      var o :| o in t.lru && AtScanEnd(t, cfg, info, o) == Some(g);
      SameKeySameEntry(t.lru, e, o);
    }
  }

  lemma ScanEndKeepsKey(t: Table, cfg: Config, info: Option<ScanInfo>)
    ensures forall e {:trigger AtScanEnd(t, cfg, info, e)} ::
              AtScanEnd(t, cfg, info, e).Some? ==> KeyOf(AtScanEnd(t, cfg, info, e).value) == KeyOf(e)
  {
  }

  lemma {:induction false} UntilFreshExact(t: Table, limit: Time, es: seq<Entry>, j: nat)
    requires j < |es| && DistinctIds(es)
    ensures es[j] in UntilFresh(t, limit, es)
       <==> !Stale(t, limit, es[j]) || exists i :: 0 <= i < j && Fresh(t, limit, es[i])
  {
    hide Stale, Fresh;
    StaleNotFresh(t, limit);
    FlushOnlyStale(t, limit, es[1..]);
    var rest := es[1..];
    assert es[0] !in rest;
    if j > 0 {
      assert es[j] == rest[j - 1] && es[j] in rest;
      UntilFreshExact(t, limit, rest, j - 1);
      assert (exists i :: 0 <= i < j && Fresh(t, limit, es[i]))
          <==> Fresh(t, limit, es[0]) || exists i :: 0 <= i < j - 1 && Fresh(t, limit, rest[i]) by {
        assert forall i :: 0 <= i < j - 1 ==> rest[i] == es[i + 1];
        if i :| 0 <= i < j && Fresh(t, limit, es[i]) {
          assert i == 0 || Fresh(t, limit, rest[i - 1]);
        }
      }
    }
  }

  lemma StaleNotFresh(t: Table, limit: Time)
    ensures forall e :: Stale(t, limit, e) ==> !Fresh(t, limit, e)
  {
  }

  lemma LostByAge(t: Table, cfg: Config, now: Time, age: int, e: Entry)
    requires Inv(t, cfg) && e in t.lru
    ensures KeyOf(e) !in Keys(FlushByAge(t, now, age).lru) <==> LostBy(t, cfg, AgeFlush(now, age), e)
  {
    hide Inv, Sound, Ordered, SameContext, Stale, Fresh, Remove, InUse, Keys, UntilFresh;
    InvIsOrdered(t, cfg);
    var limit := now.(sec := now.sec - age);
    assert t.lru[0..] == t.lru && t.lru[..0] == [];
    FlushLoop(t, limit, 0);
    FlushOnlyStale(t, limit, t.lru);
    assert FlushByAge(t, now, age).lru == UntilFresh(t, limit, t.lru);
    KeyKept(t.lru, UntilFresh(t, limit, t.lru), e);
    FreshBefore(t, limit, e);
  }

  lemma FreshBefore(t: Table, limit: Time, e: Entry)
    requires e in t.lru && DistinctIds(t.lru)
    ensures e in UntilFresh(t, limit, t.lru) <==> !Stale(t, limit, e) || AnyFreshBefore(t, limit, e)
  {
    hide Stale, Fresh, UntilFresh;
    var j :| 0 <= j < |t.lru| && t.lru[j] == e;
    UntilFreshExact(t, limit, t.lru, j);
    assert forall k :: 0 <= k < |t.lru| && t.lru[k] == e ==> k == j;
  }

  lemma LostToFlush(t: Table, cfg: Config, e: Entry)
    requires Inv(t, cfg) && e in t.lru
    ensures KeyOf(e) !in Keys(FlushFrom(t, 0).lru) <==> LostBy(t, cfg, FlushAll, e)
  {
    hide Inv, Sound, Ordered, SameContext, Remove, InUse, Keys, InUseOnly;
    InvIsOrdered(t, cfg);
    assert t.lru[0..] == t.lru && t.lru[..0] == [];
    FlushKeepsInUse(t, 0);
    InUseOnlyExact(t, t.lru);
    assert FlushFrom(t, 0).lru == InUseOnly(t, t.lru);
    KeyKept(t.lru, InUseOnly(t, t.lru), e);
  }

  lemma {:induction false} InUseOnlyExact(t: Table, es: seq<Entry>)
    ensures forall e :: e in InUseOnly(t, es) <==> e in es && InUse(t, e)
  {
    hide InUse;
    if es != [] {
      InUseOnlyExact(t, es[1..]);
    }
  }

  /** In any run, an event takes a key off the list exactly for one of these
      reasons: a new key finds the list full and this key is its first; a new
      scan ends, covers the entry, and the entry has missed too many; its data
      is too old and no fresh entry stands before it; or everything not in use
      is flushed. */
  lemma LossExact(cfg: Config, before: seq<Event>, ev: Event, e: Entry)
    requires e in Run(cfg, before).lru
    ensures KeyOf(e) !in Keys(Run(cfg, before + [ev]).lru) <==> LostBy(Run(cfg, before), cfg, ev, e)
  {
    hide LostBy, Inv, Keys;
    var t := Run(cfg, before);
    assert (before + [ev])[..|before|] == before;
    ReachableInv(cfg, before);
    match ev {
      case ScanResult(res, now, moves) => LostToResult(t, cfg, res, now, moves, e);
      case ScanEnd(info, newScan) => LostAtScanEnd(t, cfg, info, newScan, e);
      case AgeFlush(now, age) => LostByAge(t, cfg, now, age, e);
      case FlushAll => LostToFlush(t, cfg, e);
      case _ => NothingLost(t, cfg, ev, e);
    }
  }

  lemma NothingLost(t: Table, cfg: Config, ev: Event, e: Entry)
    requires (ev.UpdateStart? || ev.Associate?) && e in t.lru
    ensures KeyOf(e) in Keys(Step(t, cfg, ev).lru) && !LostBy(t, cfg, ev, e)
  {
    KeysExact(t.lru, KeyOf(e));
  }

  /** In any run, a key that makes room for a new one is the key, among those
      listed, that has not been seen for longest. */
  lemma EvictsLongestUnseen(cfg: Config, before: seq<Event>, res: ScanRes, now: Time, moves: bool, e: Entry, f: Entry)
    requires e in Run(cfg, before).lru && f in Run(cfg, before).lru && f != e
    requires KeyOf(e) !in Keys(Run(cfg, before + [ScanResult(res, now, moves)]).lru)
    ensures KeyOf(e) in History(before) && KeyOf(f) in History(before)
    ensures LastSeen(History(before), KeyOf(e)) < LastSeen(History(before), KeyOf(f))
    ensures |Run(cfg, before).lru| == cfg.maxCount
  {
    hide Run, SsidOf, History, LastSeen, Ordered, Ascending, Find, Keys;
    var t := Run(cfg, before);
    LossExact(cfg, before, ScanResult(res, now, moves), e);
    EveryRunInSightOrder(cfg, before);
    ReachableInv(cfg, before);
    var j :| 0 <= j < |t.lru| && t.lru[j] == f;
    assert t.lru[0] == e;
  }
}
