/** What the expiry loops of the BSS table remove, measured against plain filters. */
module BssTableExpiry {
  import opened BssTable
  import opened BssTableInvariant
  import opened Wrappers

  /** The fields of the table that decide whether an entry is in use or was updated in this scan. */
  ghost predicate SameContext(t: Table, u: Table) {
    t.current == u.current && t.bssid == u.bssid && t.pendingBssid == u.pendingBssid
    && t.updateIdx == u.updateIdx && t.nextId == u.nextId
  }

  lemma {:induction false} ReplaceInPlace(t: Table, i: nat, f: Entry)
    requires Sound(t) && i < |t.lru|
    requires f.id == t.lru[i].id && f.bssid == t.lru[i].bssid && f.ssid == t.lru[i].ssid
    requires f.updateIdx == t.lru[i].updateIdx
    ensures Sound(t.(lru := t.lru[i := f]))
  {
    var u := t.lru[i := f];
    forall id
      ensures HasId(u, id) <==> HasId(t.lru, id)
    {
      if HasId(t.lru, id) {
        var e :| e in t.lru && e.id == id;
        var k :| 0 <= k < |t.lru| && t.lru[k] == e;
        assert u[k] in u;
      }
      if HasId(u, id) {
        var e :| e in u && e.id == id;
        var k :| 0 <= k < |u| && u[k] == e;
        assert t.lru[k] in t.lru;
      }
    }
    assert t.lru[i] in t.lru;
  }

  // ----- missed scans

  /** The entries that stay at the end of a new scan, with their counts, in order. */
  function Survivors(t: Table, cfg: Config, info: Option<ScanInfo>, es: seq<Entry>): seq<Entry> {
    if es == [] then []
    else
      var f := AtScanEnd(t, cfg, info, es[0]);
      (if f.Some? then [f.value] else []) + Survivors(t, cfg, info, es[1..])
  }

  lemma {:induction false} SameSurvivors(t: Table, u: Table, cfg: Config, info: Option<ScanInfo>, es: seq<Entry>)
    requires SameContext(t, u)
    ensures Survivors(t, cfg, info, es) == Survivors(u, cfg, info, es)
  {
    if es != [] {
      SameSurvivors(t, u, cfg, info, es[1..]);
    }
  }

  lemma RemoveAtPosition(t: Table, i: nat)
    requires Sound(t) && i < |t.lru|
    ensures Remove(t, t.lru[i]).lru == t.lru[..i] + t.lru[i + 1..]
    ensures t.lru[i] in t.lru
  {
    EntryAt(t.lru, i);
  }

  lemma KeepStep(t: Table, cfg: Config, info: Option<ScanInfo>, i: nat)
    requires Sound(t) && i < |t.lru| && AtScanEnd(t, cfg, info, t.lru[i]).Some?
    ensures var f := AtScanEnd(t, cfg, info, t.lru[i]).value;
            var next := t.(lru := t.lru[i := f]);
            && Sound(next) && SameContext(t, next)
            && next.lru[..i + 1] == t.lru[..i] + [f]
            && next.lru[i + 1..] == t.lru[i + 1..]
  {
    hide Sound, Covered;
    ReplaceInPlace(t, i, AtScanEnd(t, cfg, info, t.lru[i]).value);
  }

  lemma DropStep(t: Table, i: nat)
    requires Sound(t) && i < |t.lru| && !InUse(t, t.lru[i])
    ensures var next := Remove(t, t.lru[i]);
            && Sound(next) && SameContext(t, next) && next.numBss <= t.numBss
            && |next.lru| == |t.lru| - 1
            && next.lru[..i] == t.lru[..i]
            && next.lru[i..] == t.lru[i + 1..]
  {
    hide Sound;
    RemoveAtPosition(t, i);
    RemoveKeepsSound(t, t.lru[i]);
  }

  /** The loop that expires entries in place leaves what filtering the list leaves. */
  lemma {:induction false} UpdateEndFilters(t: Table, cfg: Config, info: Option<ScanInfo>, i: nat)
    requires Sound(t) && i <= |t.lru|
    ensures var u := UpdateEndFrom(t, cfg, info, i);
            && u.lru == t.lru[..i] + Survivors(t, cfg, info, t.lru[i..])
            && Sound(u) && u.numBss <= t.numBss && SameContext(t, u)
    decreases |t.lru| - i
  {
    hide Sound, Covered, SameContext, AtScanEnd, Remove, Without;
    if i < |t.lru| {
      var e := t.lru[i];
      var f := AtScanEnd(t, cfg, info, e);
      assert t.lru[i..] == [e] + t.lru[i + 1..];
      if f.Some? {
        var next := t.(lru := t.lru[i := f.value]);
        KeepStep(t, cfg, info, i);
        UpdateEndFilters(next, cfg, info, i + 1);
        SameSurvivors(t, next, cfg, info, t.lru[i + 1..]);
        ContextTransitive(t, next, UpdateEndFrom(next, cfg, info, i + 1));
      } else {
        var next := Remove(t, e);
        RemovedNotInUse(t, cfg, info, e);
        DropStep(t, i);
        UpdateEndFilters(next, cfg, info, i);
        SameSurvivors(t, next, cfg, info, t.lru[i + 1..]);
        ContextTransitive(t, next, UpdateEndFrom(next, cfg, info, i));
      }
    } else {
      assert t.lru[i..] == [] && t.lru[..i] == t.lru;
      ContextKept(t, t);
    }
  }

  lemma RemovedNotInUse(t: Table, cfg: Config, info: Option<ScanInfo>, e: Entry)
    requires AtScanEnd(t, cfg, info, e).None?
    ensures !InUse(t, e)
  {
  }

  lemma ContextKept(t: Table, u: Table)
    requires t.current == u.current && t.bssid == u.bssid && t.pendingBssid == u.pendingBssid
    requires t.updateIdx == u.updateIdx && t.nextId == u.nextId
    ensures SameContext(t, u)
  {
  }

  lemma ContextTransitive(t: Table, u: Table, v: Table)
    requires SameContext(t, u) && SameContext(u, v)
    ensures SameContext(t, v)
  {
  }

  lemma {:induction false} SurvivorsExact(t: Table, cfg: Config, info: Option<ScanInfo>, es: seq<Entry>)
    ensures forall f :: f in Survivors(t, cfg, info, es)
                   <==> exists e :: e in es && AtScanEnd(t, cfg, info, e) == Some(f)
  {
    if es != [] {
      SurvivorsExact(t, cfg, info, es[1..]);
      assert forall e :: e in es <==> e == es[0] || e in es[1..];
    }
  }

  // ----- age

  ghost predicate Stale(t: Table, limit: Time, e: Entry) {
    !InUse(t, e) && TimeBefore(e.lastUpdate, limit)
  }

  ghost predicate Fresh(t: Table, limit: Time, e: Entry) {
    !InUse(t, e) && !TimeBefore(e.lastUpdate, limit)
  }

  /** What is left when every entry that is too old and not in use goes. */
  ghost function NotExpired(t: Table, limit: Time, es: seq<Entry>): seq<Entry> {
    if es == [] then []
    else (if Stale(t, limit, es[0]) then [] else [es[0]]) + NotExpired(t, limit, es[1..])
  }

  /** What is left when expiry stops at the first fresh entry. */
  ghost function UntilFresh(t: Table, limit: Time, es: seq<Entry>): seq<Entry> {
    if es == [] then []
    else if Stale(t, limit, es[0]) then UntilFresh(t, limit, es[1..])
    else if Fresh(t, limit, es[0]) then es
    else [es[0]] + UntilFresh(t, limit, es[1..])
  }

  lemma {:induction false} SameUntilFresh(t: Table, u: Table, limit: Time, es: seq<Entry>)
    requires SameContext(t, u)
    ensures UntilFresh(t, limit, es) == UntilFresh(u, limit, es)
  {
    if es != [] {
      SameUntilFresh(t, u, limit, es[1..]);
    }
  }

  lemma {:induction false} FlushLoop(t: Table, limit: Time, i: nat)
    requires Sound(t) && i <= |t.lru|
    ensures var u := FlushOldFrom(t, limit, i);
            && u.lru == t.lru[..i] + UntilFresh(t, limit, t.lru[i..])
            && Sound(u) && u.numBss <= t.numBss && SameContext(t, u)
    decreases |t.lru| - i
  {
    hide Sound, SameContext, TimeBefore, Remove, Without;
    ContextKept(t, t);
    if i < |t.lru| {
      var e := t.lru[i];
      assert t.lru[i..] == [e] + t.lru[i + 1..];
      if InUse(t, e) {
        FlushLoop(t, limit, i + 1);
        assert t.lru[..i + 1] == t.lru[..i] + [e];
      } else if TimeBefore(e.lastUpdate, limit) {
        var next := Remove(t, e);
        DropStep(t, i);
        FlushLoop(next, limit, i);
        SameUntilFresh(t, next, limit, t.lru[i + 1..]);
        ContextTransitive(t, next, FlushOldFrom(next, limit, i));
      } else {
        assert t.lru == t.lru[..i] + t.lru[i..];
      }
    } else {
      assert t.lru[i..] == [] && t.lru[..i] == t.lru;
    }
  }

  /** An entry that is too old and not in use comes after a fresh one. */
  ghost predicate StaleBehindFresh(t: Table, limit: Time, es: seq<Entry>) {
    exists i, j :: 0 <= i < j < |es| && Fresh(t, limit, es[i]) && Stale(t, limit, es[j])
  }

  lemma {:induction false} NotExpiredAll(t: Table, limit: Time, es: seq<Entry>)
    ensures |NotExpired(t, limit, es)| <= |es|
    ensures NotExpired(t, limit, es) == es <==> forall j :: 0 <= j < |es| ==> !Stale(t, limit, es[j])
  {
    if es != [] {
      NotExpiredAll(t, limit, es[1..]);
      assert forall j :: 0 <= j < |es| - 1 ==> es[1..][j] == es[j + 1];
      if !Stale(t, limit, es[0]) && NotExpired(t, limit, es) == es {
        assert NotExpired(t, limit, es[1..]) == es[1..];
      }
    }
  }

  /** Stopping early removes what scanning the whole list would remove exactly
      when no expired entry stands behind a fresh one. */
  lemma {:induction false} EarlyExitExact(t: Table, limit: Time, es: seq<Entry>)
    ensures UntilFresh(t, limit, es) == NotExpired(t, limit, es) <==> !StaleBehindFresh(t, limit, es)
  {
    if es != [] {
      var rest := es[1..];
      EarlyExitExact(t, limit, rest);
      assert forall j :: 0 <= j < |rest| ==> rest[j] == es[j + 1];
      if StaleBehindFresh(t, limit, rest) {
        var i, j :| 0 <= i < j < |rest| && Fresh(t, limit, rest[i]) && Stale(t, limit, rest[j]);
        assert Fresh(t, limit, es[i + 1]) && Stale(t, limit, es[j + 1]);
      }
      if Fresh(t, limit, es[0]) {
        NotExpiredAll(t, limit, es);
      } else if StaleBehindFresh(t, limit, es) {
        var i, j :| 0 <= i < j < |es| && Fresh(t, limit, es[i]) && Stale(t, limit, es[j]);
        assert Fresh(t, limit, rest[i - 1]) && Stale(t, limit, rest[j - 1]);
      }
      if !Stale(t, limit, es[0]) && !Fresh(t, limit, es[0]) {
        assert UntilFresh(t, limit, es)[1..] == UntilFresh(t, limit, rest);
        assert NotExpired(t, limit, es)[1..] == NotExpired(t, limit, rest);
      }
    }
  }

  /** Whatever the list, an age flush only removes entries that are too old and not in use. */
  lemma {:induction false} FlushOnlyStale(t: Table, limit: Time, es: seq<Entry>)
    ensures forall e :: e in es && e !in UntilFresh(t, limit, es) ==> Stale(t, limit, e)
    ensures forall e :: e in UntilFresh(t, limit, es) ==> e in es
  {
    if es != [] {
      FlushOnlyStale(t, limit, es[1..]);
    }
  }

  ghost predicate TimeOrdered(es: seq<Entry>) {
    && (forall e :: e in es ==> Normalised(e.lastUpdate))
    && (forall i, j :: 0 <= i < j < |es| ==> Micros(es[i].lastUpdate) <= Micros(es[j].lastUpdate))
  }

  /** With the list in time order, the flush removes exactly the entries that are too old and not in use. */
  lemma TimeOrderedFlushExact(t: Table, limit: Time)
    requires Sound(t) && TimeOrdered(t.lru) && Normalised(limit)
    ensures FlushOldFrom(t, limit, 0).lru == NotExpired(t, limit, t.lru)
  {
    FlushLoop(t, limit, 0);
    assert t.lru[0..] == t.lru && t.lru[..0] == [];
    forall i, j | 0 <= i < j < |t.lru|
      ensures !(Fresh(t, limit, t.lru[i]) && Stale(t, limit, t.lru[j]))
    {
      TimeBeforeExact(t.lru[i].lastUpdate, limit);
      TimeBeforeExact(t.lru[j].lastUpdate, limit);
    }
    EarlyExitExact(t, limit, t.lru);
  }

  // ----- flushing everything

  ghost function InUseOnly(t: Table, es: seq<Entry>): seq<Entry> {
    if es == [] then []
    else (if InUse(t, es[0]) then [es[0]] else []) + InUseOnly(t, es[1..])
  }

  lemma {:induction false} SameInUseOnly(t: Table, u: Table, es: seq<Entry>)
    requires SameContext(t, u)
    ensures InUseOnly(t, es) == InUseOnly(u, es)
  {
    if es != [] {
      SameInUseOnly(t, u, es[1..]);
    }
  }

  /** A full flush keeps exactly the entries in use. */
  lemma {:induction false} FlushKeepsInUse(t: Table, i: nat)
    requires Sound(t) && i <= |t.lru|
    ensures var u := FlushFrom(t, i);
            && u.lru == t.lru[..i] + InUseOnly(t, t.lru[i..])
            && Sound(u) && u.numBss <= t.numBss && SameContext(t, u)
    decreases |t.lru| - i
  {
    hide Sound, SameContext, Remove, Without;
    ContextKept(t, t);
    if i < |t.lru| {
      var e := t.lru[i];
      assert t.lru[i..] == [e] + t.lru[i + 1..];
      if InUse(t, e) {
        FlushKeepsInUse(t, i + 1);
        assert t.lru[..i + 1] == t.lru[..i] + [e];
      } else {
        var next := Remove(t, e);
        DropStep(t, i);
        FlushKeepsInUse(next, i);
        SameInUseOnly(t, next, t.lru[i + 1..]);
        ContextTransitive(t, next, FlushFrom(next, i));
      }
    } else {
      assert t.lru[i..] == [] && t.lru[..i] == t.lru;
    }
  }
}
