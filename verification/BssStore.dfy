/** The BSS table as the program keeps it: entries with identity that are
    updated in place and linked on two lists (wpa_supplicant/bss.c).
    Every method is proved to do to the table what BssTable says. */
module BssStore {
  import opened InfoElements
  import opened BssTable
  import opened BssTableInvariant
  import opened BssTableExpiry
  import opened BssTableRuns
  import opened Wrappers

  class Bss {
    var id: nat
    var scanMissCount: nat
    var lastUpdateIdx: nat
    var bssid: Mac
    var ssid: seq<byte>
    var radio: Radio
    var lastUpdate: Time
    var ies: seq<byte>
    var beaconIes: seq<byte>

    constructor (e: Entry)
      ensures View() == e
    {
      id, scanMissCount, lastUpdateIdx := e.id, e.missCount, e.updateIdx;
      bssid, ssid, radio, lastUpdate := e.bssid, e.ssid, e.radio, e.lastUpdate;
      ies, beaconIes := e.ies, e.beaconIes;
    }

    function View(): Entry
      reads this
    {
      Entry(id, scanMissCount, lastUpdateIdx, bssid, ssid, radio, lastUpdate, ies, beaconIes)
    }

    lemma ViewRoom(res: ScanRes)
      ensures Grows(View(), res) <==> |res.ies| + |res.beaconIes| > |ies| + |beaconIes|
    {
    }

    lemma ViewKey()
      ensures View().id == id && View().bssid == bssid && View().ssid == ssid
    {
    }
  }

  ghost function Views(s: seq<Bss>): (r: seq<Entry>)
    reads s
    ensures |r| == |s| && forall i :: 0 <= i < |s| ==> r[i] == s[i].View()
  {
    seq(|s|, i requires 0 <= i < |s| reads s => s[i].View())
  }

  ghost function Ids(s: seq<Bss>): (r: seq<nat>)
    reads s
    ensures |r| == |s| && forall i :: 0 <= i < |s| ==> r[i] == s[i].id
  {
    seq(|s|, i requires 0 <= i < |s| reads s => s[i].id)
  }

  ghost predicate DistinctObjects(s: seq<Bss>) {
    forall i, j :: 0 <= i < j < |s| ==> s[i] != s[j]
  }

  lemma WithoutObject(s: seq<Bss>, b: Bss)
    requires DistinctObjects(s) && b in s
    ensures DistinctObjects(Without(s, b))
    ensures forall c :: c in Without(s, b) <==> c in s && c != b
    ensures forall i :: 0 <= i < |Without(s, b)| ==> Without(s, b)[i] != b && Without(s, b)[i] in s
  {
    hide Without;
    var i :| 0 <= i < |s| && s[i] == b;
    WithoutAt(s, i);
    var r := Drop(s, i);
    assert r == s[..i] + s[i + 1..];
    forall c | c in s && c != b
      ensures c in r
    {
      var k :| 0 <= k < |s| && s[k] == c;
      assert r[if k < i then k else k - 1] == c;
    }
  }

  lemma SnocObject(s: seq<Bss>, b: Bss)
    requires DistinctObjects(s) && b !in s
    ensures DistinctObjects(s + [b])
    ensures forall c :: c in s + [b] <==> c in s || c == b
  {
  }

  lemma ViewsSnoc(s: seq<Bss>, b: Bss)
    ensures Views(s + [b]) == Views(s) + [b.View()]
  {
  }

  lemma IdsSnoc(s: seq<Bss>, b: Bss)
    ensures Ids(s + [b]) == Ids(s) + [b.id]
  {
  }

  lemma SameIds(s: seq<Bss>, ids: seq<nat>)
    requires |s| == |ids| && forall i :: 0 <= i < |s| ==> s[i].id == ids[i]
    ensures Ids(s) == ids
  {
  }

  lemma ReplaceObject(s: seq<Bss>, k: nat, b: Bss)
    requires DistinctObjects(s) && k < |s| && (b == s[k] || b !in s)
    ensures DistinctObjects(s[k := b])
    ensures forall c :: c in s[k := b] <==> c == b || (c in s && c != s[k])
  {
    var r := s[k := b];
    assert r[k] == b;
    forall c | c in s && c != s[k]
      ensures c in r
    {
      var i :| 0 <= i < |s| && s[i] == c;
      assert r[i] == c;
    }
    forall c | c in r && c != b
      ensures c in s && c != s[k]
    {
      var i :| 0 <= i < |r| && r[i] == c;
      assert s[i] == c;
    }
  }

  lemma ViewsWithout(s: seq<Bss>, b: Bss)
    requires DistinctObjects(s) && b in s && DistinctIds(Views(s))
    ensures Views(Without(s, b)) == Without(Views(s), b.View())
  {
    hide Without;
    var i :| 0 <= i < |s| && s[i] == b;
    WithoutAt(s, i);
    EntryAt(Views(s), i);
    assert s[..i] + s[i + 1..] == Drop(s, i);
  }

  lemma IdsWithout(s: seq<Bss>, b: Bss)
    requires DistinctObjects(s) && b in s && Ascending(Ids(s))
    ensures Ids(Without(s, b)) == Without(Ids(s), b.id)
  {
    hide Without;
    var i :| 0 <= i < |s| && s[i] == b;
    WithoutAt(s, i);
    IdAt(Ids(s), i);
    assert s[..i] + s[i + 1..] == Drop(s, i);
  }

  class Store {
    const cfg: Config
    var bss: seq<Bss>
    var bssId: seq<Bss>
    var numBss: nat
    var nextId: nat
    var updateIdx: nat
    var currentBss: Bss?
    var bssid: Mac
    var pendingBssid: Mac

    ghost function State(): (t: Table)
      reads this, bss, bssId
      ensures |t.lru| == |bss| && forall i :: 0 <= i < |bss| ==> t.lru[i] == bss[i].View()
    {
      Table(Views(bss), Ids(bssId), numBss, nextId, updateIdx,
            if currentBss != null && currentBss in bss then Some(currentBss.id) else None,
            bssid, pendingBssid)
    }

    /** The two lists link the same objects, once each, and the table is sound. */
    ghost predicate Linked()
      reads this, bss, bssId
    {
      && DistinctObjects(bss) && DistinctObjects(bssId)
      && (forall b :: b in bss ==> b in bssId) && (forall b :: b in bssId ==> b in bss)
      && Sound(State())
    }

    ghost predicate Valid()
      reads this, bss, bssId
    {
      Linked() && Inv(State(), cfg)
    }

    constructor (c: Config)
      ensures Valid() && cfg == c
      ensures State() == Table([], [], 0, 0, 0, None, [], [])
    {
      cfg := c;
      bss, bssId, numBss, nextId, updateIdx := [], [], 0, 0, 0;
      currentBss, bssid, pendingBssid := null, [], [];
    }

    method Get(bssid: Mac, ssid: seq<byte>) returns (r: Bss?)
      ensures r != null ==> r in bss
      ensures (if r == null then None else Some(r.View())) == Find(Views(bss), bssid, ssid)
    {
      var i := 0;
      assert Views(bss)[0..] == Views(bss);
      while i < |bss|
        invariant 0 <= i <= |bss|
        invariant Find(Views(bss), bssid, ssid) == Find(Views(bss)[i..], bssid, ssid)
      {
        var b := bss[i];
        if b.bssid == bssid && b.ssid == ssid {
          return b;
        }
        i := i + 1;
      }
      return null;
    }

    method RemoveBss(b: Bss)
      requires Linked() && b in bss
      modifies this
      ensures Linked() && State() == Remove(old(State()), old(b.View()))
      ensures bss == Without(old(bss), b) && bssId == Without(old(bssId), b) && |bss| == |old(bss)| - 1
      ensures forall c :: c in bss ==> c in old(bss)
      ensures currentBss == old(currentBss)
    {
      hide Sound, Without;
      WithoutShrinks(bss, b, PositionOf(bss, b));
      SoundLists(State());
      ViewsWithout(bss, b);
      IdsWithout(bssId, b);
      WithoutObject(bss, b);
      WithoutObject(bssId, b);
      InViews(bss, b);
      RemoveKeepsSound(State(), b.View());
      CurrentById(bss, b, currentBss);
      bss := Without(bss, b);
      bssId := Without(bssId, b);
      numBss := numBss - 1;
    }

    /** Links a new entry at the tail of both lists. */
    method LinkNew(e: Entry)
      requires Linked() && e.id == nextId && e.updateIdx == updateIdx
      requires forall f :: f in Views(bss) ==> f.bssid != e.bssid || f.ssid != e.ssid
      modifies this
      ensures Linked() && State() == Append(old(State()), e)
      ensures |bss| == |old(bss)| + 1 && bss[..|old(bss)|] == old(bss) && fresh(bss[|old(bss)|])
      ensures bssId == old(bssId) + [bss[|old(bss)|]]
      ensures currentBss == old(currentBss)
    {
      hide Sound, DistinctObjects, Views, Ids;
      ghost var t := State();
      AppendKeepsSound(t, e);
      var b := new Bss(e);
      SnocObject(bss, b);
      SnocObject(bssId, b);
      ViewsSnoc(bss, b);
      IdsSnoc(bssId, b);
      nextId := nextId + 1;
      bss := bss + [b];
      bssId := bssId + [b];
      numBss := numBss + 1;
      assert Views(bss) == t.lru + [e] && Ids(bssId) == t.byId + [e.id];
      assert State() == Append(t, e);
    }

    method AddBss(ssid: seq<byte>, res: ScanRes, now: Time)
      requires Valid() && Find(Views(bss), res.bssid, ssid).None?
      modifies this
      ensures Valid() && State() == Add(old(State()), cfg, ssid, res, now)
      ensures forall b :: b in bss ==> b in old(bss) || fresh(b)
      ensures currentBss == old(currentBss)
    {
      hide Sound, Without, Remove, Append, Find;
      ghost var t := State();
      var e := Entry(nextId, 0, updateIdx, res.bssid, ssid, res.radio, LastUpdate(now, res.age),
                     res.ies, res.beaconIes);
      AddKeepsInv(t, cfg, ssid, res, now);
      FindExact(t.lru, res.bssid, ssid);
      LinkNew(e);
      WithoutFirst(bss);
      if numBss > cfg.maxCount {
        RemoveBss(bss[0]);
      }
    }

    /** Stores the elements of a result. An entry that has to grow is unlinked
        from the id list, reallocated and linked again after its predecessor. */
    method StoreElements(b: Bss, res: ScanRes, moves: bool) returns (nbss: Bss)
      requires b in bssId && DistinctObjects(bssId)
      modifies this`bssId, b
      ensures nbss.View() == old(b.View()).(ies := res.ies, beaconIes := res.beaconIes)
      ensures if Grows(old(b.View()), res) && moves then fresh(nbss) else nbss == b
      ensures |bssId| == |old(bssId)|
      ensures forall k :: 0 <= k < |bssId| ==> bssId[k] == if old(bssId)[k] == b then nbss else old(bssId)[k]
      ensures DistinctObjects(bssId)
      ensures forall c :: c in bssId <==> c == nbss || (c in old(bssId) && c != b)
    {
      nbss := b;
      ghost var ids, k := bssId, PositionOf(bssId, b);
      if |b.ies| + |b.beaconIes| >= |res.ies| + |res.beaconIes| {
        b.ies, b.beaconIes := res.ies, res.beaconIes;
      } else {
        var prev := PositionOf(bssId, b);
        bssId := bssId[..prev] + bssId[prev + 1..];
        if moves {
          nbss := new Bss(b.View());
        }
        nbss.ies, nbss.beaconIes := res.ies, res.beaconIes;
        UnlinkRelink(ids, prev, nbss);
        bssId := bssId[..prev] + [nbss] + bssId[prev..];
      }
      assert bssId == ids[k := nbss];
      ReplaceObject(ids, k, nbss);
    }

    /** The in-place part of an update: new contents, and the recent end of the list. */
    method Refresh(b: Bss, res: ScanRes, now: Time, moves: bool) returns (nbss: Bss)
      requires b in bss && b in bssId && DistinctObjects(bssId)
      modifies this`bss, this`bssId, b
      ensures nbss.View() == Updated(old(State()), old(b.View()), res, now)
      ensures if Grows(old(b.View()), res) && moves then fresh(nbss) else nbss == b
      ensures bss == Without(old(bss), b) + [nbss]
      ensures |bssId| == |old(bssId)| && DistinctObjects(bssId)
      ensures forall k :: 0 <= k < |bssId| ==> bssId[k] == if old(bssId)[k] == b then nbss else old(bssId)[k]
      ensures forall c :: c in bssId <==> c == nbss || (c in old(bssId) && c != b)
    {
      b.scanMissCount := 0;
      b.lastUpdateIdx := updateIdx;
      b.bssid, b.radio, b.lastUpdate := res.bssid, res.radio, LastUpdate(now, res.age);
      bss := Without(bss, b);
      nbss := StoreElements(b, res, moves);
      bss := bss + [nbss];
    }

    method UpdateBss(b: Bss, res: ScanRes, now: Time, moves: bool) returns (changes: set<Change>)
      requires Valid() && b in bss && b.bssid == res.bssid
      modifies this, b
      ensures Valid() && State() == Update(old(State()), old(b.View()), res, now, moves)
      ensures forall c :: c in bss ==> c in old(bss) || fresh(c)
      ensures forall c :: c in changes <==> Reports(c, Describe(old(b.View())), DescribeRes(res))
      ensures currentBss == old(currentBss)
      ensures bss != [] && var f := bss[|bss| - 1];
                           && f.id == old(b.id) && f.bssid == old(b.bssid) && f.ssid == old(b.ssid)
                           && f.radio == res.radio && f.ies == res.ies && f.beaconIes == res.beaconIes
                           && f.lastUpdate == LastUpdate(now, res.age) && f.scanMissCount == 0
      ensures |res.ies| + |res.beaconIes| <= old(|b.ies| + |b.beaconIes|) ==> bss[|bss| - 1] == b
    {
      hide *;
      b.ViewRoom(res);
      changes := CompareRes(Describe(b.View()), DescribeRes(res));
      ghost var t, e := State(), b.View();
      b.ViewKey();
      var nbss := MoveToEnd(b, res, now, moves);
      LastUpdated(t, e, res, now, moves);
    }

    lemma LastUpdated(t: Table, e: Entry, res: ScanRes, now: Time, moves: bool)
      requires State() == Update(t, e, res, now, moves) && e.bssid == res.bssid
      ensures bss != [] && var f := bss[|bss| - 1];
                           && f.id == e.id && f.bssid == e.bssid && f.ssid == e.ssid
                           && f.radio == res.radio && f.ies == res.ies && f.beaconIes == res.beaconIes
                           && f.lastUpdate == LastUpdate(now, res.age) && f.scanMissCount == 0
    {
      hide Without;
      assert State().lru[|bss| - 1] == bss[|bss| - 1].View();
    }

    /** The update proper, after the changes have been worked out. */
    method MoveToEnd(b: Bss, res: ScanRes, now: Time, moves: bool) returns (nbss: Bss)
      requires Valid() && b in bss && b.bssid == res.bssid
      modifies this, b
      ensures Valid() && State() == Update(old(State()), old(b.View()), res, now, moves)
      ensures if Grows(old(b.View()), res) && moves then fresh(nbss) else nbss == b
      ensures bss == Without(old(bss), b) + [nbss] && |bssId| == |old(bssId)|
      ensures forall k :: 0 <= k < |bssId| ==> bssId[k] == if old(bssId)[k] == b then nbss else old(bssId)[k]
      ensures forall c :: c in bss ==> c in old(bss) || fresh(c)
      ensures currentBss == old(currentBss)
    {
      hide Sound, Without, DistinctObjects, Updated, Grows, Views, Ids;
      ghost var t, e := State(), b.View();
      ghost var rest := Without(bss, b);
      UpdateFacts(b, res, now, moves);
      ghost var restViews := Views(rest);
      nbss := Refresh(b, res, now, moves);
      assert nbss !in rest;
      assert Views(rest) == restViews;
      SnocObject(rest, nbss);
      ViewsSnoc(rest, nbss);
      SameIds(bssId, t.byId);
      assert State() == Update(t, e, res, now, moves);
    }

    lemma UpdateFacts(b: Bss, res: ScanRes, now: Time, moves: bool)
      requires Valid() && b in bss && b.bssid == res.bssid
      ensures Inv(Update(State(), b.View(), res, now, moves), cfg)
      ensures Views(Without(bss, b)) == Without(Views(bss), b.View())
      ensures DistinctObjects(Without(bss, b))
      ensures forall i :: 0 <= i < |Without(bss, b)| ==> Without(bss, b)[i] != b && Without(bss, b)[i] in bss
      ensures forall c :: c in bss && c != b ==> c in Without(bss, b)
      ensures currentBss != null && currentBss in bss ==> (currentBss == b <==> currentBss.id == b.id)
      ensures Updated(State(), b.View(), res, now).id == b.id
    {
      hide Without;
      InViews(bss, b);
      UpdateKeepsSound(State(), b.View(), res, now, moves);
      ViewsWithout(bss, b);
      WithoutObject(bss, b);
      CurrentById(bss, b, currentBss);
      UpdateKeepsCount(State(), b.View(), res, now, moves);
    }

    /** Points current_bss at a listed entry or at none, and sets the addresses in use. */
    method Associate(b: Bss?, bssid: Mac, pendingBssid: Mac)
      requires Valid() && (b != null ==> b in bss)
      modifies this
      ensures Valid() && bss == old(bss)
      ensures State() == old(State()).(current := if b == null then None else Some(b.id),
                                       bssid := bssid, pendingBssid := pendingBssid)
    {
      hide Sound, DistinctObjects;
      SoundContext(State());
      if b != null {
        InViews(bss, b);
      }
      ghost var t := State();
      currentBss, this.bssid, this.pendingBssid := b, bssid, pendingBssid;
      assert Views(bss) == t.lru && Ids(bssId) == t.byId;
    }

    method UpdateStart()
      requires Valid()
      modifies this
      ensures Valid() && State() == old(State()).(updateIdx := old(State()).updateIdx + 1)
      ensures bss == old(bss)
    {
      hide Sound, DistinctObjects;
      SoundContext(State());
      updateIdx := updateIdx + 1;
    }

    method UpdateScanRes(res: ScanRes, now: Time, moves: bool)
      requires Valid()
      modifies this, bss
      ensures Valid() && State() == BssTable.UpdateScanRes(old(State()), cfg, res, now, moves)
      ensures forall b :: b in bss ==> b in old(bss) || fresh(b)
    {
      hide Sound, Find, Add, Update, FirstById, FirstVendor, Parse, DistinctObjects;
      var pos := GetIe(res.ies, WLAN_EID_SSID);
      if pos.None? {
        return;
      }
      var ssid := First(res.ies[pos.value..]).body;
      if |ssid| > 32 {
        return;
      }
      var p2p := GetVendorIe(res.ies, P2P_IE_VENDOR_TYPE);
      if p2p.Some? && ssid == P2P_WILDCARD_SSID {
        return;
      }
      FindExact(State().lru, res.bssid, ssid);
      var b := Get(res.bssid, ssid);
      if b == null {
        AddBss(ssid, res, now);
      } else {
        var changes := UpdateBss(b, res, now, moves);
      }
    }

    method BssInUse(b: Bss) returns (r: bool)
      requires Linked() && b in bss
      ensures r <==> InUse(State(), b.View())
    {
      SoundLists(State());
      CurrentById(bss, b, currentBss);
      r := b == currentBss || b.bssid == bssid || b.bssid == pendingBssid;
    }

    method IncludedInScan(b: Bss, info: Option<ScanInfo>) returns (r: bool)
      ensures r <==> Covered(b.View(), info)
    {
      if info.None? {
        return true;
      }
      if info.value.freqs != [] {
        var found := false;
        var i := 0;
        while i < |info.value.freqs| && !found
          invariant 0 <= i <= |info.value.freqs|
          invariant found <==> b.radio.freq in info.value.freqs[..i]
        {
          found := b.radio.freq == info.value.freqs[i];
          i := i + 1;
        }
        assert !found ==> info.value.freqs[..i] == info.value.freqs;
        if !found {
          return false;
        }
      }
      if info.value.ssids != [] {
        var found := false;
        var i := 0;
        while i < |info.value.ssids| && !found
          invariant 0 <= i <= |info.value.ssids|
          invariant found <==> [] in info.value.ssids[..i] || b.ssid in info.value.ssids[..i]
        {
          found := info.value.ssids[i] == [] || info.value.ssids[i] == b.ssid;
          i := i + 1;
        }
        assert !found ==> info.value.ssids[..i] == info.value.ssids;
        if !found {
          return false;
        }
      }
      return true;
    }

    /** Counts one missed scan on the entry at position i. */
    method CountMiss(i: nat)
      requires Linked() && i < |bss|
      modifies bss[i]
      ensures Linked() && bss == old(bss)
      ensures var e := old(bss[i].View());
              State() == old(State()).(lru := old(State()).lru[i := e.(missCount := e.missCount + 1)])
    {
      hide Sound;
      ghost var t, e := State(), bss[i].View();
      ReplaceInPlace(t, i, e.(missCount := e.missCount + 1));
      bss[i].scanMissCount := bss[i].scanMissCount + 1;
      assert Views(bss) == t.lru[i := e.(missCount := e.missCount + 1)];
      assert Ids(bssId) == t.byId;
    }

    /** Whether the end of a scan leaves an entry alone. */
    method Exempt(b: Bss, info: Option<ScanInfo>) returns (r: bool)
      requires Linked() && b in bss
      ensures r <==> InUse(State(), b.View()) || !Covered(b.View(), info)
    {
      hide Sound, Covered, Views, Ids, InUse, DistinctObjects;
      r := BssInUse(b);
      if !r {
        var included := IncludedInScan(b, info);
        r := !included;
      }
    }

    /** The end of a new scan for the entry at position i. */
    method ExpireMissed(i: nat, info: Option<ScanInfo>) returns (removed: bool)
      requires Linked() && i < |bss|
      modifies this, bss[i]
      ensures Linked()
      ensures forall b :: b in bss ==> b in old(bss)
      ensures |bss| == |old(bss)| - if removed then 1 else 0
      ensures var t := old(State());
              var f := AtScanEnd(t, cfg, info, t.lru[i]);
              && removed == f.None?
              && State() == (if f.Some? then t.(lru := t.lru[i := f.value]) else Remove(t, t.lru[i]))
    {
      hide Sound, Covered, InUse, Remove, Without, DistinctObjects, State, AtScanEnd;
      var b := bss[i];
      ghost var t := State();
      StateAt(i);
      ExpiryOf(t, cfg, info, t.lru[i]);
      assert t.lru[i := t.lru[i]] == t.lru;
      removed := false;
      var skip := Exempt(b, info);
      if skip {
        return;
      }
      CountIfMissed(i);
      RemoveAfterCount(t, i, b.View());
      if b.scanMissCount >= cfg.expirationScanCount {
        removed := true;
        RemoveBss(b);
      }
    }

    lemma StateAt(i: nat)
      requires i < |bss|
      ensures var t := State();
              |t.lru| == |bss| && t.lru[i] == bss[i].View() && t.updateIdx == updateIdx
    {
    }

    /** Counts a missed scan on the entry at position i unless this scan has updated it. */
    method CountIfMissed(i: nat)
      requires Linked() && i < |bss|
      modifies bss[i]
      ensures Linked() && bss == old(bss)
      ensures var t := old(State());
              var e := t.lru[i];
              var f := if e.updateIdx < t.updateIdx then e.(missCount := e.missCount + 1) else e;
              State() == t.(lru := t.lru[i := f]) && bss[i].View() == f
    {
      hide Sound, DistinctObjects, Ids;
      if bss[i].lastUpdateIdx < updateIdx {
        CountMiss(i);
      } else {
        ghost var t := State();
        assert t.lru[i := t.lru[i]] == t.lru;
      }
    }

    method UpdateEnd(info: Option<ScanInfo>, newScan: bool)
      requires Valid()
      modifies this, bss
      ensures Valid() && State() == BssTable.UpdateEnd(old(State()), cfg, info, newScan)
      ensures forall b :: b in bss ==> b in old(bss)
    {
      hide Sound, AtScanEnd, Remove, Linked, State;
      if !newScan {
        return;
      }
      ghost var t0 := State();
      UpdateEndFilters(t0, cfg, info, 0);
      var i := 0;
      while i < |bss|
        invariant Linked() && i <= |bss|
        invariant forall b :: b in bss ==> b in old(bss)
        invariant UpdateEndFrom(State(), cfg, info, i) == UpdateEndFrom(t0, cfg, info, 0)
        decreases |bss| - i
      {
        assert bss[i] in bss;
        ghost var t := State();
        var removed := ExpireMissed(i, info);
        if !removed {
          i := i + 1;
        }
      }
    }

    /** The age check for the entry at position i; the loop stops at a fresh one. */
    method ExpireOld(i: nat, limit: Time) returns (removed: bool, stop: bool)
      requires Linked() && i < |bss|
      modifies this
      ensures Linked()
      ensures forall b :: b in bss ==> b in old(bss)
      ensures |bss| == |old(bss)| - if removed then 1 else 0
      ensures var t := old(State());
              var e := t.lru[i];
              && removed == (!InUse(t, e) && TimeBefore(e.lastUpdate, limit))
              && stop == (!InUse(t, e) && !TimeBefore(e.lastUpdate, limit))
              && State() == (if removed then Remove(t, e) else t)
    {
      hide Sound, InUse, Remove, TimeBefore, DistinctObjects, Views, Ids, Without;
      removed, stop := false, false;
      var b := bss[i];
      var inUse := BssInUse(b);
      if inUse {
      } else if TimeBefore(b.lastUpdate, limit) {
        removed := true;
        RemoveBss(b);
      } else {
        stop := true;
      }
    }

    /** One round of scan results: start, every result in the order given, end. */
    method GetScanResults(results: seq<Received>, info: Option<ScanInfo>, newScan: bool)
      requires Valid()
      modifies this, bss
      ensures Valid() && State() == ScanRound(old(State()), cfg, results, info, newScan)
    {
      RoundSteps(State(), cfg, results, info, newScan);
      hide *;
      UpdateStart();
      TakeAll(results);
      assert forall k :: 0 <= k < |bss| ==> bss[k] in old(bss) || fresh(bss[k]);
      UpdateEnd(info, newScan);
    }

    /** Takes the results in the order given. */
    method TakeAll(results: seq<Received>)
      requires Valid()
      modifies this, bss
      ensures Valid() && State() == TakeResults(old(State()), cfg, results)
      ensures forall k :: 0 <= k < |bss| ==> bss[k] in old(bss) || fresh(bss[k])
    {
      hide Valid, State, TakeResults;
      TakenSoFar(State(), cfg, results, 0);
      var i := 0;
      while i < |results|
        invariant Valid() && 0 <= i <= |results|
        invariant forall k :: 0 <= k < |bss| ==> bss[k] in old(bss) || fresh(bss[k])
        invariant State() == TakeResults(old(State()), cfg, results[..i])
      {
        var r := results[i];
        TakenSoFar(old(State()), cfg, results, i);
        UpdateScanRes(r.res, r.now, r.moves);
        assert forall k :: 0 <= k < |bss| ==> bss[k] in bss;
        i := i + 1;
      }
      assert results[..i] == results;
    }

    method FlushByAge(now: Time, age: int)
      requires Valid()
      modifies this
      ensures Valid() && State() == BssTable.FlushByAge(old(State()), now, age)
      ensures forall b :: b in bss ==> b in old(bss)
    {
      hide Sound, InUse, Remove, TimeBefore, Linked, Without, State, FlushOldFrom;
      StateSize();
      if bss == [] {
        FlushStep(State(), now.(sec := now.sec - age), 0);
        return;
      }
      var t := now.(sec := now.sec - age);
      ghost var t0 := State();
      KeepsInv(t0, cfg, t);
      var i, stop := 0, false;
      while i < |bss| && !stop
        invariant Linked() && i <= |bss| == |State().lru|
        invariant forall b :: b in bss ==> b in old(bss)
        invariant if stop then State() == FlushOldFrom(t0, t, 0)
                  else FlushOldFrom(State(), t, i) == FlushOldFrom(t0, t, 0)
        decreases |bss| - i, !stop
      {
        FlushStep(State(), t, i);
        var removed;
        removed, stop := ExpireOld(i, t);
        StateSize();
        if !removed && !stop {
          i := i + 1;
        }
      }
      if !stop {
        FlushStep(State(), t, i);
      }
    }

    lemma StateSize()
      ensures |State().lru| == |bss|
    {
    }

    method Flush()
      requires Valid()
      modifies this
      ensures Valid() && State() == FlushFrom(old(State()), 0)
      ensures forall b :: b in bss ==> b in old(bss)
    {
      hide Sound, InUse, Remove, Linked, Without, State;
      ghost var t0 := State();
      FlushKeepsInUse(t0, 0);
      var i := 0;
      while i < |bss|
        invariant Linked() && i <= |bss|
        invariant forall b :: b in bss ==> b in old(bss)
        invariant FlushFrom(State(), i) == FlushFrom(t0, 0)
        decreases |bss| - i
      {
        var b := bss[i];
        var inUse := BssInUse(b);
        if inUse {
          i := i + 1;
        } else {
          RemoveBss(b);
        }
      }
    }
  }

  /** Counting a miss on an entry first does not change what removing it leaves. */
  lemma ExpiryOf(t: Table, cfg: Config, info: Option<ScanInfo>, e: Entry)
    ensures var f := if e.updateIdx < t.updateIdx then e.(missCount := e.missCount + 1) else e;
            AtScanEnd(t, cfg, info, e) == if InUse(t, e) || !Covered(e, info) then Some(e)
                                          else if f.missCount >= cfg.expirationScanCount then None else Some(f)
  {
  }

  lemma RemoveAfterCount(t: Table, i: nat, f: Entry)
    requires Sound(t) && i < |t.lru| && f == t.lru[i].(missCount := f.missCount)
    ensures Remove(t.(lru := t.lru[i := f]), f) == Remove(t, t.lru[i])
  {
    hide Ascending;
    ReplaceInPlace(t, i, f);
    var u := t.lru[i := f];
    EntryAt(t.lru, i);
    EntryAt(u, i);
    assert Drop(u, i) == Drop(t.lru, i);
  }

  lemma UpdateKeepsCount(t: Table, e: Entry, res: ScanRes, now: Time, moves: bool)
    ensures Update(t, e, res, now, moves).numBss == t.numBss
  {
  }

  lemma UnlinkRelink<T>(s: seq<T>, k: nat, x: T)
    requires k < |s|
    ensures var u := s[..k] + s[k + 1..];
            u[..k] + [x] + u[k..] == s[k := x]
  {
  }

  lemma WithoutFirst<T>(s: seq<T>)
    requires s != []
    ensures Without(s, s[0]) == s[1..]
  {
  }

  /** A result as it comes in: when, and whether the allocator would move a growing entry. */
  datatype Received = Received(res: ScanRes, now: Time, moves: bool)

  function TakeResults(t: Table, cfg: Config, results: seq<Received>): Table {
    if results == [] then t
    else
      var r := results[|results| - 1];
      BssTable.UpdateScanRes(TakeResults(t, cfg, results[..|results| - 1]), cfg, r.res, r.now, r.moves)
  }

  lemma TakenSoFar(t: Table, cfg: Config, results: seq<Received>, i: nat)
    requires i <= |results|
    ensures TakeResults(t, cfg, results[..0]) == t
    ensures i < |results| ==>
              TakeResults(t, cfg, results[..i + 1])
              == BssTable.UpdateScanRes(TakeResults(t, cfg, results[..i]), cfg,
                                        results[i].res, results[i].now, results[i].moves)
  {
    hide BssTable.UpdateScanRes;
    if i < |results| {
      assert results[..i + 1][..i] == results[..i];
    }
  }

  function ScanRound(t: Table, cfg: Config, results: seq<Received>, info: Option<ScanInfo>, newScan: bool): Table {
    BssTable.UpdateEnd(TakeResults(t.(updateIdx := t.updateIdx + 1), cfg, results), cfg, info, newScan)
  }

  lemma FlushStep(t: Table, limit: Time, i: nat)
    requires i <= |t.lru|
    ensures FlushOldFrom(t, limit, i)
         == if i == |t.lru| then t
            else if InUse(t, t.lru[i]) then FlushOldFrom(t, limit, i + 1)
            else if TimeBefore(t.lru[i].lastUpdate, limit) && i <= |Remove(t, t.lru[i]).lru|
            then FlushOldFrom(Remove(t, t.lru[i]), limit, i)
            else t
  {
    hide InUse, TimeBefore;
    if i < |t.lru| {
      WithoutShrinks(t.lru, t.lru[i], i);
    }
  }

  lemma KeepsInv(t: Table, cfg: Config, limit: Time)
    requires Inv(t, cfg)
    ensures Inv(FlushOldFrom(t, limit, 0), cfg)
  {
    hide Sound, FlushOldFrom;
    FlushLoop(t, limit, 0);
  }

  lemma RoundSteps(t: Table, cfg: Config, results: seq<Received>, info: Option<ScanInfo>, newScan: bool)
    ensures ScanRound(t, cfg, results, info, newScan)
         == UpdateEnd(TakeResults(t.(updateIdx := t.updateIdx + 1), cfg, results), cfg, info, newScan)
  {
  }

  function RoundEvents(results: seq<Received>): seq<Event> {
    if results == [] then []
    else
      var r := results[|results| - 1];
      RoundEvents(results[..|results| - 1]) + [ScanResult(r.res, r.now, r.moves)]
  }

  /** A round of results is a run of table events, so what holds of runs holds of rounds. */
  lemma RoundIsRun(c: Config, before: seq<Event>, results: seq<Received>, info: Option<ScanInfo>, newScan: bool)
    ensures ScanRound(Run(c, before), c, results, info, newScan)
         == Run(c, before + [BssTableRuns.UpdateStart] + RoundEvents(results) + [ScanEnd(info, newScan)])
  {
    hide BssTable.UpdateScanRes, BssTable.UpdateEnd;
    var started := before + [BssTableRuns.UpdateStart];
    assert started[..|before|] == before;
    TakenResults(c, started, results);
    var all := started + RoundEvents(results);
    assert (all + [ScanEnd(info, newScan)])[..|all|] == all;
  }

  lemma {:induction false} TakenResults(c: Config, before: seq<Event>, results: seq<Received>)
    ensures TakeResults(Run(c, before), c, results) == Run(c, before + RoundEvents(results))
  {
    hide BssTable.UpdateScanRes, BssTable.UpdateEnd;
    if results == [] {
      assert before + [] == before;
    } else {
      var init, r := results[..|results| - 1], results[|results| - 1];
      TakenResults(c, before, init);
      var evs := before + RoundEvents(results);
      assert evs == (before + RoundEvents(init)) + [ScanResult(r.res, r.now, r.moves)];
      assert evs[..|evs| - 1] == before + RoundEvents(init);
    }
  }

  function Describe(e: Entry): Description {
    Description(e.radio.freq, e.radio.level, e.radio.caps, e.ies)
  }

  function DescribeRes(res: ScanRes): Description {
    Description(res.radio.freq, res.radio.level, res.radio.caps, res.ies)
  }

  function PositionOf(s: seq<Bss>, b: Bss): (k: nat)
    requires b in s
    ensures k < |s| && s[k] == b
  {
    if s[0] == b then 0 else PositionOf(s[1..], b) + 1
  }

  lemma InvIsSound(t: Table, cfg: Config)
    requires Inv(t, cfg)
    ensures Sound(t) && t.numBss <= cfg.maxCount
  {
  }

  /** Soundness does not depend on the addresses in use, and survives a new scan number. */
  lemma SoundContext(t: Table)
    requires Sound(t)
    ensures forall c: Option<nat>, m: Mac, p: Mac :: (c.Some? ==> HasId(t.lru, c.value)) ==>
              Sound(t.(current := c, bssid := m, pendingBssid := p))
    ensures Sound(t.(updateIdx := t.updateIdx + 1))
  {
  }

  lemma SoundLists(t: Table)
    requires Sound(t)
    ensures DistinctIds(t.lru) && Ascending(t.byId) && t.numBss == |t.lru|
  {
  }

  lemma InViews(s: seq<Bss>, b: Bss)
    requires b in s
    ensures b.View() in Views(s)
  {
    var i :| 0 <= i < |s| && s[i] == b;
    assert Views(s)[i] == b.View();
  }

  /** Two listed objects are the same exactly when their ids are. */
  lemma CurrentById(s: seq<Bss>, b: Bss, c: Bss?)
    requires DistinctIds(Views(s)) && b in s
    ensures c != null && c in s ==> (c == b <==> c.id == b.id)
  {
    if c != null && c in s {
      var i :| 0 <= i < |s| && s[i] == b;
      var j :| 0 <= j < |s| && s[j] == c;
      assert Views(s)[i].id == b.id && Views(s)[j].id == c.id;
    }
  }
}
