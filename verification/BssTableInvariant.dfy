/** What every operation of the BSS table keeps, and what each removal takes away. */
module BssTableInvariant {
  import opened InfoElements
  import opened BssTable
  import opened Wrappers

  ghost predicate DistinctIds(lru: seq<Entry>) {
    forall i, j :: 0 <= i < j < |lru| ==> lru[i].id != lru[j].id
  }

  ghost predicate DistinctKeys(lru: seq<Entry>) {
    forall i, j :: 0 <= i < j < |lru| ==> lru[i].bssid != lru[j].bssid || lru[i].ssid != lru[j].ssid
  }

  ghost predicate ByRecency(lru: seq<Entry>) {
    forall i, j :: 0 <= i < j < |lru| ==> lru[i].updateIdx <= lru[j].updateIdx
  }

  ghost predicate Ascending(ids: seq<nat>) {
    forall i, j :: 0 <= i < j < |ids| ==> ids[i] < ids[j]
  }

  ghost predicate HasId(lru: seq<Entry>, id: nat) {
    exists e :: e in lru && e.id == id
  }

  /** A list of distinct entries in order of last update. */
  ghost predicate Ordered(lru: seq<Entry>) {
    DistinctIds(lru) && DistinctKeys(lru) && ByRecency(lru)
  }

  /** Everything but the capacity: the two lists hold the same entries once
      each, keys are unique, one list is in id order and the other in order of
      last update, and num_bss counts them. */
  ghost predicate Sound(t: Table) {
    && t.numBss == |t.lru| == |t.byId|
    && Ordered(t.lru)
    && Ascending(t.byId)
    && (forall id :: id in t.byId <==> HasId(t.lru, id))
    && (forall e :: e in t.lru ==> e.id < t.nextId && e.updateIdx <= t.updateIdx)
    && (t.current.Some? ==> HasId(t.lru, t.current.value))
  }

  ghost predicate Inv(t: Table, cfg: Config) {
    Sound(t) && t.numBss <= cfg.maxCount
  }

  // ----- removing one element

  lemma {:induction false} WithoutAt<T>(s: seq<T>, i: nat)
    requires i < |s| && s[i] !in s[..i]
    ensures Without(s, s[i]) == s[..i] + s[i + 1..]
  {
    if i > 0 {
      assert s[0] in s[..i];
      assert s[1..][..i - 1] == s[..i][1..];
      WithoutAt(s[1..], i - 1);
    }
  }

  function Drop<T>(s: seq<T>, i: nat): (r: seq<T>)
    requires i < |s|
    ensures |r| == |s| - 1
    ensures forall k :: 0 <= k < |r| ==> r[k] == s[if k < i then k else k + 1]
  {
    s[..i] + s[i + 1..]
  }

  lemma DropKeepsOrder(lru: seq<Entry>, i: nat)
    requires i < |lru| && Ordered(lru)
    ensures Ordered(Drop(lru, i))
  {
  }

  lemma DropExact(lru: seq<Entry>, i: nat)
    requires i < |lru| && DistinctIds(lru)
    ensures forall e :: e in Drop(lru, i) <==> e in lru && e != lru[i]
    ensures forall e :: e in Drop(lru, i) ==> e.id != lru[i].id
    ensures forall id :: HasId(Drop(lru, i), id) <==> HasId(lru, id) && id != lru[i].id
  {
    var r := Drop(lru, i);
    forall e
      ensures e in r <==> e in lru && e != lru[i]
      ensures e in r ==> e.id != lru[i].id
    {
      if e in lru && e != lru[i] {
        var k :| 0 <= k < |lru| && lru[k] == e;
        assert r[if k < i then k else k - 1] == e;
      }
    }
    forall id
      ensures HasId(r, id) <==> HasId(lru, id) && id != lru[i].id
    {
      if HasId(lru, id) && id != lru[i].id {
        var e :| e in lru && e.id == id;
        assert e in r;
      }
    }
  }

  lemma SnocKeepsOrder(lru: seq<Entry>, e: Entry)
    requires Ordered(lru)
    requires forall f :: f in lru ==>
               f.id != e.id && (f.bssid != e.bssid || f.ssid != e.ssid) && f.updateIdx <= e.updateIdx
    ensures Ordered(lru + [e])
  {
    assert forall k :: 0 <= k < |lru| ==> lru[k] in lru;
  }

  lemma DropKeepsIds(ids: seq<nat>, i: nat)
    requires i < |ids| && Ascending(ids)
    ensures Ascending(Drop(ids, i))
    ensures forall x :: x in Drop(ids, i) <==> x in ids && x != ids[i]
  {
    var r := Drop(ids, i);
    forall x | x in ids && x != ids[i]
      ensures x in r
    {
      var k :| 0 <= k < |ids| && ids[k] == x;
      assert r[if k < i then k else k - 1] == x;
    }
  }

  lemma EntryAt(lru: seq<Entry>, i: nat)
    requires DistinctIds(lru) && i < |lru|
    ensures Without(lru, lru[i]) == Drop(lru, i)
  {
    WithoutAt(lru, i);
  }

  lemma IdAt(ids: seq<nat>, i: nat)
    requires Ascending(ids) && i < |ids|
    ensures Without(ids, ids[i]) == Drop(ids, i)
  {
    WithoutAt(ids, i);
  }

  /** Taking an entry out of the update list leaves the others, in order. */
  lemma WithoutExact(lru: seq<Entry>, e: Entry)
    requires Ordered(lru) && e in lru
    ensures Ordered(Without(lru, e)) && |Without(lru, e)| == |lru| - 1
    ensures forall f :: f in Without(lru, e) <==> f in lru && f != e
    ensures forall f :: f in Without(lru, e) ==> f.id != e.id && (f.bssid != e.bssid || f.ssid != e.ssid)
    ensures forall id :: HasId(Without(lru, e), id) <==> HasId(lru, id) && id != e.id
  {
    var i :| 0 <= i < |lru| && lru[i] == e;
    EntryAt(lru, i);
    DropKeepsOrder(lru, i);
    DropExact(lru, i);
    forall f | f in Without(lru, e)
      ensures f.bssid != e.bssid || f.ssid != e.ssid
    {
      var k :| 0 <= k < |lru| && lru[k] == f;
    }
  }

  lemma WithoutIdExact(ids: seq<nat>, id: nat)
    requires Ascending(ids) && id in ids
    ensures Ascending(Without(ids, id)) && |Without(ids, id)| == |ids| - 1
    ensures forall x :: x in Without(ids, id) <==> x in ids && x != id
  {
    var i :| 0 <= i < |ids| && ids[i] == id;
    IdAt(ids, i);
    DropKeepsIds(ids, i);
  }

  /** Removing an entry takes that one entry out of both lists and nothing else. */
  lemma RemoveKeepsSound(t: Table, e: Entry)
    requires Sound(t) && e in t.lru
    ensures Sound(Remove(t, e))
    ensures forall f :: f in Remove(t, e).lru <==> f in t.lru && f != e
    ensures forall x :: x in Remove(t, e).byId <==> x in t.byId && x != e.id
  {
    hide Without, Ordered, Ascending;
    assert HasId(t.lru, e.id);
    WithoutExact(t.lru, e);
    WithoutIdExact(t.byId, e.id);
  }

  // ----- adding and updating

  lemma {:induction false} FindExact(lru: seq<Entry>, bssid: Mac, ssid: seq<byte>)
    ensures Find(lru, bssid, ssid).None? ==> forall e :: e in lru ==> e.bssid != bssid || e.ssid != ssid
    ensures Find(lru, bssid, ssid).Some? ==>
              var e := Find(lru, bssid, ssid).value;
              e in lru && e.bssid == bssid && e.ssid == ssid
  {
    if lru != [] {
      FindExact(lru[1..], bssid, ssid);
    }
  }

  lemma HasIdSnoc(lru: seq<Entry>, e: Entry)
    ensures forall id :: HasId(lru + [e], id) <==> HasId(lru, id) || id == e.id
  {
    assert e in lru + [e];
  }

  lemma AppendKeepsSound(t: Table, e: Entry)
    requires Sound(t) && e.id == t.nextId && e.updateIdx == t.updateIdx
    requires forall f :: f in t.lru ==> f.bssid != e.bssid || f.ssid != e.ssid
    ensures Sound(Append(t, e))
  {
    hide Ordered;
    HasIdSnoc(t.lru, e);
    SnocKeepsOrder(t.lru, e);
    forall i | 0 <= i < |t.byId|
      ensures t.byId[i] < e.id
    {
      assert HasId(t.lru, t.byId[i]);
    }
  }

  lemma AddKeepsInv(t: Table, cfg: Config, ssid: seq<byte>, res: ScanRes, now: Time)
    requires Inv(t, cfg)
    requires Find(t.lru, res.bssid, ssid).None?
    ensures Inv(Add(t, cfg, ssid, res, now), cfg)
  {
    var e := NewEntry(t, ssid, res, now);
    FindExact(t.lru, res.bssid, ssid);
    AppendKeepsSound(t, e);
    RemoveKeepsSound(Append(t, e), (t.lru + [e])[0]);
  }

  /** An update replaces the entry by one with the same id and key at the recent end. */
  lemma UpdateKeepsSound(t: Table, e: Entry, res: ScanRes, now: Time, moves: bool)
    requires Sound(t) && e in t.lru && e.bssid == res.bssid
    ensures Sound(Update(t, e, res, now, moves))
    ensures forall f :: f in Update(t, e, res, now, moves).lru
                   <==> (f in t.lru && f != e) || f == Updated(t, e, res, now)
  {
    hide Ordered, Without;
    var f := Updated(t, e, res, now);
    assert HasId(t.lru, e.id);
    WithoutExact(t.lru, e);
    HasIdSnoc(Without(t.lru, e), f);
    SnocKeepsOrder(Without(t.lru, e), f);
  }

  lemma ScanResKeepsInv(t: Table, cfg: Config, res: ScanRes, now: Time, moves: bool)
    requires Inv(t, cfg)
    ensures Inv(UpdateScanRes(t, cfg, res, now, moves), cfg)
  {
    var ssid := SsidOf(res);
    if ssid.Some? {
      var e := Find(t.lru, res.bssid, ssid.value);
      FindExact(t.lru, res.bssid, ssid.value);
      if e.None? {
        AddKeepsInv(t, cfg, ssid.value, res, now);
      } else {
        UpdateKeepsSound(t, e.value, res, now, moves);
      }
    }
  }

  /** A full table makes room by giving up its least recently updated entry. */
  lemma EvictsLeastRecent(t: Table, cfg: Config, ssid: seq<byte>, res: ScanRes, now: Time)
    requires Inv(t, cfg) && t.numBss == cfg.maxCount > 0
    requires Find(t.lru, res.bssid, ssid).None?
    ensures var u := Add(t, cfg, ssid, res, now);
            && u.lru == t.lru[1..] + [NewEntry(t, ssid, res, now)]
            && (forall e :: e in t.lru ==> t.lru[0].updateIdx <= e.updateIdx)
            && t.lru[0] !in u.lru
  {
    hide Parse, Ordered, Find;
    var e := NewEntry(t, ssid, res, now);
    HeadIsOldest(t.lru);
    assert (t.lru + [e])[1..] == t.lru[1..] + [e];
    assert t.lru[0] in t.lru;
  }

  lemma HeadIsOldest(lru: seq<Entry>)
    requires Ordered(lru) && lru != []
    ensures forall e :: e in lru ==> lru[0].updateIdx <= e.updateIdx
    ensures lru[0] !in lru[1..]
  {
  }
}
