/** The BSS table as a bounded LRU map: while nothing expires, it holds exactly
    the most recently seen keys, in the order in which they were last seen. */
module BssTableLru {
  import opened InfoElements
  import opened BssTable
  import opened BssTableInvariant
  import opened BssTableRuns
  import opened Wrappers

  type Key = (Mac, seq<byte>)

  function KeyOf(e: Entry): Key { (e.bssid, e.ssid) }

  function Keys(lru: seq<Entry>): seq<Key> {
    seq(|lru|, i requires 0 <= i < |lru| => KeyOf(lru[i]))
  }

  // ----- the reference, which knows no capacity

  /** The distinct keys of a history in the order of their last occurrence. */
  function Recency(history: seq<Key>): seq<Key> {
    if history == [] then []
    else
      var last := history[|history| - 1];
      Without(Recency(history[..|history| - 1]), last) + [last]
  }

  function LastN<T>(s: seq<T>, n: nat): seq<T> {
    if |s| <= n then s else s[|s| - n..]
  }

  /** The position of the last occurrence of a key. */
  function LastSeen(history: seq<Key>, k: Key): (r: nat)
    requires k in history
    ensures r < |history| && history[r] == k
  {
    var n := |history| - 1;
    if history[n] == k then n
    else
      assert history == history[..n] + [history[n]];
      LastSeen(history[..n], k)
  }

  ghost predicate DistinctKeys(s: seq<Key>) {
    forall i, j :: 0 <= i < j < |s| ==> s[i] != s[j]
  }

  lemma WithoutKey(s: seq<Key>, k: Key)
    requires DistinctKeys(s)
    ensures DistinctKeys(Without(s, k))
    ensures forall x :: x in Without(s, k) <==> x in s && x != k
    ensures k !in s ==> Without(s, k) == s
  {
    if k in s {
      var i :| 0 <= i < |s| && s[i] == k;
      WithoutAt(s, i);
      var r := s[..i] + s[i + 1..];
      forall x | x in s && x != k
        ensures x in r
      {
        var j :| 0 <= j < |s| && s[j] == x;
        assert r[if j < i then j else j - 1] == x;
      }
    } else {
      WithoutAbsent(s, k);
    }
  }

  lemma {:induction false} WithoutAbsent<T>(s: seq<T>, x: T)
    requires x !in s
    ensures Without(s, x) == s
  {
    if s != [] {
      WithoutAbsent(s[1..], x);
    }
  }

  lemma {:induction false} WithoutConcat<T>(s: seq<T>, t: seq<T>, x: T)
    requires x !in s
    ensures Without(s + t, x) == s + Without(t, x)
  {
    if s == [] {
      assert s + t == t;
    } else {
      assert (s + t)[1..] == s[1..] + t;
      WithoutConcat(s[1..], t, x);
    }
  }

  lemma {:induction false} WithoutFront<T>(s: seq<T>, t: seq<T>, x: T)
    requires x in s
    ensures Without(s + t, x) == Without(s, x) + t
  {
    if s[0] == x {
      assert (s + t)[1..] == s[1..] + t;
    } else {
      assert (s + t)[1..] == s[1..] + t;
      WithoutFront(s[1..], t, x);
    }
  }

  /** Recency lists each key of the history once. */
  lemma {:induction false} RecencyExact(history: seq<Key>)
    ensures DistinctKeys(Recency(history))
    ensures forall k :: k in Recency(history) <==> k in history
  {
    if history != [] {
      var n := |history| - 1;
      RecencyExact(history[..n]);
      WithoutKey(Recency(history[..n]), history[n]);
      assert history == history[..n] + [history[n]];
    }
  }

  /** Recency is in the order of last occurrence. */
  lemma {:induction false} RecencyOrdered(history: seq<Key>, i: nat, j: nat)
    requires i < j < |Recency(history)|
    ensures Recency(history)[i] in history && Recency(history)[j] in history
    ensures LastSeen(history, Recency(history)[i]) < LastSeen(history, Recency(history)[j])
  {
    var n := |history| - 1;
    var before, last := Recency(history[..n]), history[n];
    assert history == history[..n] + [last];
    RecencyExact(history);
    RecencyExact(history[..n]);
    WithoutKey(before, last);
    var rest := Without(before, last);
    var a, b := Recency(history)[i], Recency(history)[j];
    assert a in Recency(history) && b in Recency(history);
    assert a == rest[i] && a in rest;
    if j < |rest| {
      assert b == rest[j] && b in rest;
      WithoutKeepsOrder(before, last, i, j);
      var p, q :| 0 <= p < q < |before| && before[p] == a && before[q] == b;
      RecencyOrdered(history[..n], p, q);
    }
  }

  lemma KeyAt(s: seq<Key>, i: nat)
    requires DistinctKeys(s) && i < |s|
    ensures Without(s, s[i]) == Drop(s, i)
  {
    WithoutAt(s, i);
  }

  lemma WithoutKeepsOrder(s: seq<Key>, k: Key, i: nat, j: nat)
    requires DistinctKeys(s) && i < j < |Without(s, k)|
    ensures exists p, q :: 0 <= p < q < |s| && s[p] == Without(s, k)[i] && s[q] == Without(s, k)[j]
  {
    hide Without, DistinctKeys;
    if k in s {
      var m :| 0 <= m < |s| && s[m] == k;
      KeyAt(s, m);
      var p, q := if i < m then i else i + 1, if j < m then j else j + 1;
      assert s[p] == Without(s, k)[i] && s[q] == Without(s, k)[j];
    } else {
      WithoutAbsent(s, k);
      assert s[i] == Without(s, k)[i] && s[j] == Without(s, k)[j];
    }
  }

  // ----- one result

  /** What one result does to the keys of the table. */
  function Touch(keys: seq<Key>, k: Key, max: nat): seq<Key> {
    var r := Without(keys, k) + [k];
    if k !in keys && |r| > max then r[1..] else r
  }

  lemma TouchKept(lost: seq<Key>, kept: seq<Key>, k: Key)
    requires DistinctKeys(lost + kept) && k in kept
    ensures Without(lost + kept, k) + [k] == lost + (Without(kept, k) + [k])
    ensures |Without(kept, k)| == |kept| - 1
  {
    var j :| 0 <= j < |kept| && kept[j] == k;
    assert (lost + kept)[|lost| + j] == k;
    assert forall i :: 0 <= i < |lost| ==> (lost + kept)[i] == lost[i];
    assert k !in lost;
    WithoutConcat(lost, kept, k);
    WithoutShrinks(kept, k, j);
  }

  lemma TouchLost(lost: seq<Key>, kept: seq<Key>, k: Key)
    requires k in lost && k !in kept
    ensures Without(lost + kept, k) + [k] == Without(lost, k) + (kept + [k])
    ensures |Without(lost, k)| == |lost| - 1
  {
    WithoutFront(lost, kept, k);
    var j :| 0 <= j < |lost| && lost[j] == k;
    WithoutShrinks(lost, k, j);
  }

  lemma LastNOf<T>(s: seq<T>, t: seq<T>, n: nat)
    requires |t| == n || (s == [] && |t| <= n)
    ensures LastN(s + t, n) == t
  {
  }

  /** lost + kept is a recency list of which the last max keys are kept. */
  ghost predicate Cut(lost: seq<Key>, kept: seq<Key>, max: nat) {
    |kept| == max || (lost == [] && |kept| <= max)
  }

  lemma TouchForgotten(lost: seq<Key>, kept: seq<Key>, k: Key, max: nat)
    requires Cut(lost, kept, max) && k !in kept
    ensures Touch(kept, k, max) == LastN(Without(lost, k) + (kept + [k]), max)
  {
    hide Without;
    WithoutAbsent(kept, k);
    var r := kept + [k];
    if |r| > max {
      assert Without(lost, k) + r == (Without(lost, k) + r[..1]) + r[1..];
      LastNOf(Without(lost, k) + r[..1], r[1..], max);
    } else {
      WithoutAbsent(lost, k);
      LastNOf(lost, r, max);
    }
  }

  lemma TouchCut(lost: seq<Key>, kept: seq<Key>, k: Key, max: nat)
    requires DistinctKeys(lost + kept) && Cut(lost, kept, max)
    ensures Touch(kept, k, max) == LastN(Without(lost + kept, k) + [k], max)
  {
    hide Without, DistinctKeys, LastN;
    if k in kept {
      TouchKept(lost, kept, k);
      LastNOf(lost, Without(kept, k) + [k], max);
    } else {
      TouchForgotten(lost, kept, k, max);
      if k in lost {
        TouchLost(lost, kept, k);
      } else {
        WithoutAbsent(lost + kept, k);
        WithoutAbsent(lost, k);
        assert (lost + kept) + [k] == lost + (kept + [k]);
      }
    }
  }

  /** Bounding before or after taking note of a key makes no difference. */
  lemma TouchRecent(all: seq<Key>, k: Key, max: nat)
    requires DistinctKeys(all)
    ensures Touch(LastN(all, max), k, max) == LastN(Without(all, k) + [k], max)
  {
    hide Without, DistinctKeys, Touch;
    var kept := LastN(all, max);
    var lost := all[..|all| - |kept|];
    assert all == lost + kept;
    TouchCut(lost, kept, k, max);
  }

  lemma KeysWithout(lru: seq<Entry>, e: Entry)
    requires Ordered(lru) && e in lru
    ensures Keys(Without(lru, e)) == Without(Keys(lru), KeyOf(e))
  {
    hide Without;
    var i :| 0 <= i < |lru| && lru[i] == e;
    EntryAt(lru, i);
    forall j | 0 <= j < i
      ensures Keys(lru)[j] != KeyOf(e)
    {
      assert lru[j].bssid != lru[i].bssid || lru[j].ssid != lru[i].ssid;
    }
    WithoutAt(Keys(lru), i);
    assert Keys(Drop(lru, i)) == Drop(Keys(lru), i);
  }

  lemma KeysFind(lru: seq<Entry>, bssid: Mac, ssid: seq<byte>)
    ensures Find(lru, bssid, ssid).Some? <==> (bssid, ssid) in Keys(lru)
  {
    FindExact(lru, bssid, ssid);
    if (bssid, ssid) in Keys(lru) {
      var i :| 0 <= i < |lru| && Keys(lru)[i] == (bssid, ssid);
      assert lru[i] in lru;
    }
    if Find(lru, bssid, ssid).Some? {
      var i :| 0 <= i < |lru| && lru[i] == Find(lru, bssid, ssid).value;
      assert Keys(lru)[i] == (bssid, ssid);
    }
  }

  lemma ResultTouches(t: Table, cfg: Config, res: ScanRes, now: Time, moves: bool)
    requires Inv(t, cfg) && SsidOf(res).Some?
    ensures Keys(UpdateScanRes(t, cfg, res, now, moves).lru)
         == Touch(Keys(t.lru), (res.bssid, SsidOf(res).value), cfg.maxCount)
  {
    hide Parse, Ascending, Ordered;
    var ssid := SsidOf(res).value;
    var k := (res.bssid, ssid);
    KeysFind(t.lru, res.bssid, ssid);
    FindExact(t.lru, res.bssid, ssid);
    var e := Find(t.lru, res.bssid, ssid);
    if e.Some? {
      KeysWithout(t.lru, e.value);
      assert Keys(Without(t.lru, e.value) + [Updated(t, e.value, res, now)])
          == Keys(Without(t.lru, e.value)) + [k];
    } else {
      var n := NewEntry(t, ssid, res, now);
      WithoutAbsent(Keys(t.lru), k);
      assert Keys(t.lru + [n]) == Keys(t.lru) + [k];
      assert (t.lru + [n])[0] == if t.lru == [] then n else t.lru[0];
      assert Keys((t.lru + [n])[1..]) == (Keys(t.lru) + [k])[1..];
    }
  }

  // ----- runs in which nothing expires

  /** Events of a run that remove no entry except to make room. */
  predicate Keeping(ev: Event) {
    ev.UpdateStart? || ev.ScanResult? || ev.Associate? || (ev.ScanEnd? && !ev.newScan)
  }

  /** The keys of the stored results of a run, in order. */
  function History(evs: seq<Event>): seq<Key> {
    if evs == [] then []
    else
      var ev := evs[|evs| - 1];
      History(evs[..|evs| - 1])
      + if ev.ScanResult? && SsidOf(ev.res).Some? then [(ev.res.bssid, SsidOf(ev.res).value)] else []
  }

  /** The table holds the most recently seen keys, as many as fit, in the order
      in which they were last seen. */
  lemma {:induction false} HoldsMostRecent(cfg: Config, evs: seq<Event>)
    requires forall ev :: ev in evs ==> Keeping(ev)
    ensures Keys(Run(cfg, evs).lru) == LastN(Recency(History(evs)), cfg.maxCount)
  {
    hide UpdateScanRes, Inv, SsidOf, Touch, Without, LastN;
    if evs == [] {
      LastNEmpty(cfg.maxCount);
    } else {
      var before, ev := evs[..|evs| - 1], evs[|evs| - 1];
      var t, h := Run(cfg, before), History(before);
      HoldsMostRecent(cfg, before);
      ReachableInv(cfg, before);
      assert Keeping(ev);
      if ev.ScanResult? && SsidOf(ev.res).Some? {
        var k := (ev.res.bssid, SsidOf(ev.res).value);
        ResultTouches(t, cfg, ev.res, ev.now, ev.moves);
        RecencyExact(h);
        TouchRecent(Recency(h), k, cfg.maxCount);
        assert (h + [k])[..|h|] == h;
      } else {
        SkippedResult(t, cfg, ev);
        assert h + [] == h;
      }
    }
  }

  lemma LastNEmpty(n: nat)
    ensures LastN<Key>([], n) == []
  {
  }

  lemma SkippedResult(t: Table, cfg: Config, ev: Event)
    requires Keeping(ev) && (ev.ScanResult? ==> SsidOf(ev.res).None?)
    ensures Step(t, cfg, ev).lru == t.lru
  {
  }
}
