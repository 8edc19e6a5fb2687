/** The BSS table on values (wpa_supplicant/bss.c): what each operation makes
    of the table, and the invariant that every operation keeps. */
module BssTable {
  import opened InfoElements
  import opened Wrappers

  datatype Time = Time(sec: int, usec: int)

  /** The fields that are copied from a scan result as they are. */
  datatype Radio = Radio(flags: nat, freq: int, beaconInt: nat, caps: bv16,
                         qual: int, noise: int, level: int, tsf: nat)

  /** A scan result; age is the age of the data in milliseconds. */
  datatype ScanRes = ScanRes(bssid: Mac, radio: Radio, age: nat, ies: seq<byte>, beaconIes: seq<byte>)

  datatype Entry = Entry(id: nat, missCount: nat, updateIdx: nat, bssid: Mac, ssid: seq<byte>,
                         radio: Radio, lastUpdate: Time, ies: seq<byte>, beaconIes: seq<byte>)

  datatype Config = Config(maxCount: nat, expirationScanCount: nat)

  /** lru is the list in update order, byId the ids of the list in id order.
      current names the entry current_bss points at; it is None when that
      pointer is NULL or points at no listed entry. */
  datatype Table = Table(lru: seq<Entry>, byId: seq<nat>, numBss: nat, nextId: nat, updateIdx: nat,
                         current: Option<nat>, bssid: Mac, pendingBssid: Mac)

  /** What was scanned; an empty list restricts nothing. */
  datatype ScanInfo = ScanInfo(freqs: seq<int>, ssids: seq<seq<byte>>)

  // ----- time stamps

  const USEC := 1000000

  ghost predicate Normalised(t: Time) { 0 <= t.usec < USEC }

  function Micros(t: Time): int { t.sec * USEC + t.usec }

  predicate TimeBefore(a: Time, b: Time) {
    a.sec < b.sec || (a.sec == b.sec && a.usec < b.usec)
  }

  function LastUpdate(now: Time, age: nat): Time {
    var t := now.(sec := now.sec - age / 1000);
    var usec := (age % 1000) * 1000;
    var u := if t.usec < usec then t.(sec := t.sec - 1, usec := t.usec + USEC) else t;
    u.(usec := u.usec - usec)
  }

  /** The stored time is now minus the age, to the microsecond, with a normalised microsecond part. */
  lemma LastUpdateExact(now: Time, age: nat)
    requires Normalised(now)
    ensures Normalised(LastUpdate(now, age))
    ensures Micros(LastUpdate(now, age)) == Micros(now) - age * 1000
  {
  }

  /** Comparing seconds and then microseconds compares instants. */
  lemma TimeBeforeExact(a: Time, b: Time)
    requires Normalised(a) && Normalised(b)
    ensures TimeBefore(a, b) <==> Micros(a) < Micros(b)
  {
  }

  // ----- list operations

  /** s without the first occurrence of x. */
  function Without<T(==)>(s: seq<T>, x: T): seq<T> {
    if s == [] then [] else if s[0] == x then s[1..] else [s[0]] + Without(s[1..], x)
  }

  function Find(lru: seq<Entry>, bssid: Mac, ssid: seq<byte>): Option<Entry> {
    if lru == [] then None
    else if lru[0].bssid == bssid && lru[0].ssid == ssid then Some(lru[0])
    else Find(lru[1..], bssid, ssid)
  }

  // ----- operations

  function Remove(t: Table, e: Entry): Table {
    t.(lru := Without(t.lru, e),
       byId := Without(t.byId, e.id),
       numBss := if t.numBss > 0 then t.numBss - 1 else 0,
       current := if t.current == Some(e.id) then None else t.current)
  }

  function NewEntry(t: Table, ssid: seq<byte>, res: ScanRes, now: Time): Entry {
    Entry(t.nextId, 0, t.updateIdx, res.bssid, ssid, res.radio, LastUpdate(now, res.age), res.ies, res.beaconIes)
  }

  function Append(t: Table, e: Entry): Table {
    t.(lru := t.lru + [e], byId := t.byId + [e.id], numBss := t.numBss + 1, nextId := t.nextId + 1)
  }

  function Add(t: Table, cfg: Config, ssid: seq<byte>, res: ScanRes, now: Time): Table {
    var u := Append(t, NewEntry(t, ssid, res, now));
    if u.numBss > cfg.maxCount then Remove(u, u.lru[0]) else u
  }

  function Updated(t: Table, e: Entry, res: ScanRes, now: Time): Entry {
    e.(missCount := 0, updateIdx := t.updateIdx, bssid := res.bssid, radio := res.radio,
       lastUpdate := LastUpdate(now, res.age), ies := res.ies, beaconIes := res.beaconIes)
  }

  /** An entry is reallocated when the new elements do not fit; it may then move
      to a new address, and a pointer to the old one no longer designates it. */
  predicate Grows(e: Entry, res: ScanRes) {
    |e.ies| + |e.beaconIes| < |res.ies| + |res.beaconIes|
  }

  function Update(t: Table, e: Entry, res: ScanRes, now: Time, moves: bool): Table {
    t.(lru := Without(t.lru, e) + [Updated(t, e, res, now)],
       current := if Grows(e, res) && moves && t.current == Some(e.id) then None else t.current)
  }

  const P2P_WILDCARD_SSID: seq<byte> := [68, 73, 82, 69, 67, 84, 45]

  /** The SSID under which a scan result is stored, None when it is skipped. */
  function SsidOf(res: ScanRes): Option<seq<byte>> {
    var es := Parse(res.ies);
    var ssid := FirstById(es, WLAN_EID_SSID);
    if ssid.None? then None
    else if |ssid.value.body| > 32 then None
    else if FirstVendor(es, P2P_IE_VENDOR_TYPE).Some? && ssid.value.body == P2P_WILDCARD_SSID then None
    else Some(ssid.value.body)
  }

  function UpdateScanRes(t: Table, cfg: Config, res: ScanRes, now: Time, moves: bool): Table {
    var ssid := SsidOf(res);
    if ssid.None? then t
    else
      var e := Find(t.lru, res.bssid, ssid.value);
      if e.None? then Add(t, cfg, ssid.value, res, now) else Update(t, e.value, res, now, moves)
  }

  predicate InUse(t: Table, e: Entry) {
    t.current == Some(e.id) || e.bssid == t.bssid || e.bssid == t.pendingBssid
  }

  predicate Covered(e: Entry, info: Option<ScanInfo>) {
    info.Some? ==>
      && (info.value.freqs != [] ==> e.radio.freq in info.value.freqs)
      && (info.value.ssids != [] ==> [] in info.value.ssids || e.ssid in info.value.ssids)
  }

  /** What the end of a new scan does to one entry: None removes it. */
  function AtScanEnd(t: Table, cfg: Config, info: Option<ScanInfo>, e: Entry): Option<Entry> {
    if InUse(t, e) || !Covered(e, info) then Some(e)
    else
      var f := if e.updateIdx < t.updateIdx then e.(missCount := e.missCount + 1) else e;
      if f.missCount >= cfg.expirationScanCount then None else Some(f)
  }

  /** The expiry loop from position i of the list on. */
  function UpdateEndFrom(t: Table, cfg: Config, info: Option<ScanInfo>, i: nat): Table
    requires i <= |t.lru|
    decreases |t.lru| - i
  {
    if i == |t.lru| then t
    else
      var e := t.lru[i];
      var f := AtScanEnd(t, cfg, info, e);
      if f.Some? then UpdateEndFrom(t.(lru := t.lru[i := f.value]), cfg, info, i + 1)
      else
        WithoutShrinks(t.lru, e, i);
        UpdateEndFrom(Remove(t, e), cfg, info, i)
  }

  function UpdateEnd(t: Table, cfg: Config, info: Option<ScanInfo>, newScan: bool): Table {
    if !newScan then t else UpdateEndFrom(t, cfg, info, 0)
  }

  /** The age flush loop from position i of the list on; it stops at the first
      entry that is neither in use nor too old. */
  function FlushOldFrom(t: Table, limit: Time, i: nat): Table
    requires i <= |t.lru|
    decreases |t.lru| - i
  {
    if i == |t.lru| then t
    else
      var e := t.lru[i];
      if InUse(t, e) then FlushOldFrom(t, limit, i + 1)
      else if TimeBefore(e.lastUpdate, limit) then
        WithoutShrinks(t.lru, e, i);
        FlushOldFrom(Remove(t, e), limit, i)
      else t
  }

  function FlushByAge(t: Table, now: Time, age: int): Table {
    FlushOldFrom(t, now.(sec := now.sec - age), 0)
  }

  function FlushFrom(t: Table, i: nat): Table
    requires i <= |t.lru|
    decreases |t.lru| - i
  {
    if i == |t.lru| then t
    else if InUse(t, t.lru[i]) then FlushFrom(t, i + 1)
    else
      WithoutShrinks(t.lru, t.lru[i], i);
      FlushFrom(Remove(t, t.lru[i]), i)
  }

  lemma {:induction false} WithoutShrinks<T>(s: seq<T>, x: T, i: nat)
    requires i < |s| && s[i] == x
    ensures |Without(s, x)| == |s| - 1
  {
    if s[0] != x {
      WithoutShrinks(s[1..], x, i - 1);
    }
  }
}
