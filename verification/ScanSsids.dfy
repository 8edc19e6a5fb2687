/** The SSID part of an ap_scan=1 scan request (wpa_supplicant/scan.c).

    The configured networks form a linked list; a pointer into it is an index
    and NULL is the length of the list. prev_scan_ssid survives from scan to
    scan and is compared by identity, which the network id stands for, so it
    may also name a network that is no longer listed. */
module ScanSsids {
  import opened Cyclic

  datatype ScanNetwork = ScanNetwork(id: nat, disabled: bool, scanSsid: bool)

  datatype Cursor = Wildcard | Previous(id: nat)

  /** One scan request: the networks whose SSIDs it probes, whether the
      wildcard SSID is included, and the cursor left for the next one. */
  datatype Request = Request(ssids: seq<nat>, wildcard: bool, cursor: Cursor)

  function Eligible(nets: seq<ScanNetwork>): (mark: seq<bool>)
    ensures |mark| == |nets|
    ensures forall i :: 0 <= i < |nets| ==> mark[i] == (!nets[i].disabled && nets[i].scanSsid)
  {
    seq(|nets|, i requires 0 <= i < |nets| => !nets[i].disabled && nets[i].scanSsid)
  }

  /** The position after the first network with the given id; NULL when there is none. */
  function After(nets: seq<ScanNetwork>, id: nat, from: nat): (r: nat)
    requires from <= |nets|
    ensures from <= r <= |nets|
    decreases |nets| - from
  {
    if from == |nets| then from
    else if nets[from].id == id then from + 1
    else After(nets, id, from + 1)
  }

  function Start(nets: seq<ScanNetwork>, cursor: Cursor): (r: nat)
    ensures r <= |nets|
  {
    match cursor
    case Wildcard => 0
    case Previous(id) => After(nets, id, 0)
  }

  /** How many SSIDs one request may list; a slot is kept for the wildcard when there are several. */
  function Cap(max: nat): nat { if max > 1 then max - 1 else 1 }

  /** The eligible networks in the order one request would reach them if it had no cap. */
  function Walk(nets: seq<ScanNetwork>, start: nat, max: nat): seq<nat>
    requires start <= |nets|
  {
    if max > 1 then Rotation(Eligible(nets), start) else Hits(Eligible(nets), start, |nets|)
  }

  lemma WalkInRange(nets: seq<ScanNetwork>, start: nat, max: nat)
    requires start <= |nets|
    ensures forall p: nat :: p in Walk(nets, start, max) ==> p < |nets| && Eligible(nets)[p]
    ensures Distinct(Walk(nets, start, max))
  {
    RotationExact(Eligible(nets), start);
    HitsExact(Eligible(nets), start, |nets|);
  }

  function ScanOnce(nets: seq<ScanNetwork>, cursor: Cursor, max: nat): Request {
    var start := Start(nets, cursor);
    var w := Walk(nets, start, max);
    WalkInRange(nets, start, max);
    if |w| >= Cap(max) then
      assert w[Cap(max) - 1] in w;
      Request(w[..Cap(max)], max > 1, Previous(nets[w[Cap(max) - 1]].id))
    else if max > 1 && 0 < start < |nets| then
      Request(w, true, Previous(nets[start].id))
    else
      Request(w, true, Wildcard)
  }

  /** What is left of a walk that has come to position ssid and wraps until it
      meets position turn again; turn is 0 when the walk stops at the end. */
  ghost function Ahead(mark: seq<bool>, ssid: nat, turn: nat): seq<nat>
    requires ssid <= |mark| && turn <= |mark|
  {
    if ssid < turn then Hits(mark, ssid, turn)
    else Hits(mark, ssid, |mark|) + Hits(mark, 0, turn)
  }

  /** What is left once position ssid has been dealt with. */
  ghost function AheadAfter(mark: seq<bool>, ssid: nat, turn: nat): seq<nat>
    requires ssid < |mark| && turn < |mark|
  {
    if ssid + 1 == turn then []
    else if ssid + 1 == |mark| && turn > 0 then Ahead(mark, 0, turn)
    else Ahead(mark, ssid + 1, turn)
  }

  lemma AheadStep(mark: seq<bool>, ssid: nat, turn: nat)
    requires ssid < |mark| && turn < |mark|
    ensures Ahead(mark, ssid, turn)
         == (if mark[ssid] then [ssid] else []) + AheadAfter(mark, ssid, turn)
  {
    assert Hits(mark, |mark|, |mark|) == [] && Hits(mark, turn, turn) == [];
  }

  /** The walk of a request is what is ahead of the position it starts from. */
  lemma AheadAtStart(nets: seq<ScanNetwork>, start: nat, max: nat)
    requires start <= |nets|
    ensures Walk(nets, start, max)
         == (if max > 1 && 0 < start < |nets| then Ahead(Eligible(nets), start, start)
             else if max > 1 then Ahead(Eligible(nets), 0, 0)
             else Ahead(Eligible(nets), start, 0))
  {
  }

  lemma AheadAtEnd(mark: seq<bool>)
    ensures Ahead(mark, |mark|, 0) == []
  {
  }

  lemma AppendFirst(done: seq<nat>, x: nat, todo: seq<nat>)
    ensures done + ([x] + todo) == (done + [x]) + todo
    ensures (done + ([x] + todo))[..|done| + 1] == done + [x]
  {
  }

  class Scanner {
    var networks: seq<ScanNetwork>
    var prevScanSsid: Cursor

    constructor (nets: seq<ScanNetwork>)
      ensures networks == nets && prevScanSsid == Wildcard
    {
      networks := nets;
      prevScanSsid := Wildcard;
    }

    method FindStart() returns (ssid: nat)
      ensures ssid == Start(networks, prevScanSsid)
    {
      ssid := 0;
      if prevScanSsid != Wildcard {
        while ssid < |networks|
          invariant ssid <= |networks|
          invariant After(networks, prevScanSsid.id, ssid)
                 == Start(networks, prevScanSsid)
        {
          if networks[ssid].id == prevScanSsid.id {
            return ssid + 1;
          }
          ssid := ssid + 1;
        }
      }
    }

    /** The wrap-around walk: collects SSIDs until the cap, the starting point or the end is reached. */
    method WalkNetworks(start: nat, max: nat) returns (ssids: seq<nat>, ssid: nat)
      requires start <= |networks|
      ensures var w := Walk(networks, start, max);
              if |w| >= Cap(max) then ssids == w[..Cap(max)] && ssid == w[Cap(max) - 1] < |networks|
              else ssids == w && ssid == (if max > 1 && start > 0 then start else |networks|)
    {
      hide Hits, Rotation, Walk, Ahead;
      ghost var mark := Eligible(networks);
      var n := |networks|;
      ghost var walk := Walk(networks, start, max);
      ssid := start;
      if ssid == n && max > 1 {
        ssid := 0;
      }
      ssids := [];
      ghost var todo := walk;
      ghost var turn := if max > 1 && 0 < start < n then start else 0;
      AheadAtStart(networks, start, max);
      AheadAtEnd(mark);
      while ssid != n
        invariant ssid <= n
        invariant turn == 0 || turn == start < n
        invariant turn == 0 ==> max <= 1 || start == 0 || start == n
        invariant turn > 0 ==> max > 1 && ssid != n
        invariant max <= 1 ==> start <= ssid
        invariant todo == Ahead(mark, ssid, turn)
        invariant ssids + todo == walk && |ssids| < Cap(max)
        decreases turn <= ssid, n - ssid
      {
        AheadStep(mark, ssid, turn);
        ghost var last := todo;
        todo := AheadAfter(mark, ssid, turn);
        if !networks[ssid].disabled && networks[ssid].scanSsid {
          assert last == [ssid] + todo;
          AppendFirst(ssids, ssid, todo);
          ssids := ssids + [ssid];
          if |ssids| + 1 >= max {
            return;
          }
        } else {
          assert last == [] + todo == todo;
        }
        ssid := ssid + 1;
        if ssid == start {
          assert todo == [];
          return;
        }
        if ssid == n && max > 1 && start != 0 {
          ssid := 0;
        }
      }
    }

    /** Fills params.ssids and params.num_ssids and moves the cursor. */
    method BuildSsids(max: nat) returns (ssids: seq<nat>, numSsids: nat)
      modifies this`prevScanSsid
      ensures ScanOnce(networks, old(prevScanSsid), max)
           == Request(ssids, numSsids > |ssids|, prevScanSsid)
      ensures numSsids <= |ssids| + 1
    {
      var start := FindStart();
      var ssid;
      ssids, ssid := WalkNetworks(start, max);
      numSsids := |ssids|;
      if ssid != |networks| {
        prevScanSsid := Previous(networks[ssid].id);
        if max > 1 {
          numSsids := numSsids + 1;
        }
      } else {
        prevScanSsid := Wildcard;
        numSsids := numSsids + 1;
      }
    }
  }

  /** A request never lists a network twice, lists only eligible ones and stays within its cap. */
  lemma RequestWellFormed(nets: seq<ScanNetwork>, cursor: Cursor, max: nat)
    requires max >= 1
    ensures var r := ScanOnce(nets, cursor, max);
            && Distinct(r.ssids)
            && (forall p: nat :: p in r.ssids ==> p < |nets| && !nets[p].disabled && nets[p].scanSsid)
            && |r.ssids| + (if r.wildcard then 1 else 0) <= max
            && (max > 1 ==> r.wildcard)
  {
    var w := Walk(nets, Start(nets, cursor), max);
    WalkInRange(nets, Start(nets, cursor), max);
    forall p: nat | p in ScanOnce(nets, cursor, max).ssids
      ensures p < |nets| && Eligible(nets)[p]
    {
      assert p in w;
    }
  }

  /** The cursor names network i, the first one with its id. */
  ghost predicate Names(nets: seq<ScanNetwork>, cursor: Cursor, i: nat) {
    i < |nets| && cursor == Previous(nets[i].id) && forall j :: 0 <= j < i ==> nets[j].id != nets[i].id
  }

  lemma {:induction false} AfterNamed(nets: seq<ScanNetwork>, id: nat, from: nat)
    requires from <= |nets| && forall j :: 0 <= j < from ==> nets[j].id != id
    ensures var r := After(nets, id, from);
            if 0 < r && nets[r - 1].id == id then Names(nets, Previous(id), r - 1)
            else r == |nets| && forall j :: 0 <= j < |nets| ==> nets[j].id != id
    decreases |nets| - from
  {
    if from < |nets| && nets[from].id != id {
      AfterNamed(nets, id, from + 1);
    }
  }

  /** A request that fills its slots leaves the last network it lists as the cursor.
      One that has a slot to spare includes the wildcard; with several slots it lists
      every network that asks for it, and leaves the network it started from, which
      is the one behind the cursor's; in all other cases it leaves the wildcard. */
  lemma CursorLeft(nets: seq<ScanNetwork>, cursor: Cursor, max: nat)
    requires max >= 1
    ensures var r, room := ScanOnce(nets, cursor, max), if max > 1 then max - 1 else 1;
            && |r.ssids| <= room
            && (|r.ssids| == room ==>
                  && r.ssids[room - 1] < |nets| && r.cursor == Previous(nets[r.ssids[room - 1]].id)
                  && (r.wildcard <==> max > 1))
            && (|r.ssids| < room ==>
                  && r.wildcard
                  && (max > 1 ==> forall p: nat :: p < |nets| && !nets[p].disabled && nets[p].scanSsid ==> p in r.ssids)
                  && (max > 1 ==> forall i: nat :: Names(nets, cursor, i) && i + 1 < |nets| ==>
                                    r.cursor == Previous(nets[i + 1].id))
                  && (max == 1 || (forall i: nat :: Names(nets, cursor, i) ==> i + 1 == |nets|) ==>
                        r.cursor == Wildcard))
  {
    hide After, Hits, Rotation;
    var start := Start(nets, cursor);
    WalkInRange(nets, start, max);
    RotationExact(Eligible(nets), start);
    if cursor.Previous? {
      AfterNamed(nets, cursor.id, 0);
    }
    var w := Walk(nets, start, max);
    if |w| >= Cap(max) {
      assert w[Cap(max) - 1] in w;
    }
  }

  // ----- runs of scans over a fixed network list

  /** The cursor before scan number t. */
  function CursorAt(nets: seq<ScanNetwork>, cursor: Cursor, max: nat, t: nat): Cursor
    decreases t
  {
    if t == 0 then cursor else CursorAt(nets, ScanOnce(nets, cursor, max).cursor, max, t - 1)
  }

  /** Scan number t of a run. */
  function ScanAt(nets: seq<ScanNetwork>, cursor: Cursor, max: nat, t: nat): Request {
    ScanOnce(nets, CursorAt(nets, cursor, max, t), max)
  }

  ghost predicate UniqueIds(nets: seq<ScanNetwork>) {
    forall i, j :: 0 <= i < j < |nets| ==> nets[i].id != nets[j].id
  }

  lemma {:induction false} StartAfter(nets: seq<ScanNetwork>, p: nat, from: nat)
    requires UniqueIds(nets)
    requires from <= p < |nets|
    ensures After(nets, nets[p].id, from) == p + 1
    decreases p - from
  {
    if from < p {
      StartAfter(nets, p, from + 1);
    }
  }

  /** A request that fills its cap makes the next one continue where it stopped. */
  lemma WalkAfterFullRequest(nets: seq<ScanNetwork>, cursor: Cursor, max: nat, i: nat)
    requires UniqueIds(nets) && max > 1
    requires max - 1 <= i < |Walk(nets, Start(nets, cursor), max)|
    ensures var w := Walk(nets, Start(nets, cursor), max);
            var v := Walk(nets, Start(nets, ScanOnce(nets, cursor, max).cursor), max);
            |v| == |w| && v[i - (max - 1)] == w[i]
  {
    hide Hits, Rotation, After, Eligible;
    var q, start := max - 1, Start(nets, cursor);
    var w := Walk(nets, start, max);
    RotationShift(Eligible(nets), start, q - 1);
    StartAfter(nets, w[q - 1], 0);
  }

  /** Network p is probed by one of the next `scans` scans. */
  ghost predicate ProbedWithin(nets: seq<ScanNetwork>, cursor: Cursor, max: nat, p: nat, scans: nat) {
    exists t: nat :: t < scans && p in ScanAt(nets, cursor, max, t).ssids
  }

  /** The wildcard is included in one of the next `scans` scans. */
  ghost predicate WildcardWithin(nets: seq<ScanNetwork>, cursor: Cursor, max: nat, scans: nat) {
    exists t: nat :: t < scans && ScanAt(nets, cursor, max, t).wildcard
  }

  lemma ProbedLater(nets: seq<ScanNetwork>, cursor: Cursor, max: nat, p: nat, scans: nat)
    requires ProbedWithin(nets, ScanOnce(nets, cursor, max).cursor, max, p, scans)
    ensures ProbedWithin(nets, cursor, max, p, scans + 1)
  {
    var next := ScanOnce(nets, cursor, max).cursor;
    var t: nat :| t < scans && p in ScanAt(nets, next, max, t).ssids;
    assert p in ScanAt(nets, cursor, max, t + 1).ssids;
  }

  lemma ProbedNow(nets: seq<ScanNetwork>, cursor: Cursor, max: nat, i: nat, scans: nat)
    requires i < max - 1 && i < |Walk(nets, Start(nets, cursor), max)| && scans > 0
    ensures ProbedWithin(nets, cursor, max, Walk(nets, Start(nets, cursor), max)[i], scans)
  {
    hide Walk, Start;
    var w := Walk(nets, Start(nets, cursor), max);
    assert |w| >= Cap(max) ==> w[..Cap(max)][i] == w[i];
    assert w[i] in ScanAt(nets, cursor, max, 0).ssids;
  }

  /** The i-th network in walk order is probed once the slots of all scans exceed i. */
  lemma {:induction false} ProbedBySlot(nets: seq<ScanNetwork>, cursor: Cursor, max: nat, i: nat, scans: nat)
    requires UniqueIds(nets) && max > 1
    requires i < |Walk(nets, Start(nets, cursor), max)|
    requires i < scans * (max - 1)
    ensures ProbedWithin(nets, cursor, max, Walk(nets, Start(nets, cursor), max)[i], scans)
    decreases i
  {
    hide *;
    var w := Walk(nets, Start(nets, cursor), max);
    if i < max - 1 {
      ProbedNow(nets, cursor, max, i, scans);
    } else {
      assert scans * (max - 1) == (scans - 1) * (max - 1) + (max - 1);
      WalkAfterFullRequest(nets, cursor, max, i);
      ProbedBySlot(nets, ScanOnce(nets, cursor, max).cursor, max, i - (max - 1), scans - 1);
      ProbedLater(nets, cursor, max, w[i], scans - 1);
    }
  }

  /** How many networks ask to be probed by SSID. */
  function Wanted(nets: seq<ScanNetwork>): nat {
    |Hits(Eligible(nets), 0, |nets|)|
  }

  /** With several slots, every network that asks for it is probed within
      ceil(m / (max - 1)) consecutive scans, from any cursor: in any number of
      scans whose SSID slots together suffice for all m. */
  lemma EveryNetworkProbed(nets: seq<ScanNetwork>, cursor: Cursor, max: nat, p: nat, scans: nat)
    requires UniqueIds(nets) && max > 1
    requires p < |nets| && Eligible(nets)[p]
    requires scans * (max - 1) >= Wanted(nets)
    ensures ProbedWithin(nets, cursor, max, p, scans)
  {
    var w := Walk(nets, Start(nets, cursor), max);
    RotationExact(Eligible(nets), Start(nets, cursor));
    assert p in w;
    var i: nat :| i < |w| && w[i] == p;
    ProbedBySlot(nets, cursor, max, i, scans);
  }

  /** With one slot, the i-th next eligible network has scan i to itself and
      the wildcard has the scan after the last of them. */
  lemma {:induction false} OneSlotOrder(nets: seq<ScanNetwork>, cursor: Cursor, i: nat)
    requires UniqueIds(nets)
    requires i <= |Walk(nets, Start(nets, cursor), 1)|
    ensures var w := Walk(nets, Start(nets, cursor), 1);
            var r := ScanAt(nets, cursor, 1, i);
            if i < |w| then r.ssids == [w[i]] && !r.wildcard
            else r == Request([], true, Wildcard)
    decreases i
  {
    var start := Start(nets, cursor);
    var w := Walk(nets, start, 1);
    if i > 0 {
      var next := ScanOnce(nets, cursor, 1).cursor;
      HitsAfter(Eligible(nets), start, |nets|, 0);
      StartAfter(nets, w[0], 0);
      OneSlotOrder(nets, next, i - 1);
    }
  }

  lemma {:induction false} CursorAdds(nets: seq<ScanNetwork>, cursor: Cursor, max: nat, s: nat, t: nat)
    ensures CursorAt(nets, cursor, max, s + t)
         == CursorAt(nets, CursorAt(nets, cursor, max, s), max, t)
    decreases s
  {
    hide ScanOnce;
    if s > 0 {
      CursorAdds(nets, ScanOnce(nets, cursor, max).cursor, max, s - 1, t);
    }
  }

  /** With one slot, a network behind the cursor is probed after the wildcard. */
  lemma OneSlotBehind(nets: seq<ScanNetwork>, cursor: Cursor, i: nat)
    requires UniqueIds(nets)
    requires i < |Hits(Eligible(nets), 0, Start(nets, cursor))|
    ensures ScanAt(nets, cursor, 1, |Walk(nets, Start(nets, cursor), 1)| + 1 + i).ssids
         == [Hits(Eligible(nets), 0, Start(nets, cursor))[i]]
  {
    var start := Start(nets, cursor);
    var ahead := |Walk(nets, start, 1)|;
    HitsSplit(Eligible(nets), 0, start, |nets|);
    OneSlotOrder(nets, cursor, ahead);
    CursorAdds(nets, cursor, 1, ahead, 1);
    CursorAdds(nets, cursor, 1, ahead + 1, i);
    OneSlotOrder(nets, Wildcard, i);
  }

  /** With one slot, the wildcard is probed within m + 1 consecutive scans, from any cursor. */
  lemma OneSlotReachesWildcard(nets: seq<ScanNetwork>, cursor: Cursor)
    requires UniqueIds(nets)
    ensures WildcardWithin(nets, cursor, 1, Wanted(nets) + 1)
  {
    HitsSplit(Eligible(nets), 0, Start(nets, cursor), |nets|);
    OneSlotOrder(nets, cursor, |Walk(nets, Start(nets, cursor), 1)|);
  }

  /** With one slot, every network that asks for it is probed within m + 1
      consecutive scans, from any cursor. */
  lemma OneSlotCoversAll(nets: seq<ScanNetwork>, cursor: Cursor, p: nat)
    requires UniqueIds(nets)
    requires p < |nets| && Eligible(nets)[p]
    ensures ProbedWithin(nets, cursor, 1, p, Wanted(nets) + 1)
  {
    var start := Start(nets, cursor);
    var ahead, behind := Hits(Eligible(nets), start, |nets|), Hits(Eligible(nets), 0, start);
    HitsSplit(Eligible(nets), 0, start, |nets|);
    if start <= p {
      HitsExact(Eligible(nets), start, |nets|);
      var i :| 0 <= i < |ahead| && ahead[i] == p;
      OneSlotOrder(nets, cursor, i);
    } else {
      HitsExact(Eligible(nets), 0, start);
      var i :| 0 <= i < |behind| && behind[i] == p;
      OneSlotBehind(nets, cursor, i);
    }
  }
}
