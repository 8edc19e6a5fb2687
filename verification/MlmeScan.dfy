/** The channel scan of the client MLME (wpa_supplicant/mlme.c): a timer that
    visits one channel of one mode at a time. */
module MlmeScan {
  import opened Wrappers

  datatype HwMode = B | G | A

  datatype Channel = Channel(chan: nat, freq: int, disabled: bool, passive: bool, noIbss: bool)

  datatype Mode = Mode(mode: HwMode, channels: seq<Channel>)

  /** What the radio is set to, and what it returns to after a scan. */
  datatype Tuning = Tuning(phymode: HwMode, channel: nat, freq: int)

  /** The modes and channels of the driver, and the modes that are enabled. */
  datatype Hardware = Hardware(modes: seq<Mode>, hwModes: set<HwMode>)

  /** Every mode has a channel. */
  ghost predicate Populated(hw: Hardware) {
    forall i :: 0 <= i < |hw.modes| ==> hw.modes[i].channels != []
  }

  /** A visit of a channel, and whether the scan stayed there to probe or listen. */
  datatype Visit = Visit(m: nat, c: nat, stayed: bool)

  /** The scan state. visits and probes are the history of the latest scan: the
      channels considered, and those on which the scan waited for answers. */
  datatype State = State(tuning: Tuning, oper: Tuning, scanning: bool, probing: bool, m: nat, c: nat,
                         freqs: Option<seq<int>>, skip11b: bool, timer: bool,
                         visits: seq<Visit>, probes: seq<(nat, nat)>)

  // ----- the steps

  /** A channel is passed over when its mode is off, when it is disabled or does
      not allow the ad-hoc network in use, when 802.11g covers it, or when it is
      not asked for. */
  predicate Passes(hw: Hardware, s: State, m: nat, c: nat, adhoc: bool)
    requires m < |hw.modes| && c < |hw.modes[m].channels|
  {
    var mode, chan := hw.modes[m], hw.modes[m].channels[c];
    && mode.mode in hw.hwModes
    && !chan.disabled && !(adhoc && chan.noIbss)
    && !(G in hw.hwModes && mode.mode == B && s.skip11b)
    && (s.freqs.Some? ==> chan.freq in s.freqs.value)
  }

  /** The position after (m, c). */
  function Advance(hw: Hardware, m: nat, c: nat): (nat, nat)
    requires m < |hw.modes|
  {
    if c + 1 >= |hw.modes[m].channels| then (m + 1, 0) else (m, c + 1)
  }

  predicate Done(hw: Hardware, m: nat, c: nat) {
    m >= |hw.modes| || (m + 1 == |hw.modes| && c >= |hw.modes[m].channels|)
  }

  /** A position that the scan can be at. */
  ghost predicate At(hw: Hardware, m: nat, c: nat) {
    (m < |hw.modes| && c < |hw.modes[m].channels|) || (m == |hw.modes| && c == 0)
  }

  /** The timer expires; tuned says whether the driver sets the channel when asked. */
  function TimerStep(hw: Hardware, s: State, adhoc: bool, tuned: bool): State
    requires s.scanning ==> At(hw, s.m, s.c)
    requires s.scanning && s.probing ==> s.visits != []
  {
    if !s.scanning then s.(timer := false)
    else if s.probing then
      var v := s.visits[|s.visits| - 1];
      s.(probing := false, timer := true, probes := s.probes + [(v.m, v.c)])
    else if Done(hw, s.m, s.c) then s.(tuning := s.oper, scanning := false, timer := false)
    else
      var chan := hw.modes[s.m].channels[s.c];
      var passes := Passes(hw, s, s.m, s.c, adhoc);
      var next := Advance(hw, s.m, s.c);
      s.(tuning := if passes then Tuning(hw.modes[s.m].mode, chan.chan, chan.freq) else s.tuning,
         m := next.0, c := next.1, probing := passes && tuned, timer := true,
         visits := s.visits + [Visit(s.m, s.c, passes && tuned)])
  }

  /** The first enabled channel with a number, or the length of the list. */
  function FirstEnabled(channels: seq<Channel>, chan: nat): (r: nat)
    ensures r <= |channels|
    ensures forall j :: 0 <= j < r ==> channels[j].disabled || channels[j].chan != chan
    ensures r < |channels| ==> !channels[r].disabled && channels[r].chan == chan
  {
    if channels == [] || (!channels[0].disabled && channels[0].chan == chan) then 0
    else 1 + FirstEnabled(channels[1..], chan)
  }

  /** Whether frames may be sent at once on the channel the radio is tuned to:
      some mode of the radio's kind has it, and not as a passive channel. */
  ghost predicate Active(hw: Hardware, t: Tuning) {
    exists i :: 0 <= i < |hw.modes| && ActiveIn(hw.modes[i], t)
  }

  predicate ActiveIn(mode: Mode, t: Tuning) {
    var k := FirstEnabled(mode.channels, t.channel);
    mode.mode == t.phymode && k < |mode.channels| && !mode.channels[k].passive
  }

  /** The timer sends a probe request, on the channel the radio is tuned to. */
  ghost predicate Sends(hw: Hardware, s: State) {
    s.scanning && s.probing && Active(hw, s.tuning)
  }

  const PROBE_DELAY := 33
  const CHANNEL_TIME := 33
  const PASSIVE_CHANNEL_TIME := 200

  const MAX_SSID_LEN := 32

  /** A scan is asked for; it is refused while one is running. */
  function ReqScan(s: State, ssidLen: nat, freqs: Option<seq<int>>): (State, bool) {
    if ssidLen > MAX_SSID_LEN || s.scanning then (s, false)
    else (Started(s, freqs), true)
  }

  /** A scan at its first channel. */
  function Started(s: State, freqs: Option<seq<int>>): State {
    State(s.tuning, s.tuning, true, false, 0, 0, freqs, true, true, [], [])
  }

  // ----- the order of visits

  /** All positions before (m, c), mode by mode. */
  function Before(hw: Hardware, m: nat, c: nat): seq<(nat, nat)>
    requires m <= |hw.modes|
    decreases m, c
  {
    if c > 0 then Before(hw, m, c - 1) + [(m, c - 1)]
    else if m > 0 then Before(hw, m - 1, |hw.modes[m - 1].channels|)
    else []
  }

  function AllPairs(hw: Hardware): seq<(nat, nat)> {
    Before(hw, |hw.modes|, 0)
  }

  ghost predicate Less(a: (nat, nat), b: (nat, nat)) {
    a.0 < b.0 || (a.0 == b.0 && a.1 < b.1)
  }

  /** Before lists exactly the channels before a position. */
  lemma {:induction false} BeforeExact(hw: Hardware, m: nat, c: nat)
    requires m <= |hw.modes| && (m < |hw.modes| ==> c <= |hw.modes[m].channels|) && (m == |hw.modes| ==> c == 0)
    ensures forall i: nat, j: nat :: (i, j) in Before(hw, m, c) <==>
              i < |hw.modes| && j < |hw.modes[i].channels| && Less((i, j), (m, c))
    decreases m, c
  {
    if c > 0 {
      BeforeExact(hw, m, c - 1);
    } else if m > 0 {
      BeforeExact(hw, m - 1, |hw.modes[m - 1].channels|);
    }
  }

  /** Before is in strict order, so it lists each channel once. */
  lemma {:induction false} BeforeOrdered(hw: Hardware, m: nat, c: nat, k: nat, l: nat)
    requires m <= |hw.modes| && (m < |hw.modes| ==> c <= |hw.modes[m].channels|) && (m == |hw.modes| ==> c == 0)
    requires k < l < |Before(hw, m, c)|
    ensures Less(Before(hw, m, c)[k], Before(hw, m, c)[l])
    decreases m, c
  {
    if c > 0 {
      var b := Before(hw, m, c - 1);
      if l < |b| {
        BeforeOrdered(hw, m, c - 1, k, l);
      } else {
        BeforeExact(hw, m, c - 1);
        assert (b[k].0, b[k].1) in b;
      }
    } else if m > 0 {
      BeforeOrdered(hw, m - 1, |hw.modes[m - 1].channels|, k, l);
    }
  }

  /** Every channel of every mode is in the list, and nothing else is. */
  lemma AllPairsExact(hw: Hardware)
    ensures forall i: nat, j: nat :: (i, j) in AllPairs(hw) <==> i < |hw.modes| && j < |hw.modes[i].channels|
    ensures forall k, l :: 0 <= k < l < |AllPairs(hw)| ==> Less(AllPairs(hw)[k], AllPairs(hw)[l])
  {
    BeforeExact(hw, |hw.modes|, 0);
    forall k, l | 0 <= k < l < |AllPairs(hw)|
      ensures Less(AllPairs(hw)[k], AllPairs(hw)[l])
    {
      BeforeOrdered(hw, |hw.modes|, 0, k, l);
    }
  }

  lemma AdvanceExtends(hw: Hardware, m: nat, c: nat)
    requires Populated(hw) && m < |hw.modes| && c < |hw.modes[m].channels|
    ensures var n := Advance(hw, m, c);
            At(hw, n.0, n.1) && Before(hw, n.0, n.1) == Before(hw, m, c) + [(m, c)]
  {
    if c + 1 == |hw.modes[m].channels| {
      assert Before(hw, m + 1, 0) == Before(hw, m, c + 1);
    }
  }

  lemma {:induction false} BeforeCounts(hw: Hardware, m: nat, c: nat)
    requires Populated(hw) && At(hw, m, c)
    ensures |Before(hw, m, c)| <= |AllPairs(hw)|
    ensures m < |hw.modes| ==> |Before(hw, m, c)| < |AllPairs(hw)|
    decreases |hw.modes| - m, if m < |hw.modes| then |hw.modes[m].channels| - c else 0
  {
    if m < |hw.modes| {
      AdvanceExtends(hw, m, c);
      BeforeCounts(hw, Advance(hw, m, c).0, Advance(hw, m, c).1);
    }
  }

  // ----- what every step keeps

  function Positions(visits: seq<Visit>): (r: seq<(nat, nat)>)
    ensures |r| == |visits|
  {
    if visits == [] then [] else Positions(visits[..|visits| - 1]) + [(visits[|visits| - 1].m, visits[|visits| - 1].c)]
  }

  /** The positions at which the scan stayed. */
  function Stayed(visits: seq<Visit>): seq<(nat, nat)> {
    if visits == [] then []
    else
      var v := visits[|visits| - 1];
      Stayed(visits[..|visits| - 1]) + if v.stayed then [(v.m, v.c)] else []
  }

  /** While a scan runs, its timer is set, it has visited exactly the channels
      before its position, and it has waited on all channels where it stayed,
      except the one it is about to probe. */
  ghost predicate Inv(hw: Hardware, s: State) {
    && (s.scanning <==> s.timer)
    && (s.scanning ==>
          && At(hw, s.m, s.c)
          && Positions(s.visits) == Before(hw, s.m, s.c)
          && (s.probing ==>
                && s.visits != [] && s.visits[|s.visits| - 1].stayed
                && s.probes == Stayed(s.visits[..|s.visits| - 1]))
          && (!s.probing ==> s.probes == Stayed(s.visits)))
  }

  lemma VisitsSnoc(visits: seq<Visit>, v: Visit)
    ensures Positions(visits + [v]) == Positions(visits) + [(v.m, v.c)]
    ensures Stayed(visits + [v]) == Stayed(visits) + if v.stayed then [(v.m, v.c)] else []
  {
    assert (visits + [v])[..|visits|] == visits;
  }

  lemma TimerKeepsInv(hw: Hardware, s: State, adhoc: bool, tuned: bool)
    requires Populated(hw) && Inv(hw, s)
    ensures Inv(hw, TimerStep(hw, s, adhoc, tuned))
  {
    hide Passes, Advance;
    if s.scanning && !s.probing && !Done(hw, s.m, s.c) {
      AdvanceExtends(hw, s.m, s.c);
      var t := TimerStep(hw, s, adhoc, tuned);
      var v := t.visits[|t.visits| - 1];
      assert t.visits == s.visits + [v] && t.visits[..|t.visits| - 1] == s.visits;
      VisitsSnoc(s.visits, v);
      assert Stayed(s.visits) + [] == Stayed(s.visits);
    }
  }

  /** What is left to do: two timers for each channel not yet visited, one for a
      channel that is about to be probed, and one to finish. */
  function Measure(hw: Hardware, s: State): int {
    if !s.scanning || s.m > |hw.modes| then 0
    else 2 * (|AllPairs(hw)| - |Before(hw, s.m, s.c)|) + (if s.probing then 1 else 0) + 1
  }

  lemma IdleTimer(hw: Hardware, s: State, adhoc: bool, tuned: bool)
    requires !s.scanning
    ensures TimerStep(hw, s, adhoc, tuned) == s.(timer := false)
  {
  }

  /** Every timer brings a running scan closer to its end. */
  lemma TimerDecreases(hw: Hardware, s: State, adhoc: bool, tuned: bool)
    requires Populated(hw) && Inv(hw, s) && s.scanning
    ensures 0 <= Measure(hw, TimerStep(hw, s, adhoc, tuned)) < Measure(hw, s)
  {
    hide Passes, Advance, AllPairs;
    BeforeCounts(hw, s.m, s.c);
    if !s.probing && !Done(hw, s.m, s.c) {
      AdvanceExtends(hw, s.m, s.c);
      var n := Advance(hw, s.m, s.c);
      BeforeCounts(hw, n.0, n.1);
    }
  }

  /** A scan that completes has considered every channel of every mode once, in
      order, has waited exactly where it stayed, and is back on its channel. */
  lemma Completion(hw: Hardware, s: State, adhoc: bool, tuned: bool)
    requires Populated(hw) && Inv(hw, s) && s.scanning && !TimerStep(hw, s, adhoc, tuned).scanning
    ensures var t := TimerStep(hw, s, adhoc, tuned);
            Positions(t.visits) == AllPairs(hw) && t.probes == Stayed(t.visits) && t.tuning == s.oper
  {
  }

  // ----- runs

  /** What can happen: the scan timer, a request for a scan, or any other part of
      the program tuning the radio, as an association does. */
  datatype Event = Timer(adhoc: bool, tuned: bool) | Request(ssidLen: nat, freqs: Option<seq<int>>) | Retune(t: Tuning)

  function Step(hw: Hardware, s: State, e: Event): State
    requires s.scanning ==> At(hw, s.m, s.c)
    requires s.scanning && s.probing ==> s.visits != []
  {
    match e
    case Timer(adhoc, tuned) => TimerStep(hw, s, adhoc, tuned)
    case Request(ssidLen, freqs) => ReqScan(s, ssidLen, freqs).0
    case Retune(t) => s.(tuning := t)
  }

  /** s is followed by t through a sequence of events, during all of which the scan runs. */
  ghost predicate Running(hw: Hardware, s: State, es: seq<Event>, t: State)
    decreases |es|
  {
    if es == [] then s == t
    else
      && Inv(hw, s) && s.scanning
      && Running(hw, Step(hw, s, es[0]), es[1..], t)
  }

  function Timers(es: seq<Event>): nat {
    if es == [] then 0 else (if es[0].Timer? then 1 else 0) + Timers(es[1..])
  }

  lemma StepKeepsInv(hw: Hardware, s: State, e: Event)
    requires Populated(hw) && Inv(hw, s)
    ensures Inv(hw, Step(hw, s, e))
  {
    hide AllPairs;
    if e.Timer? {
      TimerKeepsInv(hw, s, e.adhoc, e.tuned);
    }
  }

  lemma RequestKeepsInv(hw: Hardware, s: State, ssidLen: nat, freqs: Option<seq<int>>)
    requires Populated(hw) && Inv(hw, s)
    ensures Inv(hw, ReqScan(s, ssidLen, freqs).0)
  {
  }

  /** Whatever interleaves, a scan does not outlast two timers for each channel. */
  lemma {:induction false} ScansEnd(hw: Hardware, s: State, es: seq<Event>, t: State)
    requires Populated(hw) && Running(hw, s, es, t) && Inv(hw, s)
    ensures Inv(hw, t) && Timers(es) + Measure(hw, t) <= Measure(hw, s)
    ensures es != [] ==> t.oper == s.oper
    ensures t.scanning ==> t.oper == s.oper
    decreases |es|
  {
    hide TimerStep, Measure, Before, Positions, Stayed;
    if es != [] {
      StepKeepsInv(hw, s, es[0]);
      if es[0].Timer? {
        TimerDecreases(hw, s, es[0].adhoc, es[0].tuned);
        TimerKeepsOper(hw, s, es[0].adhoc, es[0].tuned);
      } else {
        OthersKeepMeasure(hw, s, es[0]);
      }
      ScansEnd(hw, Step(hw, s, es[0]), es[1..], t);
    }
  }

  lemma TimerKeepsOper(hw: Hardware, s: State, adhoc: bool, tuned: bool)
    requires Inv(hw, s)
    ensures TimerStep(hw, s, adhoc, tuned).oper == s.oper
  {
  }

  lemma OthersKeepMeasure(hw: Hardware, s: State, e: Event)
    requires Inv(hw, s) && s.scanning && !e.Timer?
    ensures Measure(hw, Step(hw, s, e)) == Measure(hw, s) && Step(hw, s, e).oper == s.oper
  {
  }

  /** From a request to the timer that ends its scan, whatever else happens in
      between: the whole scan is as it should be, and the radio ends up tuned as
      it was when the scan was asked for. */
  lemma WholeScan(hw: Hardware, s: State, ssidLen: nat, freqs: Option<seq<int>>, es: seq<Event>, t: State,
                  adhoc: bool, tuned: bool)
    requires Populated(hw) && Inv(hw, s) && ReqScan(s, ssidLen, freqs).1
    requires Running(hw, ReqScan(s, ssidLen, freqs).0, es, t) && t.scanning && Inv(hw, t)
    requires !TimerStep(hw, t, adhoc, tuned).scanning
    ensures var u := TimerStep(hw, t, adhoc, tuned);
            && u.tuning == s.tuning
            && Positions(u.visits) == AllPairs(hw) && u.probes == Stayed(u.visits)
            && Timers(es) <= 2 * |AllPairs(hw)|
  {
    hide TimerStep;
    var r := ReqScan(s, ssidLen, freqs).0;
    assert Before(hw, 0, 0) == [];
    ScansEnd(hw, r, es, t);
    Completion(hw, t, adhoc, tuned);
    BeforeCounts(hw, t.m, t.c);
  }

  // ----- where the scan waits

  /** With a fixed network and a driver that sets some channels and not others:
      each visit stayed exactly when the channel passes and the driver sets it. */
  ghost predicate StaysExactly(hw: Hardware, s: State, adhoc: bool, sets: (nat, nat) -> bool) {
    forall k :: 0 <= k < |s.visits| ==>
      var v := s.visits[k];
      && v.m < |hw.modes| && v.c < |hw.modes[v.m].channels|
      && (v.stayed <==> Passes(hw, s, v.m, v.c, adhoc) && sets(v.m, v.c))
  }

  lemma TimerStaysExactly(hw: Hardware, s: State, adhoc: bool, sets: (nat, nat) -> bool)
    requires Populated(hw) && Inv(hw, s) && StaysExactly(hw, s, adhoc, sets)
    ensures StaysExactly(hw, TimerStep(hw, s, adhoc, sets(s.m, s.c)), adhoc, sets)
  {
    hide AllPairs, Before, Positions, Stayed;
    var t := TimerStep(hw, s, adhoc, sets(s.m, s.c));
    assert forall m: nat, c: nat :: m < |hw.modes| && c < |hw.modes[m].channels| ==>
        Passes(hw, s, m, c, adhoc) == Passes(hw, t, m, c, adhoc);
  }

  lemma {:induction false} StayedExact(visits: seq<Visit>)
    ensures forall i: nat, j: nat :: (i, j) in Positions(visits) <==>
              exists k :: 0 <= k < |visits| && visits[k].m == i && visits[k].c == j
    ensures forall i: nat, j: nat :: (i, j) in Stayed(visits) <==>
              exists k :: 0 <= k < |visits| && visits[k].m == i && visits[k].c == j && visits[k].stayed
  {
    if visits != [] {
      var p := visits[..|visits| - 1];
      StayedExact(p);
      assert visits == p + [visits[|visits| - 1]];
    }
  }

  /** A scan that has visited every channel, each with the right outcome, has waited
      on exactly the channels that pass the filters and that the driver sets. */
  lemma WaitsWhereItStays(hw: Hardware, t: State, adhoc: bool, sets: (nat, nat) -> bool)
    requires StaysExactly(hw, t, adhoc, sets)
    requires Positions(t.visits) == AllPairs(hw) && t.probes == Stayed(t.visits)
    ensures forall i: nat, j: nat :: (i, j) in t.probes <==>
              && i < |hw.modes| && j < |hw.modes[i].channels|
              && Passes(hw, t, i, j, adhoc) && sets(i, j)
  {
    hide Passes;
    AllPairsExact(hw);
    StayedExact(t.visits);
    forall i: nat, j: nat | i < |hw.modes| && j < |hw.modes[i].channels| && Passes(hw, t, i, j, adhoc) && sets(i, j)
      ensures (i, j) in t.probes
    {
      assert (i, j) in Positions(t.visits);
    }
  }

  /** While the events happen, the network in use is of one kind, and the driver
      sets the channels that sets names and no others. */
  ghost predicate FixedDriver(hw: Hardware, s: State, es: seq<Event>, adhoc: bool, sets: (nat, nat) -> bool)
    decreases |es|
  {
    es != [] && Inv(hw, s) ==>
      && (es[0].Timer? ==> es[0].adhoc == adhoc && es[0].tuned == sets(s.m, s.c))
      && FixedDriver(hw, Step(hw, s, es[0]), es[1..], adhoc, sets)
  }

  lemma StepStaysExactly(hw: Hardware, s: State, e: Event, adhoc: bool, sets: (nat, nat) -> bool)
    requires Populated(hw) && Inv(hw, s) && s.scanning && StaysExactly(hw, s, adhoc, sets)
    requires e.Timer? ==> e.adhoc == adhoc && e.tuned == sets(s.m, s.c)
    ensures StaysExactly(hw, Step(hw, s, e), adhoc, sets)
    ensures Step(hw, s, e).freqs == s.freqs && Step(hw, s, e).skip11b == s.skip11b
  {
    if e.Timer? {
      TimerStaysExactly(hw, s, adhoc, sets);
      TimerKeepsFilters(hw, s, adhoc, e.tuned);
    } else {
      hide AllPairs, Before, Positions, Stayed;
      var t := Step(hw, s, e);
      assert forall m: nat, c: nat :: m < |hw.modes| && c < |hw.modes[m].channels| ==>
          Passes(hw, s, m, c, adhoc) == Passes(hw, t, m, c, adhoc);
    }
  }

  lemma TimerKeepsFilters(hw: Hardware, s: State, adhoc: bool, tuned: bool)
    requires Inv(hw, s)
    ensures TimerStep(hw, s, adhoc, tuned).freqs == s.freqs && TimerStep(hw, s, adhoc, tuned).skip11b == s.skip11b
  {
  }

  lemma {:induction false} RunStaysExactly(hw: Hardware, s: State, es: seq<Event>, t: State,
                                           adhoc: bool, sets: (nat, nat) -> bool)
    requires Populated(hw) && Running(hw, s, es, t) && Inv(hw, s)
    requires FixedDriver(hw, s, es, adhoc, sets) && StaysExactly(hw, s, adhoc, sets)
    ensures StaysExactly(hw, t, adhoc, sets) && t.freqs == s.freqs && t.skip11b == s.skip11b
    decreases |es|
  {
    hide TimerStep, StaysExactly, Before, Positions, Stayed, AllPairs;
    if es != [] {
      StepStaysExactly(hw, s, es[0], adhoc, sets);
      StepKeepsInv(hw, s, es[0]);
      RunStaysExactly(hw, Step(hw, s, es[0]), es[1..], t, adhoc, sets);
    }
  }

  lemma WaitedWherePassed(hw: Hardware, s: State, ssidLen: nat, freqs: Option<seq<int>>, es: seq<Event>, t: State,
                          adhoc: bool, tuned: bool, sets: (nat, nat) -> bool)
    requires Populated(hw) && Inv(hw, s) && ReqScan(s, ssidLen, freqs).1
    requires Running(hw, ReqScan(s, ssidLen, freqs).0, es, t) && t.scanning && Inv(hw, t)
    requires FixedDriver(hw, ReqScan(s, ssidLen, freqs).0, es, adhoc, sets)
    requires !TimerStep(hw, t, adhoc, tuned).scanning
    ensures forall i: nat, j: nat :: (i, j) in TimerStep(hw, t, adhoc, tuned).probes <==>
              && i < |hw.modes| && j < |hw.modes[i].channels|
              && Passes(hw, Started(s, freqs), i, j, adhoc) && sets(i, j)
  {
    hide Before, Stayed, Positions, Running, FixedDriver, AllPairs, StaysExactly, Passes;
    var r, u := ReqScan(s, ssidLen, freqs).0, TimerStep(hw, t, adhoc, tuned);
    WholeScan(hw, s, ssidLen, freqs, es, t, adhoc, tuned);
    RequestKeepsInv(hw, s, ssidLen, freqs);
    StartStaysExactly(hw, s, freqs, adhoc, sets);
    RunStaysExactly(hw, r, es, t, adhoc, sets);
    LastTimerKeepsVisits(hw, t, adhoc, tuned);
    SameStays(hw, t, u, adhoc, sets);
    WaitsWhereItStays(hw, u, adhoc, sets);
    SameFilters(hw, r, u, adhoc);
  }

  /** In a new scan a channel passes exactly if its mode is on, it is not disabled, it
      allows ad-hoc networks if that is what is in use, it is no 802.11b channel
      while 802.11g is on, and it is among the frequencies asked for, if any were. */
  lemma PassesExact(hw: Hardware, s: State, freqs: Option<seq<int>>, i: nat, j: nat, adhoc: bool)
    requires i < |hw.modes| && j < |hw.modes[i].channels|
    ensures var mode, chan := hw.modes[i].mode, hw.modes[i].channels[j];
            Passes(hw, Started(s, freqs), i, j, adhoc) <==>
              && mode in hw.hwModes && !chan.disabled && (adhoc ==> !chan.noIbss)
              && (mode == B ==> G !in hw.hwModes)
              && (freqs.Some? ==> chan.freq in freqs.value)
  {
  }

  /** From a request to the timer that ends its scan: the scan has waited on exactly
      the channels that are in an enabled mode, not disabled, open to the kind of
      network in use, not covered by 802.11g and asked for, and that the driver sets. */
  lemma WaitedExactly(hw: Hardware, s: State, ssidLen: nat, freqs: Option<seq<int>>, es: seq<Event>, t: State,
                      adhoc: bool, tuned: bool, sets: (nat, nat) -> bool)
    requires Populated(hw) && Inv(hw, s) && ReqScan(s, ssidLen, freqs).1
    requires Running(hw, ReqScan(s, ssidLen, freqs).0, es, t) && t.scanning && Inv(hw, t)
    requires FixedDriver(hw, ReqScan(s, ssidLen, freqs).0, es, adhoc, sets)
    requires !TimerStep(hw, t, adhoc, tuned).scanning
    ensures forall i: nat, j: nat :: (i, j) in TimerStep(hw, t, adhoc, tuned).probes <==>
              && i < |hw.modes| && j < |hw.modes[i].channels|
              && var mode, chan := hw.modes[i].mode, hw.modes[i].channels[j];
                 && mode in hw.hwModes && !chan.disabled && (adhoc ==> !chan.noIbss)
                 && (mode == B ==> G !in hw.hwModes)
                 && (freqs.Some? ==> chan.freq in freqs.value)
                 && sets(i, j)
  {
    hide Passes, Inv, Running, FixedDriver, TimerStep, ReqScan;
    WaitedWherePassed(hw, s, ssidLen, freqs, es, t, adhoc, tuned, sets);
    forall i: nat, j: nat | i < |hw.modes| && j < |hw.modes[i].channels|
      ensures var mode, chan := hw.modes[i].mode, hw.modes[i].channels[j];
              Passes(hw, Started(s, freqs), i, j, adhoc) <==>
                && mode in hw.hwModes && !chan.disabled && (adhoc ==> !chan.noIbss)
                && (mode == B ==> G !in hw.hwModes)
                && (freqs.Some? ==> chan.freq in freqs.value)
    {
      PassesExact(hw, s, freqs, i, j, adhoc);
    }
  }

  lemma StartStaysExactly(hw: Hardware, s: State, freqs: Option<seq<int>>, adhoc: bool, sets: (nat, nat) -> bool)
    ensures StaysExactly(hw, Started(s, freqs), adhoc, sets)
  {
  }

  lemma SameStays(hw: Hardware, s: State, t: State, adhoc: bool, sets: (nat, nat) -> bool)
    requires StaysExactly(hw, s, adhoc, sets)
    requires s.visits == t.visits && s.freqs == t.freqs && s.skip11b == t.skip11b
    ensures StaysExactly(hw, t, adhoc, sets)
  {
    SameFilters(hw, s, t, adhoc);
  }

  lemma LastTimerKeepsVisits(hw: Hardware, t: State, adhoc: bool, tuned: bool)
    requires Inv(hw, t) && t.scanning && !TimerStep(hw, t, adhoc, tuned).scanning
    ensures var u := TimerStep(hw, t, adhoc, tuned);
            u.visits == t.visits && u.freqs == t.freqs && u.skip11b == t.skip11b
  {
  }

  lemma SameFilters(hw: Hardware, s: State, t: State, adhoc: bool)
    requires s.freqs == t.freqs && s.skip11b == t.skip11b
    ensures forall m: nat, c: nat :: m < |hw.modes| && c < |hw.modes[m].channels| ==>
              Passes(hw, s, m, c, adhoc) == Passes(hw, t, m, c, adhoc)
  {
  }

  // ----- probing

  /** Each mode is listed once, and an enabled channel number once in its mode. */
  ghost predicate Unambiguous(hw: Hardware) {
    && (forall i, j :: 0 <= i < j < |hw.modes| ==> hw.modes[i].mode != hw.modes[j].mode)
    && (forall i, k, l :: 0 <= i < |hw.modes| && 0 <= k < l < |hw.modes[i].channels| ==>
          || hw.modes[i].channels[k].disabled || hw.modes[i].channels[l].disabled
          || hw.modes[i].channels[k].chan != hw.modes[i].channels[l].chan)
  }

  /** A timer that makes the scan stay on a channel tunes the radio to it, and a
      probe request will go out there exactly when the channel is not passive. */
  lemma ProbedUnlessPassive(hw: Hardware, s: State, adhoc: bool, tuned: bool)
    requires Unambiguous(hw) && Inv(hw, s) && s.scanning && !s.probing
    requires TimerStep(hw, s, adhoc, tuned).probing
    ensures s.m < |hw.modes| && s.c < |hw.modes[s.m].channels|
    ensures var chan := hw.modes[s.m].channels[s.c];
            var t := TimerStep(hw, s, adhoc, tuned);
            && t.tuning == Tuning(hw.modes[s.m].mode, chan.chan, chan.freq)
            && (Active(hw, t.tuning) <==> !chan.passive)
  {
    hide Before, Positions, Stayed;
    var mode, t := hw.modes[s.m], TimerStep(hw, s, adhoc, tuned).tuning;
    var k := FirstEnabled(mode.channels, t.channel);
    assert k == s.c;
    assert ActiveIn(mode, t) <==> !mode.channels[s.c].passive;
    assert Active(hw, t) ==> ActiveIn(mode, t) by {
      if Active(hw, t) {
        var i :| 0 <= i < |hw.modes| && ActiveIn(hw.modes[i], t);
        assert i == s.m;
      }
    }
  }

  // ----- the program's state

  class Mlme {
    const hw: Hardware
    var channel: nat
    var freq: int
    var phymode: HwMode
    var scanOperChannel: nat
    var scanOperFreq: int
    var scanOperPhymode: HwMode
    var staScanning: bool
    var sendProbe: bool
    var scanHwModeIdx: nat
    var scanChannelIdx: nat
    var scanFreqs: Option<seq<int>>
    var scanSkip11b: bool
    /** Whether the scan timer is registered. */
    var timer: bool
    ghost var visits: seq<Visit>
    ghost var probes: seq<(nat, nat)>

    ghost function View(): State
      reads this
    {
      State(Tuning(phymode, channel, freq), Tuning(scanOperPhymode, scanOperChannel, scanOperFreq),
            staScanning, sendProbe, scanHwModeIdx, scanChannelIdx, scanFreqs, scanSkip11b, timer, visits, probes)
    }

    ghost predicate Valid()
      reads this
    {
      Populated(hw) && Inv(hw, View())
    }

    constructor (h: Hardware)
      requires Populated(h)
      ensures Valid() && hw == h && !staScanning
    {
      hw := h;
      channel, freq, phymode, scanOperChannel, scanOperFreq, scanOperPhymode := 0, 0, B, 0, 0, B;
      staScanning, sendProbe, scanHwModeIdx, scanChannelIdx := false, false, 0, 0;
      scanFreqs, scanSkip11b, timer, visits, probes := None, false, false, [], [];
    }

    method SaveOperChan()
      modifies this`scanOperChannel, this`scanOperFreq, this`scanOperPhymode
      ensures scanOperChannel == channel && scanOperFreq == freq && scanOperPhymode == phymode
    {
      scanOperChannel := channel;
      scanOperFreq := freq;
      scanOperPhymode := phymode;
    }

    /** Goes back to the saved channel; asked says whether the driver is asked to follow. */
    method RestoreOperChan() returns (asked: bool)
      modifies this`channel, this`freq, this`phymode
      ensures channel == scanOperChannel && freq == scanOperFreq && phymode == scanOperPhymode
      ensures asked <==> freq != 0
    {
      channel := scanOperChannel;
      freq := scanOperFreq;
      phymode := scanOperPhymode;
      asked := freq != 0;
    }

    /** Asks for a scan. */
    method StaReqScan(ssidLen: nat, freqs: Option<seq<int>>) returns (ok: bool)
      requires Valid()
      modifies this
      ensures Valid() && (View(), ok) == ReqScan(old(View()), ssidLen, freqs)
      ensures (ok <==> ssidLen <= 32 && !old(staScanning)) && (!ok ==> View() == old(View()))
    {
      hide Inv, View;
      RequestKeepsInv(hw, View(), ssidLen, freqs);
      if ssidLen > MAX_SSID_LEN {
        return false;
      }
      ViewScanning();
      if staScanning {
        return false;
      }
      StartScan(freqs);
      return true;
    }

    method StartScan(freqs: Option<seq<int>>)
      modifies this
      ensures View() == Started(old(View()), freqs)
    {
      hide Inv, Populated;
      SaveOperChan();
      scanFreqs, staScanning, scanSkip11b, sendProbe := freqs, true, true, false;
      scanHwModeIdx, scanChannelIdx, timer := 0, 0, true;
      visits, probes := [], [];
    }

    lemma ViewScanning()
      ensures View().scanning == staScanning
    {
    }

    /** Whether a channel is among the frequencies that were asked for. */
    method Wanted(f: int) returns (found: bool)
      ensures found <==> (scanFreqs.Some? ==> f in scanFreqs.value)
    {
      if scanFreqs.None? {
        return true;
      }
      var i := 0;
      while i < |scanFreqs.value|
        invariant 0 <= i <= |scanFreqs.value|
        invariant forall j :: 0 <= j < i ==> scanFreqs.value[j] != f
      {
        if scanFreqs.value[i] == f {
          return true;
        }
        i := i + 1;
      }
      return false;
    }

    /** Looks for the radio's channel among the channels of its mode. */
    method ActiveScan() returns (active: bool)
      ensures active <==> Active(hw, Tuning(phymode, channel, freq))
    {
      var m := 0;
      while m < |hw.modes|
        invariant 0 <= m <= |hw.modes|
        invariant forall i :: 0 <= i < m ==> !ActiveIn(hw.modes[i], Tuning(phymode, channel, freq))
      {
        var mode := hw.modes[m];
        if mode.mode == phymode {
          var k := FindChannel(mode.channels);
          if k < |mode.channels| && !mode.channels[k].passive {
            return true;
          }
        }
        m := m + 1;
      }
      return false;
    }

    method FindChannel(channels: seq<Channel>) returns (c: nat)
      ensures c == FirstEnabled(channels, channel)
    {
      c := 0;
      while c < |channels|
        invariant c <= |channels|
        invariant forall j :: 0 <= j < c ==> channels[j].disabled || channels[j].chan != channel
      {
        if !channels[c].disabled && channels[c].chan == channel {
          return;
        }
        c := c + 1;
      }
    }

    /** The scan timer; tuned is what the driver answers when asked to set a channel.
        probed says whether a probe request goes out, and timeout is the time in
        milliseconds for which the timer is set again. */
    method ScanTimer(adhoc: bool, tuned: bool) returns (probed: bool, timeout: nat)
      requires Valid()
      modifies this
      ensures Valid() && View() == TimerStep(hw, old(View()), adhoc, tuned)
      ensures probed <==> Sends(hw, old(View()))
      ensures timer ==>
                timeout == if probed then CHANNEL_TIME
                           else if old(View()).probing then PASSIVE_CHANNEL_TIME
                           else if View().probing then PROBE_DELAY
                           else 0
    {
      hide Before, Positions, Stayed, AllPairs, Active, Populated, View, TimerStep;
      ghost var s := View();
      TimerKeepsInv(hw, s, adhoc, tuned);
      ViewFields();
      timeout := 0;
      if !staScanning {
        probed := false;
        IdleTimer(hw, s, adhoc, tuned);
        StopTimer();
      } else if sendProbe {
        probed, timeout := SendProbe(adhoc, tuned);
      } else {
        probed := false;
        timeout := SetChannel(adhoc, tuned);
      }
      ViewFields();
    }

    lemma ViewFields()
      ensures View().scanning == staScanning && View().probing == sendProbe && View().timer == timer
      ensures View().m == scanHwModeIdx && View().c == scanChannelIdx && View().visits == visits
    {
    }

    method StopTimer()
      modifies this`timer
      ensures View() == old(View()).(timer := false)
    {
      timer := false;
    }

    /** Waits for answers on the channel, after a probe request if one may be sent there. */
    method SendProbe(ghost adhoc: bool, ghost tuned: bool) returns (probed: bool, timeout: nat)
      requires staScanning && sendProbe && visits != [] && At(hw, scanHwModeIdx, scanChannelIdx)
      modifies this`probes, this`sendProbe, this`timer
      ensures View() == TimerStep(hw, old(View()), adhoc, tuned)
      ensures probed <==> Active(hw, old(View()).tuning)
      ensures timer && timeout == if probed then CHANNEL_TIME else PASSIVE_CHANNEL_TIME
    {
      hide Active;
      ghost var v := visits[|visits| - 1];
      probed := ActiveScan();
      timeout := if probed then CHANNEL_TIME else PASSIVE_CHANNEL_TIME;
      probes, sendProbe, timer := probes + [(v.m, v.c)], false, true;
    }

    /** Goes to the next channel, or ends the scan when there is none. */
    method SetChannel(adhoc: bool, tuned: bool) returns (timeout: nat)
      requires staScanning && !sendProbe && At(hw, scanHwModeIdx, scanChannelIdx)
      modifies this
      ensures View() == TimerStep(hw, old(View()), adhoc, tuned)
      ensures timer ==> timeout == if sendProbe then PROBE_DELAY else 0
    {
      hide Passes, Advance;
      timeout := 0;
      if scanHwModeIdx >= |hw.modes|
         || (scanHwModeIdx + 1 == |hw.modes| && scanChannelIdx >= |hw.modes[scanHwModeIdx].channels|)
      {
        var asked := RestoreOperChan();
        staScanning, timer := false, false;
        return;
      }
      VisitChannel(adhoc, tuned);
      timeout, timer := if sendProbe then PROBE_DELAY else 0, true;
    }

    /** Considers the channel at the scan's position and moves on. */
    method VisitChannel(adhoc: bool, tuned: bool)
      requires scanHwModeIdx < |hw.modes| && scanChannelIdx < |hw.modes[scanHwModeIdx].channels|
      requires !sendProbe
      modifies this`channel, this`freq, this`phymode, this`visits
      modifies this`sendProbe, this`scanHwModeIdx, this`scanChannelIdx
      ensures (scanHwModeIdx, scanChannelIdx) == Advance(hw, old(scanHwModeIdx), old(scanChannelIdx))
      ensures sendProbe <==> Passes(hw, old(View()), old(scanHwModeIdx), old(scanChannelIdx), adhoc) && tuned
      ensures visits == old(visits) + [Visit(old(scanHwModeIdx), old(scanChannelIdx), sendProbe)]
      ensures var m := hw.modes[old(scanHwModeIdx)];
              var c := m.channels[old(scanChannelIdx)];
              if Passes(hw, old(View()), old(scanHwModeIdx), old(scanChannelIdx), adhoc)
              then phymode == m.mode && channel == c.chan && freq == c.freq
              else phymode == old(phymode) && channel == old(channel) && freq == old(freq)
    {
      hide Passes, Advance, View;
      var mode := hw.modes[scanHwModeIdx];
      var chan := mode.channels[scanChannelIdx];
      var skip := SkipChannel(mode, chan, adhoc);
      if !skip {
        channel := chan.chan;
        freq := chan.freq;
        phymode := mode.mode;
        if !tuned {
          skip := true;
        }
      }
      visits := visits + [Visit(scanHwModeIdx, scanChannelIdx, !skip)];
      NextChannel();
      if !skip {
        sendProbe := true;
      }
    }

    /** Whether the filters pass over a channel. */
    method SkipChannel(mode: Mode, chan: Channel, adhoc: bool) returns (skip: bool)
      requires scanHwModeIdx < |hw.modes| && scanChannelIdx < |hw.modes[scanHwModeIdx].channels|
      requires mode == hw.modes[scanHwModeIdx] && chan == mode.channels[scanChannelIdx]
      ensures skip <==> !Passes(hw, View(), scanHwModeIdx, scanChannelIdx, adhoc)
      ensures !skip ==> mode.mode in hw.hwModes && !chan.disabled && (scanFreqs.Some? ==> chan.freq in scanFreqs.value)
    {
      skip := mode.mode !in hw.hwModes;
      if chan.disabled || (adhoc && chan.noIbss) || (G in hw.hwModes && mode.mode == B && scanSkip11b) {
        skip := true;
      }
      if !skip && scanFreqs.Some? {
        var found := Wanted(chan.freq);
        if !found {
          skip := true;
        }
      }
    }

    /** Moves the scan's position on. */
    method NextChannel()
      requires scanHwModeIdx < |hw.modes|
      modifies this`scanHwModeIdx, this`scanChannelIdx
      ensures (scanHwModeIdx, scanChannelIdx) == Advance(hw, old(scanHwModeIdx), old(scanChannelIdx))
    {
      scanChannelIdx := scanChannelIdx + 1;
      if scanChannelIdx >= |hw.modes[scanHwModeIdx].channels| {
        scanHwModeIdx := scanHwModeIdx + 1;
        scanChannelIdx := 0;
      }
    }

    /** Tunes the radio for an association: to the frequency asked for, or to the
        channel of the BSS if that is known. */
    method AssociateTune(f: int, bss: Option<Tuning>)
      requires Valid()
      modifies this`channel, this`freq, this`phymode
      ensures Valid()
      ensures View() == Step(hw, old(View()), Retune(if bss.Some? then bss.value else old(View()).tuning.(freq := f)))
    {
      freq := f;
      if bss.Some? {
        phymode := bss.value.phymode;
        channel := bss.value.channel;
        freq := bss.value.freq;
      }
    }
  }
}
