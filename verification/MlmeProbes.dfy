/** The probe requests of a whole scan (wpa_supplicant/mlme.c): where they go out. */
module MlmeProbes {
  import opened MlmeScan
  import opened Wrappers

  /** What the radio is set to on a channel. */
  function TuningOf(hw: Hardware, i: nat, j: nat): Tuning
    requires i < |hw.modes| && j < |hw.modes[i].channels|
  {
    Tuning(hw.modes[i].mode, hw.modes[i].channels[j].chan, hw.modes[i].channels[j].freq)
  }

  /** The tunings on which probe requests go out while the events happen. */
  ghost function Sent(hw: Hardware, s: State, es: seq<Event>): seq<Tuning>
    decreases |es|
  {
    if es == [] || !Inv(hw, s) then []
    else (if es[0].Timer? && Sends(hw, s) then [s.tuning] else []) + Sent(hw, Step(hw, s, es[0]), es[1..])
  }

  /** Nothing else tunes the radio between a visit and its probe. */
  ghost predicate Undisturbed(hw: Hardware, s: State, es: seq<Event>)
    decreases |es|
  {
    es != [] && Inv(hw, s) ==> (es[0].Retune? ==> !s.probing) && Undisturbed(hw, Step(hw, s, es[0]), es[1..])
  }

  /** A channel that may be probed actively. */
  predicate Open(hw: Hardware, p: (nat, nat)) {
    p.0 < |hw.modes| && p.1 < |hw.modes[p.0].channels| && !hw.modes[p.0].channels[p.1].passive
  }

  /** The tunings of those of the channels that are not passive, in order. */
  function Requests(hw: Hardware, ps: seq<(nat, nat)>): seq<Tuning> {
    if ps == [] then []
    else
      var p := ps[|ps| - 1];
      Requests(hw, ps[..|ps| - 1]) + if Open(hw, p) then [TuningOf(hw, p.0, p.1)] else []
  }

  lemma RequestsSnoc(hw: Hardware, ps: seq<(nat, nat)>, p: (nat, nat))
    ensures Requests(hw, ps + [p]) == Requests(hw, ps) + if Open(hw, p) then [TuningOf(hw, p.0, p.1)] else []
  {
    assert (ps + [p])[..|ps|] == ps;
  }

  lemma {:induction false} RequestsExact(hw: Hardware, ps: seq<(nat, nat)>)
    ensures forall x :: x in Requests(hw, ps) <==> exists p :: p in ps && Open(hw, p) && x == TuningOf(hw, p.0, p.1)
  {
    if ps != [] {
      var init, p := ps[..|ps| - 1], ps[|ps| - 1];
      RequestsExact(hw, init);
      assert ps == init + [p];
    }
  }

  /** About to probe, the radio is on the channel of the latest visit, and a request
      goes out there exactly if the channel is not passive. */
  ghost predicate OnVisit(hw: Hardware, s: State) {
    s.scanning && s.probing ==>
      && s.visits != []
      && var v := s.visits[|s.visits| - 1];
         && v.m < |hw.modes| && v.c < |hw.modes[v.m].channels|
         && s.tuning == TuningOf(hw, v.m, v.c)
         && (Active(hw, s.tuning) <==> Open(hw, (v.m, v.c)))
  }

  lemma StepOnVisit(hw: Hardware, s: State, e: Event)
    requires Unambiguous(hw) && Inv(hw, s) && s.scanning && OnVisit(hw, s)
    requires e.Retune? ==> !s.probing
    ensures OnVisit(hw, Step(hw, s, e))
  {
    hide Before, Positions, Stayed, Passes, Active, Unambiguous;
    if e.Timer? && !s.probing && TimerStep(hw, s, e.adhoc, e.tuned).probing {
      ProbedUnlessPassive(hw, s, e.adhoc, e.tuned);
    }
  }

  /** One step: the channels waited on and the requests sent stay in step. */
  lemma StepRequests(hw: Hardware, s: State, e: Event)
    requires Inv(hw, s) && s.scanning && OnVisit(hw, s)
    ensures Requests(hw, Step(hw, s, e).probes)
         == Requests(hw, s.probes) + if e.Timer? && Sends(hw, s) then [s.tuning] else []
  {
    hide Before, Positions, Stayed, Passes, Active, Requests;
    if e.Timer? && s.probing {
      var v := s.visits[|s.visits| - 1];
      RequestsSnoc(hw, s.probes, (v.m, v.c));
    } else {
      assert Requests(hw, s.probes) + [] == Requests(hw, s.probes);
    }
  }

  /** Over a run in which nothing else tunes the radio before a probe, the requests
      sent are those of the channels waited on in it. */
  lemma {:induction false} RunRequests(hw: Hardware, s: State, es: seq<Event>, t: State)
    requires Populated(hw) && Unambiguous(hw) && Running(hw, s, es, t) && Inv(hw, s)
    requires OnVisit(hw, s) && Undisturbed(hw, s, es)
    ensures Requests(hw, t.probes) == Requests(hw, s.probes) + Sent(hw, s, es)
    decreases |es|
  {
    hide Step, OnVisit, Before, Positions, Stayed, Requests, Unambiguous, Sends;
    if es != [] {
      var u := Step(hw, s, es[0]);
      StepKeepsInv(hw, s, es[0]);
      StepOnVisit(hw, s, es[0]);
      StepRequests(hw, s, es[0]);
      RunRequests(hw, u, es[1..], t);
    }
  }

  /** From a request to the timer that ends its scan: probe requests went out on
      exactly the channels that are in an enabled mode, not disabled, open to the
      kind of network in use, not covered by 802.11g and asked for, that the driver
      sets, and that are not passive, in the order in which the scan waited on them. */
  lemma ProbedExactly(hw: Hardware, s: State, ssidLen: nat, freqs: Option<seq<int>>, es: seq<Event>, t: State,
                      adhoc: bool, tuned: bool, sets: (nat, nat) -> bool)
    requires Populated(hw) && Unambiguous(hw) && Inv(hw, s) && ReqScan(s, ssidLen, freqs).1
    requires Running(hw, ReqScan(s, ssidLen, freqs).0, es, t) && t.scanning && Inv(hw, t)
    requires FixedDriver(hw, ReqScan(s, ssidLen, freqs).0, es, adhoc, sets)
    requires Undisturbed(hw, ReqScan(s, ssidLen, freqs).0, es)
    requires !TimerStep(hw, t, adhoc, tuned).scanning
    ensures var sent := Sent(hw, ReqScan(s, ssidLen, freqs).0, es);
            && sent == Requests(hw, TimerStep(hw, t, adhoc, tuned).probes)
            && forall x :: x in sent <==>
                 exists i: nat, j: nat ::
                   && i < |hw.modes| && j < |hw.modes[i].channels| && x == TuningOf(hw, i, j)
                   && var mode, chan := hw.modes[i].mode, hw.modes[i].channels[j];
                      && mode in hw.hwModes && !chan.disabled && (adhoc ==> !chan.noIbss)
                      && (mode == B ==> G !in hw.hwModes)
                      && (freqs.Some? ==> chan.freq in freqs.value)
                      && sets(i, j) && !chan.passive
  {
    hide Running, FixedDriver, Undisturbed, Passes, Sent, Unambiguous, Requests, Before, Positions, Stayed;
    var r, u := ReqScan(s, ssidLen, freqs).0, TimerStep(hw, t, adhoc, tuned);
    RequestKeepsInv(hw, s, ssidLen, freqs);
    RunRequests(hw, r, es, t);
    EndKeepsProbes(hw, t, adhoc, tuned);
    NoRequests(hw, Sent(hw, r, es));
    WaitedExactly(hw, s, ssidLen, freqs, es, t, adhoc, tuned, sets);
    RequestsExact(hw, u.probes);
  }

  lemma NoRequests(hw: Hardware, sent: seq<Tuning>)
    ensures Requests(hw, []) + sent == sent
  {
  }

  lemma EndKeepsProbes(hw: Hardware, t: State, adhoc: bool, tuned: bool)
    requires Inv(hw, t) && t.scanning && !TimerStep(hw, t, adhoc, tuned).scanning
    ensures TimerStep(hw, t, adhoc, tuned).probes == t.probes
  {
  }
}
