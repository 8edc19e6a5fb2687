/** When the client MLME is authenticated and associated (wpa_supplicant/mlme.c),
    read off the events of a run. */
module MlmeAssociation {
  import opened MlmeAuth
  import opened Wrappers

  // ----- the latest event that decides

  /** Some event of the run gains, and none after it loses. */
  ghost predicate Since(es: seq<Event>, gain: (State, Event) -> bool, lose: (State, Event) -> bool) {
    exists k :: 0 <= k < |es| && gain(StateAt(es, k), es[k]) && KeptFrom(es, k + 1, lose)
  }

  /** The state before the k-th event. */
  function StateAt(es: seq<Event>, k: nat): State
    requires k <= |es|
  {
    Run(INITIAL, es[..k])
  }

  ghost predicate KeptFrom(es: seq<Event>, k: nat, lose: (State, Event) -> bool) {
    forall j :: k <= j < |es| ==> !lose(StateAt(es, j), es[j])
  }

  lemma StateAtSnoc(es: seq<Event>)
    requires es != []
    ensures var before, e := es[..|es| - 1], es[|es| - 1];
            && StateAt(es, |es|) == Step(StateAt(before, |before|), e)
            && StateAt(es, |before|) == StateAt(before, |before|) == Run(INITIAL, before)
            && StateAt(es, |es|) == Run(INITIAL, es)
            && forall k :: 0 <= k <= |before| ==> StateAt(es, k) == StateAt(before, k)
  {
    var before := es[..|es| - 1];
    assert es[..|es|] == es && before[..|before|] == before;
    assert forall k :: 0 <= k <= |before| ==> es[..k] == before[..k];
  }

  lemma SinceSnoc(es: seq<Event>, gain: (State, Event) -> bool, lose: (State, Event) -> bool)
    requires es != []
    ensures var before, e := es[..|es| - 1], es[|es| - 1];
            Since(es, gain, lose)
            <==> gain(Run(INITIAL, before), e) || (Since(before, gain, lose) && !lose(Run(INITIAL, before), e))
  {
    hide Run, StateAt;
    var before, n := es[..|es| - 1], |es| - 1;
    StateAtSnoc(es);
    if gain(Run(INITIAL, before), es[n]) {
      assert gain(StateAt(es, n), es[n]) && KeptFrom(es, n + 1, lose);
    }
    if Since(es, gain, lose) && !gain(Run(INITIAL, before), es[n]) {
      var k :| 0 <= k < |es| && gain(StateAt(es, k), es[k]) && KeptFrom(es, k + 1, lose);
      assert gain(StateAt(before, k), before[k]) && KeptFrom(before, k + 1, lose);
    }
    if Since(before, gain, lose) && !lose(Run(INITIAL, before), es[n]) {
      var k :| 0 <= k < n && gain(StateAt(before, k), before[k]) && KeptFrom(before, k + 1, lose);
      assert gain(StateAt(es, k), es[k]) && KeptFrom(es, k + 1, lose);
    }
  }

  /** What only gains bring about and no loss leaves has been gained since. */
  lemma {:induction false} LatestNeeded(es: seq<Event>, flag: State -> bool,
                                        gain: (State, Event) -> bool, lose: (State, Event) -> bool)
    requires !flag(INITIAL)
    requires forall s, e :: flag(Step(s, e)) ==> gain(s, e) || (flag(s) && !lose(s, e))
    ensures flag(Run(INITIAL, es)) ==> Since(es, gain, lose)
  {
    hide Step, Since;
    if es != [] {
      LatestNeeded(es[..|es| - 1], flag, gain, lose);
      SinceSnoc(es, gain, lose);
    }
  }

  /** What is also kept until it is lost holds exactly if it has been gained since. */
  lemma {:induction false} LatestDecides(es: seq<Event>, flag: State -> bool,
                                         gain: (State, Event) -> bool, lose: (State, Event) -> bool)
    requires !flag(INITIAL)
    requires forall s, e :: flag(Step(s, e)) <==> gain(s, e) || (flag(s) && !lose(s, e))
    ensures flag(Run(INITIAL, es)) <==> Since(es, gain, lose)
  {
    hide Step, Since;
    if es == [] {
      assert !Since(es, gain, lose) by {
        NoEvents(gain, lose);
      }
    } else {
      LatestDecides(es[..|es| - 1], flag, gain, lose);
      SinceSnoc(es, gain, lose);
    }
  }

  lemma NoEvents(gain: (State, Event) -> bool, lose: (State, Event) -> bool)
    ensures !Since([], gain, lose)
  {
  }

  // ----- what decides

  /** An Authentication frame of the BSS with the algorithm and the transaction
      expected, the last of its exchange, that says success. */
  predicate Authenticates(s: State, e: Event) {
    && e.EAuth? && !e.adhoc && s.phase == Authenticate
    && e.frame.longEnough && e.frame.fromBss && e.frame.status == Success
    && e.frame.alg == s.alg && e.frame.transaction == s.transaction
    && (s.alg == Shared ==> s.transaction == 4)
  }

  predicate Deauthenticates(s: State, e: Event) {
    e.EDeauth? && e.valid
  }

  /** A response to the association asked for that passes all checks. */
  predicate Joins(s: State, e: Event) {
    && e.EAssocResp? && s.phase == Associate
    && e.resp.longEnough && e.resp.fromBss && e.resp.parsed && e.resp.success && e.resp.rates && e.resp.ftOk
    && (s.alg == Ft ==> e.resp.reassoc)
  }

  /** Being deauthenticated or disassociated by the BSS, leaving it, or finding at
      a timer that its privacy does not suit the network. */
  predicate Parts(s: State, e: Event) {
    || Deauthenticates(s, e)
    || (e.EDisassoc? && e.valid)
    || e.ELeave?
    || (e.ETimer? && s.timer.Some? && e.env.mismatch)
  }

  /** What lets the program ask for an association. */
  predicate Admitted(s: State, e: Event) {
    Authenticates(s, e) || (e.EFtAction? && e.valid)
  }

  // ----- one step

  lemma TryAssocKeeps(s: State, env: Env)
    ensures var t := TryAssoc(s, env);
            && t.authenticated == s.authenticated && t.associated == s.associated
            && (t.phase == s.phase || t.phase == Associate)
  {
  }

  lemma TryAuthKeeps(s: State, env: Env)
    ensures var t := TryAuth(s, env);
            && t.authenticated == s.authenticated && t.associated == s.associated
            && (t.phase == s.phase || t.phase == Authenticate)
  {
  }

  lemma TimerFlags(s: State, env: Env, joins: bool)
    ensures var t := StaTimer(s, env, joins);
            && t.authenticated == s.authenticated && t.associated == (s.associated && !env.mismatch)
            && (t.phase == s.phase || t.phase == IbssJoined)
  {
    hide TryAssoc, TryAuth;
    TryAssocKeeps(s.(timer := None), env);
    TryAuthKeeps(s.(timer := None), env);
  }

  lemma AuthFlags(s: State, adhoc: bool, f: AuthFrame, algs: set<Alg>, env: Env)
    ensures var t := RxAuth(s, adhoc, f, algs, env);
            && t.associated == s.associated
            && (t.authenticated <==> s.authenticated || Authenticates(s, EAuth(adhoc, f, algs, env)))
            && (t.phase == s.phase || Authenticates(s, EAuth(adhoc, f, algs, env)))
  {
    hide TryAssoc, NextAlg;
    TryAssocKeeps(s.(authenticated := true), env);
  }

  lemma NewAuthFlags(s: State, infra: bool, algs: set<Alg>, env: Env)
    ensures var t := NewAuth(s, infra, algs, env);
            && t.authenticated == s.authenticated && t.associated == s.associated
            && (t.phase == s.phase || t.phase == Authenticate)
  {
  }

  /** How one event changes the two flags, and how it may bring the program into a
      phase of association. */
  lemma StepFlags(s: State, e: Event)
    ensures Step(s, e).associated <==> Joins(s, e) || (s.associated && !Parts(s, e))
    ensures Step(s, e).authenticated <==> Authenticates(s, e) || (s.authenticated && !Deauthenticates(s, e))
    ensures Associating(Step(s, e)) ==> Admitted(s, e) || (Associating(s) && !Deauthenticates(s, e))
  {
    hide TryAuth, TryAssoc, RxAuth, StaTimer, NewAuth;
    match e
    case ENewAuth(infra, algs, env) => NewAuthFlags(s, infra, algs, env);
    case ETimer(env, joins) => TimerFlags(s, env, joins);
    case EAuth(adhoc, frame, algs, env) => AuthFlags(s, adhoc, frame, algs, env);
    case EFtAction(valid, env) => TryAssocKeeps(s.(alg := Ft), env);
    case _ =>
  }

  predicate Associating(s: State) {
    s.phase == Associate || s.phase == Associated
  }

  // ----- runs

  /** After any run the program is authenticated exactly if a frame has authenticated
      it and it has not been deauthenticated since. */
  lemma AuthenticatedExact(es: seq<Event>)
    ensures Run(INITIAL, es).authenticated <==> Since(es, Authenticates, Deauthenticates)
  {
    hide Run, Step, Since, Authenticates, Deauthenticates;
    forall s, e
      ensures Step(s, e).authenticated <==> Authenticates(s, e) || (s.authenticated && !Deauthenticates(s, e))
    {
      StepFlags(s, e);
    }
    LatestDecides(es, (s: State) => s.authenticated, Authenticates, Deauthenticates);
  }

  /** After any run the program is associated exactly if a response has joined it to
      the BSS and nothing has parted it since. */
  lemma AssociatedExact(es: seq<Event>)
    ensures Run(INITIAL, es).associated <==> Since(es, Joins, Parts)
  {
    hide Run, Step, Since, Joins, Parts;
    forall s, e
      ensures Step(s, e).associated <==> Joins(s, e) || (s.associated && !Parts(s, e))
    {
      StepFlags(s, e);
    }
    LatestDecides(es, (s: State) => s.associated, Joins, Parts);
  }

  /** An association is asked for only after the BSS has authenticated the program,
      or has agreed to a transition, and has not deauthenticated it since. */
  lemma AssociatingAdmitted(es: seq<Event>)
    requires Associating(Run(INITIAL, es))
    ensures Since(es, Admitted, Deauthenticates)
  {
    hide Run, Step, Since, Admitted, Deauthenticates, Associating;
    forall s, e
      ensures Associating(Step(s, e)) ==> Admitted(s, e) || (Associating(s) && !Deauthenticates(s, e))
    {
      StepFlags(s, e);
    }
    NotAssociatingAtFirst();
    LatestNeeded(es, Associating, Admitted, Deauthenticates);
  }

  lemma NotAssociatingAtFirst()
    ensures !Associating(INITIAL)
  {
  }

  /** Every association is earned: behind it lie an admission, the response that
      joined the BSS, and neither a deauthentication since the first nor any
      parting since the second. */
  lemma AssociationEarned(es: seq<Event>)
    requires Run(INITIAL, es).associated
    ensures exists i, k ::
              && 0 <= i < k < |es|
              && Admitted(StateAt(es, i), es[i]) && Joins(StateAt(es, k), es[k])
              && KeptFrom(es, i + 1, Deauthenticates) && KeptFrom(es, k + 1, Parts)
  {
    hide StateAt, KeptFrom, Run, Admitted, Joins, Parts;
    AssociatedExact(es);
    var k :| 0 <= k < |es| && Joins(StateAt(es, k), es[k]) && KeptFrom(es, k + 1, Parts);
    PrefixStates(es, k);
    JoinsAssociating(StateAt(es, k), es[k]);
    AssociatingAdmitted(es[..k]);
    var i :| 0 <= i < k && Admitted(StateAt(es[..k], i), es[..k][i]) && KeptFrom(es[..k], i + 1, Deauthenticates);
    KeptThrough(es, i + 1, k);
  }

  lemma JoinsAssociating(s: State, e: Event)
    requires Joins(s, e)
    ensures Associating(s) && !Deauthenticates(s, e)
  {
  }

  lemma PrefixStates(es: seq<Event>, k: nat)
    requires k <= |es|
    ensures StateAt(es, k) == Run(INITIAL, es[..k])
    ensures forall j :: 0 <= j <= k ==> StateAt(es[..k], j) == StateAt(es, j)
  {
    assert forall j :: 0 <= j <= k ==> es[..k][..j] == es[..j];
  }

  lemma KeptThrough(es: seq<Event>, i: nat, k: nat)
    requires i <= k < |es| && KeptFrom(es[..k], i, Deauthenticates)
    requires !Deauthenticates(StateAt(es, k), es[k]) && KeptFrom(es, k + 1, Parts)
    ensures KeptFrom(es, i, Deauthenticates)
  {
    hide StateAt, Deauthenticates;
    PrefixStates(es, k);
    forall j | i <= j < |es|
      ensures !Deauthenticates(StateAt(es, j), es[j])
    {
      if j < k {
        assert !Deauthenticates(StateAt(es[..k], j), es[..k][j]);
      } else if j > k {
        assert !Parts(StateAt(es, j), es[j]);
      }
    }
  }
}
