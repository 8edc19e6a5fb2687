/** Authentication and association of the client MLME (wpa_supplicant/mlme.c):
    what timers, received frames and requests do, and how often it sends. */
module MlmeAuth {
  import opened Wrappers

  const AUTH_TIMEOUT := 200
  const AUTH_MAX_TRIES := 3
  const ASSOC_TIMEOUT := 200
  const ASSOC_MAX_TRIES := 3
  const MONITORING_INTERVAL := 2000
  const RETRY_AUTH_INTERVAL := 1000
  const IBSS_MERGE_INTERVAL := 30000

  datatype Phase = Disabled | Authenticate | Associate | Associated | IbssSearch | IbssJoined

  datatype Alg = Open | Shared | Leap | Ft

  datatype Status = Success | NotSupportedAuthAlg | OtherFailure

  /** Frames sent since the retry counters were last reset: Authentication frames
      by transaction number, and (Re)Association Requests. */
  datatype Sent = Sent(t1: nat, t2: nat, t3: nat, assoc: nat)

  /** timer is the time for which the state timer is set, None when it is not.
      transaction is the number expected of the next Authentication frame. */
  datatype State = State(phase: Phase, authTries: nat, assocTries: nat, transaction: int, alg: Alg,
                         authenticated: bool, associated: bool, timer: Option<nat>, sent: Sent)

  /** What the driver, the BSS table and the settings contribute to a step: a
      privacy mismatch, known rates, and a mobility domain to authenticate in. */
  datatype Env = Env(mismatch: bool, rates: bool, ftDomain: bool)

  /** An Authentication frame: what its header checks come to, and its fields. */
  datatype AuthFrame = AuthFrame(longEnough: bool, fromBss: bool, inBss: bool, alg: Alg, transaction: nat,
                                 status: Status, challenge: bool)

  /** An Association Response: whether its checks, in order, succeed. */
  datatype AssocFrame = AssocFrame(longEnough: bool, fromBss: bool, parsed: bool, success: bool,
                                   rates: bool, reassoc: bool, ftOk: bool)

  // ----- the steps

  function SendAuth(s: State, transaction: nat): State {
    s.(transaction := transaction + 1,
       sent := if transaction == 1 then s.sent.(t1 := s.sent.t1 + 1)
               else if transaction == 2 then s.sent.(t2 := s.sent.t2 + 1)
               else s.sent.(t3 := s.sent.t3 + 1))
  }

  function TryAuth(s: State, env: Env): State {
    var t := s.(authTries := s.authTries + 1);
    if t.authTries > AUTH_MAX_TRIES then t
    else
      var u := t.(phase := Authenticate, alg := if env.ftDomain then Ft else t.alg);
      SendAuth(u, 1).(timer := Some(AUTH_TIMEOUT))
  }

  function TryAssoc(s: State, env: Env): State {
    var t := s.(assocTries := s.assocTries + 1);
    if t.assocTries > ASSOC_MAX_TRIES then t
    else
      var u := t.(phase := Associate);
      if env.mismatch then u
      else u.(sent := if env.rates then u.sent.(assoc := u.sent.assoc + 1) else u.sent,
              timer := Some(ASSOC_TIMEOUT))
  }

  /** The counters are reset and a first attempt is made. */
  function NewAuth(s: State, infra: bool, algs: set<Alg>, env: Env): State {
    if !infra then s
    else
      var alg := if Open in algs then Open else if Shared in algs then Shared
                 else if Leap in algs then Leap else Open;
      TryAuth(s.(alg := alg, transaction := -1, authTries := 0, assocTries := 0, sent := Sent(0, 0, 0, 0)), env)
  }

  /** The algorithm to try after one was refused. Shared key is never next, since
      WEP keys are never found configured. */
  function NextAlg(alg: Alg, algs: set<Alg>): Alg {
    if alg == Open then (if Leap in algs then Leap else Open)
    else if alg == Shared then (if Leap in algs then Leap else if Open in algs then Open else Shared)
    else if Open in algs then Open
    else if Leap in algs then Leap
    else alg
  }

  function RxAuth(s: State, adhoc: bool, f: AuthFrame, algs: set<Alg>, env: Env): State {
    if (s.phase != Authenticate && !adhoc) || !f.longEnough || (!adhoc && !f.fromBss) || (adhoc && !f.inBss) then s
    else if adhoc && (f.alg != Open || f.transaction != 1) then s
    else
      var t := if adhoc then SendAuth(s, 2) else s;
      if f.alg != t.alg || f.transaction != t.transaction then t
      else if f.status != Success then (if f.status == NotSupportedAuthAlg then t.(alg := NextAlg(t.alg, algs)) else t)
      else if t.alg == Shared && t.transaction != 4 then (if f.challenge then SendAuth(t, 3) else t)
      else TryAssoc(t.(authenticated := true), env)
  }

  function RxAssocResp(s: State, f: AssocFrame): State {
    if s.phase != Associate || !f.longEnough || !f.fromBss || !f.parsed || !f.success || !f.rates then s
    else if (s.alg == Ft && !f.reassoc) || !f.ftOk then s
    else s.(associated := true, phase := Associated, timer := Some(MONITORING_INTERVAL))
  }

  function RxDeauth(s: State, valid: bool): State {
    if !valid then s
    else
      var t := if s.phase in {Authenticate, Associate, Associated}
               then s.(phase := Authenticate, timer := Some(RETRY_AUTH_INTERVAL)) else s;
      t.(associated := false, authenticated := false)
  }

  function RxDisassoc(s: State, valid: bool): State {
    if !valid then s
    else
      var t := if s.phase == Associated then s.(phase := Associate, timer := Some(RETRY_AUTH_INTERVAL)) else s;
      t.(associated := false)
  }

  function RxFtAction(s: State, valid: bool, env: Env): State {
    if valid then TryAssoc(s.(alg := Ft), env) else s
  }

  /** An ad-hoc network that suits is joined, or none is. */
  function FindIbss(s: State, joins: bool): State {
    if joins then s.(phase := IbssJoined, timer := Some(IBSS_MERGE_INTERVAL)) else s
  }

  /** The state timer expires; joins says whether a search finds an ad-hoc network. */
  function StaTimer(s: State, env: Env, joins: bool): State {
    var t := s.(timer := None);
    var u := match s.phase
      case Authenticate => TryAuth(t, env)
      case Associate => TryAssoc(t, env)
      case Associated => t.(timer := Some(MONITORING_INTERVAL))
      case IbssSearch => FindIbss(t, joins)
      case IbssJoined => t.(timer := Some(IBSS_MERGE_INTERVAL))
      case Disabled => t;
    if env.mismatch then u.(associated := false) else u
  }

  // ----- runs

  /** What can happen. An ad-hoc network is searched for on request, by the timer,
      and at the end of a scan. */
  datatype Event =
    | ENewAuth(infra: bool, algs: set<Alg>, env: Env)
    | ETimer(env: Env, joins: bool)
    | EAuth(adhoc: bool, frame: AuthFrame, algs: set<Alg>, env: Env)
    | EAssocResp(resp: AssocFrame)
    | EDeauth(valid: bool)
    | EDisassoc(valid: bool)
    | EFtAction(valid: bool, env: Env)
    | ESearchIbss(joins: bool)
    | EScanEnds(joins: bool)
    | ELeave

  function Step(s: State, e: Event): State {
    match e
    case ENewAuth(infra, algs, env) => NewAuth(s, infra, algs, env)
    case ETimer(env, joins) => if s.timer.None? then s else StaTimer(s, env, joins)
    case EAuth(adhoc, frame, algs, env) => RxAuth(s, adhoc, frame, algs, env)
    case EAssocResp(resp) => RxAssocResp(s, resp)
    case EDeauth(valid) => RxDeauth(s, valid)
    case EDisassoc(valid) => RxDisassoc(s, valid)
    case EFtAction(valid, env) => RxFtAction(s, valid, env)
    case ESearchIbss(joins) => FindIbss(s.(phase := IbssSearch), joins)
    case EScanEnds(joins) => FindIbss(s, joins)
    case ELeave => s.(associated := false)
  }

  function Run(s: State, es: seq<Event>): State {
    if es == [] then s else Step(Run(s, es[..|es| - 1]), es[|es| - 1])
  }

  const INITIAL := State(Disabled, 0, 0, 0, Open, false, false, None, Sent(0, 0, 0, 0))

  function Min(a: nat, b: nat): nat { if a < b then a else b }

  /** Every attempt up to the limit sent one frame; and a challenge is answered
      only between one of the other Authentication frames and the next. */
  ghost predicate Inv(s: State) {
    && s.sent.t1 == Min(s.authTries, AUTH_MAX_TRIES)
    && s.sent.assoc <= Min(s.assocTries, ASSOC_MAX_TRIES)
    && s.sent.t3 <= s.sent.t1 + s.sent.t2
    && (s.transaction <= 0 || 2 <= s.transaction <= 4)
    && (2 <= s.transaction <= 3 ==> s.sent.t3 < s.sent.t1 + s.sent.t2)
    && (s.transaction == 0 ==> s.alg != Shared)
  }

  lemma TryAuthKeepsInv(s: State, env: Env)
    requires Inv(s)
    ensures Inv(TryAuth(s, env))
  {
  }

  lemma TryAssocKeepsInv(s: State, env: Env)
    requires Inv(s)
    ensures Inv(TryAssoc(s, env))
  {
  }

  lemma NewAuthKeepsInv(s: State, infra: bool, algs: set<Alg>, env: Env)
    requires Inv(s)
    ensures Inv(NewAuth(s, infra, algs, env))
  {
  }

  lemma RxAuthKeepsInv(s: State, adhoc: bool, f: AuthFrame, algs: set<Alg>, env: Env)
    requires Inv(s)
    ensures Inv(RxAuth(s, adhoc, f, algs, env))
  {
    hide TryAssoc;
    if adhoc {
      assert Inv(SendAuth(s, 2));
    } else {
      TryAssocKeepsInv(s.(authenticated := true), env);
    }
  }

  lemma TimerKeepsInv(s: State, env: Env, joins: bool)
    requires Inv(s)
    ensures Inv(StaTimer(s, env, joins))
  {
    hide TryAuth, TryAssoc, Inv;
    var t := s.(timer := None);
    SameInv(s, t);
    TryAuthKeepsInv(t, env);
    TryAssocKeepsInv(t, env);
    match s.phase
    case Authenticate => SameInv(TryAuth(t, env), StaTimer(s, env, joins));
    case Associate => SameInv(TryAssoc(t, env), StaTimer(s, env, joins));
    case _ => SameInv(s, StaTimer(s, env, joins));
  }

  lemma SameInv(s: State, t: State)
    requires Inv(s)
    requires (t.authTries, t.assocTries, t.transaction, t.alg, t.sent)
          == (s.authTries, s.assocTries, s.transaction, s.alg, s.sent)
    ensures Inv(t)
  {
  }

  lemma StepKeepsInv(s: State, e: Event)
    requires Inv(s)
    ensures Inv(Step(s, e))
  {
    hide TryAuth, TryAssoc, RxAuth, StaTimer, NewAuth;
    match e
    case ENewAuth(infra, algs, env) => NewAuthKeepsInv(s, infra, algs, env);
    case ETimer(env, joins) => TimerKeepsInv(s, env, joins);
    case EAuth(adhoc, frame, algs, env) => RxAuthKeepsInv(s, adhoc, frame, algs, env);
    case EFtAction(valid, env) => TryAssocKeepsInv(s.(alg := Ft), env);
    case _ =>
  }

  /** In every reachable state no more than three transaction-1 frames and three
      association requests have been sent since the counters were reset, and no
      more challenge replies than other Authentication frames. */
  lemma {:induction false} RetryBounds(es: seq<Event>)
    ensures var s := Run(INITIAL, es);
            && Inv(s)
            && s.sent.t1 <= AUTH_MAX_TRIES && s.sent.assoc <= ASSOC_MAX_TRIES
            && s.sent.t3 <= s.sent.t1 + s.sent.t2
    decreases |es|
  {
    if es != [] {
      RetryBounds(es[..|es| - 1]);
      StepKeepsInv(Run(INITIAL, es[..|es| - 1]), es[|es| - 1]);
    }
  }

  // ----- ad-hoc replies

  /** The frame is one that a member of an ad-hoc network answers. */
  predicate Answered(e: Event) {
    e.EAuth? && e.adhoc && e.frame.longEnough && e.frame.inBss && e.frame.alg == Open && e.frame.transaction == 1
  }

  /** How many frames were answered as an ad-hoc network does since the counters were reset. */
  function AdhocReplies(es: seq<Event>): nat {
    if es == [] then 0
    else
      var e := es[|es| - 1];
      if e.ENewAuth? && e.infra then 0
      else AdhocReplies(es[..|es| - 1]) + if Answered(e) then 1 else 0
  }

  lemma OtherKeepsReplies(s: State, e: Event)
    requires !Answered(e) && !(e.ENewAuth? && e.infra)
    ensures Step(s, e).sent.t2 == s.sent.t2
  {
  }

  lemma AnsweredReplies(s: State, e: Event)
    requires Answered(e)
    ensures Step(s, e) == SendAuth(s, 2)
  {
  }

  lemma {:induction false} RepliesExact(es: seq<Event>)
    ensures Run(INITIAL, es).sent.t2 == AdhocReplies(es)
  {
    hide Step, Answered;
    if es != [] {
      var before, e := es[..|es| - 1], es[|es| - 1];
      RepliesExact(before);
      if e.ENewAuth? && e.infra {
        ResetReplies(Run(INITIAL, before), e);
      } else if Answered(e) {
        AnsweredReplies(Run(INITIAL, before), e);
      } else {
        OtherKeepsReplies(Run(INITIAL, before), e);
      }
    }
  }

  lemma ResetReplies(s: State, e: Event)
    requires e.ENewAuth? && e.infra
    ensures Step(s, e).sent.t2 == 0
  {
  }

  /** In every run the answers to challenges exceed three by no more than the
      ad-hoc replies since the counters were reset; all else is bounded by three. */
  lemma ChallengeBound(es: seq<Event>)
    ensures var sent := Run(INITIAL, es).sent;
            && sent.t1 <= AUTH_MAX_TRIES && sent.assoc <= ASSOC_MAX_TRIES
            && sent.t2 == AdhocReplies(es)
            && sent.t3 <= AUTH_MAX_TRIES + AdhocReplies(es)
  {
    RetryBounds(es);
    RepliesExact(es);
  }

  const PLAIN_ENV := Env(false, true, false)

  function Challenge(transaction: nat): Event {
    EAuth(false, AuthFrame(true, true, true, Shared, transaction, Success, true), {Shared}, PLAIN_ENV)
  }

  const IBSS_REQUEST := EAuth(true, AuthFrame(true, true, true, Open, 1, Success, false), {Shared}, PLAIN_ENV)

  /** Three attempts with shared keys, all of them challenged; and then k times an
      ad-hoc request, as comes in when the mode of the network in use has been
      changed, followed by a challenge after the mode has been changed back. */
  function Challenged(k: nat): seq<Event> {
    if k == 0 then
      [ENewAuth(true, {Shared}, PLAIN_ENV), Challenge(2), ETimer(PLAIN_ENV, false), Challenge(2),
       ETimer(PLAIN_ENV, false), Challenge(2)]
    else Challenged(k - 1) + [IBSS_REQUEST] + [Challenge(3)]
  }

  function ChallengedState(k: nat): State {
    State(Authenticate, 3, 0, 4, Shared, false, false, Some(AUTH_TIMEOUT), Sent(3, k, 3 + k, 0))
  }

  lemma RunSnoc(es: seq<Event>, e: Event)
    ensures Run(INITIAL, es + [e]) == Step(Run(INITIAL, es), e)
    ensures AdhocReplies(es + [e])
         == if e.ENewAuth? && e.infra then 0 else AdhocReplies(es) + if Answered(e) then 1 else 0
  {
    assert (es + [e])[..|es|] == es;
  }

  /** An attempt that is challenged: the timer or the start sends the first frame,
      and the challenge is answered. */
  lemma AttemptChallenged(es: seq<Event>, n: nat)
    requires n < AUTH_MAX_TRIES
    requires if n == 0 then es == [] else Run(INITIAL, es) == AttemptedState(n) && AdhocReplies(es) == 0
    ensures var e := if n == 0 then ENewAuth(true, {Shared}, PLAIN_ENV) else ETimer(PLAIN_ENV, false);
            && Run(INITIAL, es + [e] + [Challenge(2)]) == AttemptedState(n + 1)
            && AdhocReplies(es + [e] + [Challenge(2)]) == 0
  {
    assert Run(INITIAL, []) == INITIAL;
    hide Run, AdhocReplies;
    var e := if n == 0 then ENewAuth(true, {Shared}, PLAIN_ENV) else ETimer(PLAIN_ENV, false);
    RunSnoc(es, e);
    RunSnoc(es + [e], Challenge(2));
  }

  function AttemptedState(n: nat): State {
    State(Authenticate, n, 0, 4, Shared, false, false, Some(AUTH_TIMEOUT), Sent(n, 0, n, 0))
  }

  lemma ThreeAttempts()
    ensures Run(INITIAL, Challenged(0)) == ChallengedState(0) && AdhocReplies(Challenged(0)) == 0
  {
    hide Run, AdhocReplies;
    var es := Challenged(0);
    assert es[..2] == [] + [es[0]] + [es[1]];
    assert es[..4] == es[..2] + [es[2]] + [es[3]];
    assert es == es[..4] + [es[4]] + [es[5]];
    AttemptChallenged([], 0);
    AttemptChallenged(es[..2], 1);
    AttemptChallenged(es[..4], 2);
  }

  lemma {:induction false} ChallengedRun(k: nat)
    ensures Run(INITIAL, Challenged(k)) == ChallengedState(k) && AdhocReplies(Challenged(k)) == k
  {
    hide Run, AdhocReplies;
    if k == 0 {
      ThreeAttempts();
    } else {
      ChallengedRun(k - 1);
      RunSnoc(Challenged(k - 1), IBSS_REQUEST);
      RunSnoc(Challenged(k - 1) + [IBSS_REQUEST], Challenge(3));
    }
  }

  /** The bound is met by a run for every number of ad-hoc replies. */
  lemma ChallengeBoundMet(k: nat)
    ensures exists es :: AdhocReplies(es) == k && Run(INITIAL, es).sent.t3 == AUTH_MAX_TRIES + k
  {
    ChallengedRun(k);
  }

  /** Three answers to challenges are the limit in all runs with at most k ad-hoc
      replies exactly when k is zero. */
  lemma ThreeAnswersExact(k: nat)
    ensures (forall es :: AdhocReplies(es) <= k ==> Run(INITIAL, es).sent.t3 <= AUTH_MAX_TRIES) <==> k == 0
  {
    if k == 0 {
      forall es | AdhocReplies(es) <= k
        ensures Run(INITIAL, es).sent.t3 <= AUTH_MAX_TRIES
      {
        ChallengeBound(es);
      }
    } else {
      ChallengedRun(k);
    }
  }

  // ----- a silent access point

  lemma RetryTimer(s: State, env: Env)
    requires s.phase == Authenticate && s.timer.Some?
    ensures var t := Step(s, ETimer(env, false));
            && t.phase == Authenticate && t.authTries == s.authTries + 1
            && (s.authTries < AUTH_MAX_TRIES ==>
                  t.timer == Some(AUTH_TIMEOUT) && t.sent == s.sent.(t1 := s.sent.t1 + 1))
            && (s.authTries >= AUTH_MAX_TRIES ==> t.timer == None && t.sent == s.sent)
  {
  }

  /** An access point that does not answer gets exactly three frames, and then the
      timer stays off. */
  lemma SilentAccessPoint(s: State, algs: set<Alg>, env: Env)
    ensures var e := ETimer(env, false);
            var t := Step(Step(Step(Step(s, ENewAuth(true, algs, env)), e), e), e);
            t.timer == None && t.sent == Sent(AUTH_MAX_TRIES, 0, 0, 0)
  {
    var t0 := Step(s, ENewAuth(true, algs, env));
    assert t0.phase == Authenticate && t0.authTries == 1 && t0.timer.Some? && t0.sent == Sent(1, 0, 0, 0);
    hide Step;
    RetryTimer(t0, env);
    var t1 := Step(t0, ETimer(env, false));
    RetryTimer(t1, env);
    var t2 := Step(t1, ETimer(env, false));
    RetryTimer(t2, env);
  }

  // ----- frames sent by one call

  function Total(sent: Sent): nat {
    sent.t1 + sent.t2 + sent.t3 + sent.assoc
  }

  /** From one count of frames to the next, at most one frame has gone out. */
  ghost predicate AtMostOne(a: Sent, b: Sent) {
    && a.t1 <= b.t1 && a.t2 <= b.t2 && a.t3 <= b.t3 && a.assoc <= b.assoc
    && Total(b) <= Total(a) + 1
  }

  /** An attempt to authenticate sends a frame exactly while fewer than three were
      made; after that it changes nothing but the count of attempts. */
  lemma TryAuthSends(s: State, env: Env)
    ensures var t := TryAuth(s, env);
            && AtMostOne(s.sent, t.sent)
            && (t.sent.t1 == s.sent.t1 + 1 <==> s.authTries < AUTH_MAX_TRIES)
            && (s.authTries >= AUTH_MAX_TRIES ==> t == s.(authTries := s.authTries + 1))
  {
  }

  lemma TryAssocSends(s: State, env: Env)
    ensures var t := TryAssoc(s, env);
            && AtMostOne(s.sent, t.sent)
            && (t.sent.assoc == s.sent.assoc + 1 <==> s.assocTries < ASSOC_MAX_TRIES && !env.mismatch && env.rates)
            && (s.assocTries >= ASSOC_MAX_TRIES ==> t == s.(assocTries := s.assocTries + 1))
  {
  }

  lemma RxAuthSends(s: State, adhoc: bool, f: AuthFrame, algs: set<Alg>, env: Env)
    ensures var t := RxAuth(s, adhoc, f, algs, env);
            && AtMostOne(s.sent, t.sent)
            && t.sent.t1 == s.sent.t1
            && (t.sent.t2 != s.sent.t2 <==> Answered(EAuth(adhoc, f, algs, env)))
            && (t.sent.t3 != s.sent.t3 ==> !adhoc && s.phase == Authenticate && s.alg == Shared && f.challenge)
            && (t.authenticated && !s.authenticated ==>
                  f.status == Success && f.alg == s.alg && f.transaction == s.transaction)
  {
    hide TryAssoc;
    TryAssocSends(s.(authenticated := true), env);
    TryAssocKeepsRest(s.(authenticated := true), env);
  }

  lemma TryAssocKeepsRest(s: State, env: Env)
    ensures var t := TryAssoc(s, env);
            && t.sent == s.sent.(assoc := t.sent.assoc)
            && t.authenticated == s.authenticated && t.authTries == s.authTries && t.alg == s.alg
  {
  }

  lemma TimerSends(s: State, env: Env, joins: bool)
    ensures AtMostOne(s.sent, StaTimer(s, env, joins).sent)
    ensures s.phase == Authenticate && s.authTries >= AUTH_MAX_TRIES ==>
              StaTimer(s, env, joins).sent == s.sent && StaTimer(s, env, joins).timer == None
    ensures s.phase == Associate && s.assocTries >= ASSOC_MAX_TRIES ==>
              StaTimer(s, env, joins).sent == s.sent && StaTimer(s, env, joins).timer == None
  {
    hide TryAuth, TryAssoc;
    TryAuthSends(s.(timer := None), env);
    TryAssocSends(s.(timer := None), env);
  }

  lemma NewAuthSends(s: State, infra: bool, algs: set<Alg>, env: Env)
    ensures var t := NewAuth(s, infra, algs, env);
            if infra
            then t.sent == Sent(1, 0, 0, 0) && t.authTries == 1 && t.assocTries == 0
                 && t.phase == Authenticate && t.transaction == 2 && t.timer == Some(AUTH_TIMEOUT)
            else t == s
  {
  }

  /** Whatever happens, no event makes the program send more than one frame. */
  lemma StepSendsAtMostOne(s: State, e: Event)
    ensures AtMostOne(if e.ENewAuth? && e.infra then Sent(0, 0, 0, 0) else s.sent, Step(s, e).sent)
  {
    hide TryAuth, TryAssoc, RxAuth, NewAuth, StaTimer;
    match e
    case ENewAuth(infra, algs, env) => NewAuthSends(s, infra, algs, env);
    case ETimer(env, joins) => TimerSends(s, env, joins);
    case EAuth(adhoc, frame, algs, env) => RxAuthSends(s, adhoc, frame, algs, env);
    case EFtAction(valid, env) => TryAssocSends(s.(alg := Ft), env);
    case _ =>
  }

  // ----- the program's state

  class Mlme {
    var state: Phase
    var authTries: nat
    var assocTries: nat
    var authTransaction: int
    var authAlg: Alg
    var authenticated: bool
    var associated: bool
    var timer: Option<nat>
    var authAlgs: set<Alg>
    ghost var sent: Sent

    ghost function View(): State
      reads this
    {
      State(state, authTries, assocTries, authTransaction, authAlg, authenticated, associated, timer, sent)
    }

    /** The counters of attempts agree with the frames sent. */
    ghost predicate Valid()
      reads this
    {
      Inv(View())
    }

    constructor ()
      ensures Valid() && View() == INITIAL
    {
      state, authTries, assocTries, authTransaction, authAlg := Disabled, 0, 0, 0, Open;
      authenticated, associated, timer, authAlgs, sent := false, false, None, {}, Sent(0, 0, 0, 0);
    }

    method SendAuthFrame(transaction: nat)
      modifies this`authTransaction, this`sent
      ensures View() == SendAuth(old(View()), transaction)
    {
      authTransaction := transaction + 1;
      if transaction == 1 {
        sent := sent.(t1 := sent.t1 + 1);
      } else if transaction == 2 {
        sent := sent.(t2 := sent.t2 + 1);
      } else {
        sent := sent.(t3 := sent.t3 + 1);
      }
    }

    /** Sends the next Authentication frame unless three attempts have been made. */
    method TryAuthenticate(env: Env)
      requires Valid()
      modifies this
      ensures Valid() && authAlgs == old(authAlgs)
      ensures View() == TryAuth(old(View()), env)
      ensures AtMostOne(old(sent), sent) && sent.t1 <= AUTH_MAX_TRIES
      ensures sent.t1 == old(sent.t1) + 1 <==> old(authTries) < AUTH_MAX_TRIES
    {
      TryAuthKeepsInv(View(), env);
      TryAuthSends(View(), env);
      authTries := authTries + 1;
      if authTries > AUTH_MAX_TRIES {
        return;
      }
      state := Authenticate;
      if env.ftDomain {
        authAlg := Ft;
      }
      SendAuthFrame(1);
      timer := Some(AUTH_TIMEOUT);
    }

    /** Sends the next request to associate unless three attempts have been made. */
    method TryAssociate(env: Env)
      requires Valid()
      modifies this
      ensures Valid() && authAlgs == old(authAlgs)
      ensures View() == TryAssoc(old(View()), env)
      ensures AtMostOne(old(sent), sent) && sent.assoc <= ASSOC_MAX_TRIES
      ensures sent.assoc == old(sent.assoc) + 1 <==> old(assocTries) < ASSOC_MAX_TRIES && !env.mismatch && env.rates
    {
      TryAssocKeepsInv(View(), env);
      TryAssocSends(View(), env);
      assocTries := assocTries + 1;
      if assocTries > ASSOC_MAX_TRIES {
        return;
      }
      state := Associate;
      if env.mismatch {
        return;
      }
      if env.rates {
        sent := sent.(assoc := sent.assoc + 1);
      }
      timer := Some(ASSOC_TIMEOUT);
    }

    /** Starts over: afterwards one frame has been sent and its answer is awaited. */
    method StaNewAuth(infra: bool, env: Env)
      requires Valid()
      modifies this
      ensures Valid() && View() == NewAuth(old(View()), infra, old(authAlgs), env)
      ensures infra ==>
                && sent == Sent(1, 0, 0, 0) && authTries == 1 && assocTries == 0
                && state == Authenticate && authTransaction == 2 && timer == Some(AUTH_TIMEOUT)
    {
      hide TryAuth;
      NewAuthKeepsInv(View(), infra, authAlgs, env);
      NewAuthSends(View(), infra, authAlgs, env);
      if !infra {
        return;
      }
      if Open in authAlgs {
        authAlg := Open;
      } else if Shared in authAlgs {
        authAlg := Shared;
      } else if Leap in authAlgs {
        authAlg := Leap;
      } else {
        authAlg := Open;
      }
      authTransaction := -1;
      authTries, assocTries := 0, 0;
      sent := Sent(0, 0, 0, 0);
      TryAuthenticate(env);
    }

    /** Goes round the three configurable algorithms to the next usable one. */
    method ChooseNextAlg()
      modifies this`authAlg
      ensures authAlg == NextAlg(old(authAlg), authAlgs)
    {
      var algs := [if Open in authAlgs then Some(Open) else None,
                   if Shared in authAlgs then Some(Shared) else None,
                   if Leap in authAlgs then Some(Leap) else None];
      var pos := if authAlg == Open then 0 else if authAlg == Shared then 1 else 2;
      ghost var first := pos;
      var i := 0;
      while i < 3
        invariant 0 <= i <= 3 && authAlg == old(authAlg)
        invariant pos == (if first + i < 3 then first + i else first + i - 3) && 0 <= pos < 3
        invariant first == if authAlg == Open then 0 else if authAlg == Shared then 1 else 2
        invariant i >= 1 ==> !Usable(algs, first, 1, authAlg)
        invariant i >= 2 ==> !Usable(algs, first, 2, authAlg)
        invariant i >= 3 ==> !Usable(algs, first, 3, authAlg)
      {
        pos := pos + 1;
        if pos >= 3 {
          pos := 0;
        }
        i := i + 1;
        if algs[pos].None? || algs[pos].value == authAlg || algs[pos].value == Shared {
          continue;
        }
        authAlg := algs[pos].value;
        break;
      }
    }

    /** An Authentication frame comes in. */
    method RxMgmtAuth(adhoc: bool, f: AuthFrame, env: Env)
      requires Valid()
      modifies this
      ensures Valid() && View() == RxAuth(old(View()), adhoc, f, old(authAlgs), env)
      ensures AtMostOne(old(sent), sent) && sent.t1 == old(sent.t1)
      ensures sent.t3 != old(sent.t3) ==> !adhoc && old(state) == Authenticate && old(authAlg) == Shared && f.challenge
      ensures authenticated && !old(authenticated) ==>
                f.status == Success && f.alg == old(authAlg) && f.transaction == old(authTransaction)
    {
      hide TryAssoc, Inv;
      RxAuthKeepsInv(View(), adhoc, f, authAlgs, env);
      RxAuthSends(View(), adhoc, f, authAlgs, env);
      if state != Authenticate && !adhoc {
        return;
      }
      if !f.longEnough {
        return;
      }
      if !adhoc && !f.fromBss {
        return;
      }
      if adhoc && !f.inBss {
        return;
      }
      if adhoc {
        if f.alg != Open || f.transaction != 1 {
          return;
        }
        SendAuthFrame(2);
      }
      if f.alg != authAlg || f.transaction != authTransaction {
        return;
      }
      if f.status != Success {
        if f.status == NotSupportedAuthAlg {
          ChooseNextAlg();
        }
        return;
      }
      AuthAccepted(f.challenge, env);
    }

    /** What follows an expected frame with success. */
    method AuthAccepted(challenge: bool, env: Env)
      requires Valid()
      modifies this
      ensures var s := old(View());
              View() == if s.alg == Shared && s.transaction != 4
                        then (if challenge then SendAuth(s, 3) else s)
                        else TryAssoc(s.(authenticated := true), env)
    {
      if authAlg == Shared && authTransaction != 4 {
        if challenge {
          SendAuthFrame(3);
        }
      } else {
        authenticated := true;
        TryAssociate(env);
      }
    }

    method RxMgmtAssocResp(f: AssocFrame)
      requires Valid()
      modifies this
      ensures Valid() && View() == RxAssocResp(old(View()), f)
    {
      if state != Associate || !f.longEnough || !f.fromBss {
        return;
      }
      if !f.parsed || !f.success || !f.rates {
        return;
      }
      if authAlg == Ft {
        if !f.reassoc || !f.ftOk {
          return;
        }
      } else if !f.ftOk {
        return;
      }
      associated := true;
      state := Associated;
      timer := Some(MONITORING_INTERVAL);
    }

    method RxMgmtDeauth(longEnough: bool, fromBss: bool)
      requires Valid()
      modifies this
      ensures Valid() && View() == RxDeauth(old(View()), longEnough && fromBss)
    {
      if !longEnough || !fromBss {
        return;
      }
      if state == Authenticate || state == Associate || state == Associated {
        state := Authenticate;
        timer := Some(RETRY_AUTH_INTERVAL);
      }
      associated := false;
      authenticated := false;
    }

    method RxMgmtDisassoc(longEnough: bool, fromBss: bool)
      requires Valid()
      modifies this
      ensures Valid() && View() == RxDisassoc(old(View()), longEnough && fromBss)
    {
      if !longEnough || !fromBss {
        return;
      }
      if state == Associated {
        state := Associate;
        timer := Some(RETRY_AUTH_INTERVAL);
      }
      associated := false;
    }

    method RxMgmtFtAction(longEnough: bool, response: bool, own: bool, success: bool, env: Env)
      requires Valid()
      modifies this
      ensures Valid() && View() == RxFtAction(old(View()), longEnough && response && own && success, env)
    {
      if !longEnough || !response || !own || !success {
        return;
      }
      authAlg := Ft;
      TryAssociate(env);
    }

    method JoinIbss()
      modifies this`state, this`timer
      ensures View() == FindIbss(old(View()), true)
    {
      state := IbssJoined;
      timer := Some(IBSS_MERGE_INTERVAL);
    }

    /** The state timer expires; when all attempts have been made nothing is sent
        and the timer stays off. */
    method TimerExpires(env: Env, joins: bool)
      requires Valid()
      modifies this
      ensures Valid() && View() == StaTimer(old(View()), env, joins)
      ensures AtMostOne(old(sent), sent)
      ensures old(state) == Authenticate && old(authTries) >= AUTH_MAX_TRIES ==> sent == old(sent) && timer == None
      ensures old(state) == Associate && old(assocTries) >= ASSOC_MAX_TRIES ==> sent == old(sent) && timer == None
    {
      hide TryAuth, TryAssoc, Inv, AtMostOne;
      ghost var s := View();
      TimerKeepsInv(s, env, joins);
      TimerSends(s, env, joins);
      timer := None;
      SameInv(s, View());
      match state {
        case Disabled =>
        case Authenticate => TryAuthenticate(env);
        case Associate => TryAssociate(env);
        case Associated => timer := Some(MONITORING_INTERVAL);
        case IbssSearch => if joins { JoinIbss(); }
        case IbssJoined => timer := Some(IBSS_MERGE_INTERVAL);
      }
      if env.mismatch {
        associated := false;
      }
    }
  }

  /** The algorithm k places after the current one can be tried next. */
  ghost predicate Usable(algs: seq<Option<Alg>>, first: nat, k: nat, cur: Alg)
    requires |algs| == 3 && first < 3 && k <= 3
  {
    var a := algs[if first + k < 3 then first + k else first + k - 3];
    a.Some? && a.value != cur && a.value != Shared
  }
}
