/** What follows a failure in the client MLME (wpa_supplicant/mlme.c): which timer
    is set, what it sends, and when the program gives up. */
module MlmeRetry {
  import opened MlmeAuth
  import opened MlmeAssociation
  import opened Wrappers

  // ----- no attempt is forgotten

  /** Nothing in the run finds the privacy of the BSS unsuitable. */
  ghost predicate NoMismatch(es: seq<Event>) {
    forall e :: e in es ==> !Mismatches(e)
  }

  predicate Mismatches(e: Event) {
    match e
    case ENewAuth(_, _, env) => env.mismatch
    case ETimer(env, _) => env.mismatch
    case EAuth(_, _, _, env) => env.mismatch
    case EFtAction(_, env) => env.mismatch
    case _ => false
  }

  /** Without a timer the program neither authenticates nor associates any more,
      because more than three attempts have been made; while it is associated, its
      timer is set. */
  ghost predicate Attended(s: State) {
    s.timer.None? ==>
      && (s.phase == Authenticate ==> s.authTries > 3)
      && (s.phase == Associate ==> s.assocTries > 3)
      && s.phase != Associated
  }

  lemma AuthAttended(s: State, env: Env)
    requires Attended(s) || s.phase == Authenticate
    ensures Attended(TryAuth(s, env))
  {
  }

  lemma AssocAttended(s: State, env: Env)
    requires !env.mismatch && (Attended(s) || s.phase == Associate)
    ensures Attended(TryAssoc(s, env))
  {
  }

  lemma TimerAttended(s: State, env: Env, joins: bool)
    requires !env.mismatch
    ensures Attended(StaTimer(s, env, joins))
  {
    hide TryAuth, TryAssoc;
    var t := s.(timer := None);
    if s.phase == Authenticate {
      AuthAttended(t, env);
    } else if s.phase == Associate {
      AssocAttended(t, env);
    }
  }

  lemma StepAttended(s: State, e: Event)
    requires Attended(s) && !Mismatches(e)
    ensures Attended(Step(s, e))
  {
    hide TryAuth, TryAssoc, RxAuth, StaTimer;
    match e
    case ENewAuth(infra, algs, env) => NewAttended(s, infra, algs, env);
    case ETimer(env, joins) => if s.timer.Some? { TimerAttended(s, env, joins); }
    case EAuth(adhoc, frame, algs, env) => RxAttended(s, adhoc, frame, algs, env);
    case EFtAction(valid, env) => AssocAttended(s.(alg := Ft), env);
    case _ =>
  }

  lemma NewAttended(s: State, infra: bool, algs: set<Alg>, env: Env)
    requires Attended(s)
    ensures Attended(NewAuth(s, infra, algs, env))
  {
  }

  lemma RxAttended(s: State, adhoc: bool, f: AuthFrame, algs: set<Alg>, env: Env)
    requires Attended(s) && !env.mismatch
    ensures Attended(RxAuth(s, adhoc, f, algs, env))
  {
    hide TryAssoc, NextAlg;
    AssocAttended(s.(authenticated := true), env);
  }

  /** In every run in which privacy suits: when no timer is set any more, all
      attempts of the phase have been made, and the program is not associated. */
  lemma {:induction false} NeverForgotten(es: seq<Event>)
    requires NoMismatch(es)
    ensures Attended(Run(INITIAL, es))
    decreases |es|
  {
    hide Step, Attended;
    if es == [] {
      NothingToAttend();
    } else {
      NeverForgotten(es[..|es| - 1]);
      StepAttended(Run(INITIAL, es[..|es| - 1]), es[|es| - 1]);
    }
  }

  lemma NothingToAttend()
    ensures Attended(INITIAL)
  {
  }

  // ----- after being thrown out

  /** After a deauthentication the timer runs for a second; when it expires, another
      transaction-1 frame goes out if fewer than three attempts have been made, and
      otherwise the program gives up. */
  lemma DeauthenticatedRetries(s: State, env: Env, joins: bool)
    requires s.phase in {Authenticate, Associate, Associated}
    ensures var d := Step(s, EDeauth(true));
            var t := Step(d, ETimer(env, joins));
            && d.timer == Some(1000) && d.sent == s.sent && !d.associated && !d.authenticated
            && t.phase == Authenticate && t.authTries == s.authTries + 1
            && (if s.authTries < 3 then t.timer == Some(200) && t.sent == s.sent.(t1 := s.sent.t1 + 1)
                else t.timer == None && t.sent == s.sent)
  {
  }

  /** After a disassociation the timer runs for a second; when it expires, another
      association request goes out if fewer than three attempts have been made, the
      rates are known and privacy suits. */
  lemma DisassociatedRetries(s: State, env: Env, joins: bool)
    requires s.phase == Associated && !env.mismatch
    ensures var d := Step(s, EDisassoc(true));
            var t := Step(d, ETimer(env, joins));
            && d.timer == Some(1000) && d.sent == s.sent && !d.associated && d.authenticated == s.authenticated
            && t.phase == Associate && t.assocTries == s.assocTries + 1
            && (if s.assocTries < 3
                then && t.timer == Some(200)
                     && t.sent == s.sent.(assoc := s.sent.assoc + if env.rates then 1 else 0)
                else t.timer == None && t.sent == s.sent)
  {
  }

  lemma RequestTimer(s: State, env: Env, joins: bool)
    requires s.phase == Associate && s.timer.Some? && !env.mismatch && env.rates
    ensures var t := Step(s, ETimer(env, joins));
            && t.phase == Associate && t.assocTries == s.assocTries + 1
            && (s.assocTries < 3 ==>
                  t.timer == Some(200) && t.sent == s.sent.(assoc := s.sent.assoc + 1))
            && (s.assocTries >= 3 ==> t.timer == None && t.sent == s.sent)
  {
  }

  /** A BSS that authenticates the program and then does not answer gets exactly three
      association requests, and then the timer stays off. */
  lemma SilentAfterAuthentication(s: State, e: Event, env: Env, joins: bool)
    requires Authenticates(s, e) && s.assocTries == 0 && !e.env.mismatch && e.env.rates
    requires !env.mismatch && env.rates
    ensures var t := ETimer(env, joins);
            var u := Step(Step(Step(Step(s, e), t), t), t);
            u.timer == None && u.sent == s.sent.(assoc := s.sent.assoc + 3) && !Step(s, e).timer.None?
  {
    var s0 := Step(s, e);
    assert && s0.phase == Associate && s0.assocTries == 1 && s0.timer == Some(200)
           && s0.sent == s.sent.(assoc := s.sent.assoc + 1);
    hide Step;
    RequestTimer(s0, env, joins);
    var s1 := Step(s0, ETimer(env, joins));
    RequestTimer(s1, env, joins);
    var s2 := Step(s1, ETimer(env, joins));
    RequestTimer(s2, env, joins);
  }

  /** While it is associated the program looks after the association every two seconds. */
  lemma AssociatedTimer(s: State, e: Event, env: Env, joins: bool)
    requires Joins(s, e)
    ensures var t := Step(s, e);
            && t.timer == Some(2000) && t.sent == s.sent && t.phase == Associated
            && Step(t, ETimer(env, joins)) == t.(associated := !env.mismatch)
  {
  }

  // ----- after a refused algorithm

  /** The next algorithm to try is another one that is allowed, and not shared keys;
      the same one stays exactly if there is no such other. */
  lemma NextAlgExact(alg: Alg, algs: set<Alg>)
    ensures var r := NextAlg(alg, algs);
            && (r != alg ==> r in algs && r in {Open, Leap})
            && (r == alg <==> forall a :: a in algs && a in {Open, Leap} ==> a == alg)
            && (alg == Shared && {Open, Leap} <= algs ==> r == Leap)
            && (alg == Ft && {Open, Leap} <= algs ==> r == Open)
  {
  }

  /** A refused algorithm is replaced, and the next timer starts over with the other one. */
  lemma RefusalMovesOn(s: State, f: AuthFrame, algs: set<Alg>, env: Env, joins: bool)
    requires s.phase == Authenticate && s.timer.Some? && s.authTries < 3 && !env.ftDomain
    requires f.longEnough && f.fromBss && f.alg == s.alg && f.transaction == s.transaction
    requires f.status == NotSupportedAuthAlg
    ensures var r := Step(s, EAuth(false, f, algs, env));
            var t := Step(r, ETimer(env, joins));
            && r.alg == NextAlg(s.alg, algs) && r.sent == s.sent && r.timer == s.timer
            && r.authenticated == s.authenticated
            && t.alg == r.alg && t.transaction == 2 && t.sent == s.sent.(t1 := s.sent.t1 + 1)
  {
    hide NextAlg;
  }

  // ----- what is tried first

  /** Authentication starts with the fast transition if the network is in the mobility
      domain, and otherwise with open, shared or LEAP authentication, the first of
      them that is allowed; open authentication if none is. */
  lemma FirstAlg(s: State, algs: set<Alg>, env: Env)
    ensures var t := Step(s, ENewAuth(true, algs, env));
            && (env.ftDomain ==> t.alg == Ft)
            && (!env.ftDomain && Open in algs ==> t.alg == Open)
            && (!env.ftDomain && Open !in algs && Shared in algs ==> t.alg == Shared)
            && (!env.ftDomain && Open !in algs && Shared !in algs && Leap in algs ==> t.alg == Leap)
            && (!env.ftDomain && Open !in algs && Shared !in algs && Leap !in algs ==> t.alg == Open)
            && t.sent == Sent(1, 0, 0, 0) && t.timer == Some(200) && t.transaction == 2
  {
  }

  /** A transition that the BSS agrees to is followed by an association request at once. */
  lemma TransitionRequests(s: State, env: Env)
    requires s.assocTries < 3 && !env.mismatch && env.rates
    ensures var t := Step(s, EFtAction(true, env));
            && t.alg == Ft && t.phase == Associate && t.timer == Some(200)
            && t.sent == s.sent.(assoc := s.sent.assoc + 1)
  {
  }

  // ----- ad-hoc networks

  /** A search that joins an ad-hoc network looks after it every 30 seconds from then
      on, without a counted frame; one that does not join is not repeated by itself. */
  lemma AdhocTimers(s: State, env: Env, joins: bool)
    requires s.phase == IbssSearch && s.timer.Some? && !s.associated
    ensures var t := Step(s, ETimer(env, joins));
            if joins
            then && t == s.(phase := IbssJoined, timer := Some(30000))
                 && Step(t, ETimer(env, joins)) == t
            else t == s.(timer := None)
  {
  }
}
