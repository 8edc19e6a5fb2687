/** Runs in which every attempt fails: a BSS is picked, its BSSID is blacklisted,
    and the next pick follows (wpa_supplicant/events.c and blacklist.c). */
module SelectionRuns {
  import opened BssTable
  import opened InfoElements
  import opened Matching
  import opened Networks
  import opened PriorityGroups
  import opened Selection
  import opened Wrappers

  /** tries are the BSSIDs picked since the blacklist was last cleared, rounds
      the sequences of picks between earlier clears. */
  datatype Log = Log(bl: multiset<Mac>, tries: seq<Mac>, rounds: seq<seq<Mac>>)

  /** One pick and, if there is one, the failure that follows it. */
  ghost function Attempt(sc: Scene, log: Log): Log {
    var (c, cleared) := Pick(sc, log.bl);
    var l := if cleared then Log(multiset{}, [], log.rounds + [log.tries]) else log;
    if c.None? || c.value.result >= |sc.results| then l
    else
      var b := sc.results[c.value.result].bssid;
      l.(bl := l.bl + multiset{b}, tries := l.tries + [b])
  }

  /** The log after n attempts, from an empty blacklist. */
  ghost function After(sc: Scene, n: nat): Log {
    if n == 0 then Log(multiset{}, [], []) else Attempt(sc, After(sc, n - 1))
  }

  /** Some network can use some result with the BSSID. */
  ghost predicate Matchable(sc: Scene, b: Mac) {
    exists g: nat, p: nat, i: nat :: MatchedAt(sc, b, g, p, i)
  }

  ghost predicate MatchedAt(sc: Scene, b: Mac, g: nat, p: nat, i: nat) {
    UsableAt(sc, multiset{}, GroupsOf(sc.nets), g, p, i) && sc.results[p].bssid == b
  }

  ghost function MatchableSet(sc: Scene): (r: set<Mac>)
    ensures forall b :: b in r <==> Matchable(sc, b)
  {
    MatchableListed(sc);
    set res | res in sc.results && Matchable(sc, res.bssid) :: res.bssid
  }

  lemma MatchableListed(sc: Scene)
    ensures forall b :: Matchable(sc, b) ==> exists res :: res in sc.results && res.bssid == b
  {
    forall b | Matchable(sc, b)
      ensures exists res :: res in sc.results && res.bssid == b
    {
      var g: nat, p: nat, i: nat :| MatchedAt(sc, b, g, p, i);
      assert sc.results[p] in sc.results;
    }
  }

  /** Every matchable BSSID was tried limit + 1 times, and no other. */
  ghost predicate Complete(sc: Scene, tries: seq<Mac>) {
    forall b :: multiset(tries)[b] == if b in MatchableSet(sc) then Limit(sc.nets) + 1 else 0
  }

  /** No BSSID was tried more often than that. */
  ghost predicate WithinLimit(sc: Scene, bl: multiset<Mac>) {
    forall b :: bl[b] <= if b in MatchableSet(sc) then Limit(sc.nets) + 1 else 0
  }

  /** Nothing was tried more often than the limit allows, now or in any finished round. */
  ghost predicate Bounded(sc: Scene, log: Log) {
    && log.bl == multiset(log.tries)
    && WithinLimit(sc, log.bl)
    && (forall r :: r in log.rounds ==> WithinLimit(sc, multiset(r)))
  }

  /** Every finished round has tried everything that can be matched. */
  ghost predicate RoundsComplete(sc: Scene, log: Log) {
    forall r :: r in log.rounds ==> Complete(sc, r)
  }

  /** The blacklist is cleared although it leaves something usable: every group
      yields nothing, in some group because the first usable result has no entry. */
  ghost predicate Premature(sc: Scene, bl: multiset<Mac>) {
    var groups: Groups := GroupsOf(sc.nets);
    && bl != multiset{}
    && (forall g :: 0 <= g < |groups| ==> YieldsNothing(sc, bl, groups, g))
    && !NothingUsable(sc, bl, groups)
  }

  lemma PrematureExact(sc: Scene, bl: multiset<Mac>)
    ensures Premature(sc, bl) <==> Pick(sc, bl).1 && !NothingUsable(sc, bl, GroupsOf(sc.nets))
  {
    hide Pick, GroupsOf, YieldsNothing, NothingUsable;
    PickNone(sc, bl);
  }

  /** With nothing usable, every matchable BSSID is over the limit, and the other
      way round. */
  lemma ExhaustedExact(sc: Scene, bl: multiset<Mac>)
    ensures NothingUsable(sc, bl, GroupsOf(sc.nets)) <==> forall b :: b in MatchableSet(sc) ==> bl[b] > Limit(sc.nets)
  {
    hide Limit, MatchableSet, GroupsOf;
    MatchableExact(sc);
    if NothingUsable(sc, bl, GroupsOf(sc.nets)) {
      forall b | b in MatchableSet(sc)
        ensures bl[b] > Limit(sc.nets)
      {
        var g: nat, p: nat, i: nat :| MatchedAt(sc, b, g, p, i);
        assert !UsableAt(sc, bl, GroupsOf(sc.nets), g, p, i);
      }
    }
    forall g: nat, p: nat, i: nat | UsableAt(sc, bl, GroupsOf(sc.nets), g, p, i)
      ensures sc.results[p].bssid in MatchableSet(sc) && bl[sc.results[p].bssid] <= Limit(sc.nets)
    {
      UsableWithoutBlacklist(sc, bl, GroupsOf(sc.nets), g, p, i);
      assert MatchedAt(sc, sc.results[p].bssid, g, p, i);
    }
  }

  lemma MatchableExact(sc: Scene)
    ensures forall b :: b in MatchableSet(sc) <==> Matchable(sc, b)
  {
  }

  /** A clear finds the round complete exactly if it finds nothing usable. */
  lemma ClearComplete(sc: Scene, tries: seq<Mac>)
    requires WithinLimit(sc, multiset(tries))
    ensures Complete(sc, tries) <==> NothingUsable(sc, multiset(tries), GroupsOf(sc.nets))
  {
    hide Limit, MatchableSet, NothingUsable;
    ExhaustedExact(sc, multiset(tries));
  }

  /** What is picked can be used: it is matchable and not over the limit. */
  lemma PickedUnderLimit(sc: Scene, bl: multiset<Mac>)
    ensures var (c, cleared) := Pick(sc, bl);
            c.Some? ==>
              && c.value.result < |sc.results|
              && var b := sc.results[c.value.result].bssid;
                 b in MatchableSet(sc) && (if cleared then multiset{} else bl)[b] <= Limit(sc.nets)
  {
    hide GroupsOf, Usable, EntryOf, MatchableSet, Limit, FirstNet, FirstResult, SelectFrom, IsFirst;
    var (c, cleared) := Pick(sc, bl);
    if c.Some? {
      var now := if cleared then multiset{} else bl;
      ChosenIsFirst(sc, now, GroupsOf(sc.nets), 0);
      ChosenUsable(sc, now, c.value);
    }
  }

  lemma ChosenUsable(sc: Scene, bl: multiset<Mac>, c: Choice)
    requires c.group < |GroupsOf(sc.nets)| && SelectBss(sc, bl, GroupsOf(sc.nets), c.group) == Some(c)
    ensures c.result < |sc.results|
    ensures sc.results[c.result].bssid in MatchableSet(sc) && bl[sc.results[c.result].bssid] <= Limit(sc.nets)
  {
    hide GroupsOf, Admits, MatchableSet, Limit;
    var groups: Groups := GroupsOf(sc.nets);
    assert UsableAt(sc, bl, groups, c.group, c.result, c.net);
    UsableWithoutBlacklist(sc, bl, groups, c.group, c.result, c.net);
    MatchableExact(sc);
    assert MatchedAt(sc, sc.results[c.result].bssid, c.group, c.result, c.net);
  }

  lemma CountOne(sc: Scene, bl: multiset<Mac>, b: Mac)
    requires WithinLimit(sc, bl) && b in MatchableSet(sc) && bl[b] <= Limit(sc.nets)
    ensures WithinLimit(sc, bl + multiset{b})
  {
    hide Limit, MatchableSet;
  }

  lemma NothingTried(sc: Scene)
    ensures WithinLimit(sc, multiset{})
  {
  }

  /** The log of an attempt before its pick. */
  ghost function Cleared(sc: Scene, log: Log): Log {
    if Pick(sc, log.bl).1 then Log(multiset{}, [], log.rounds + [log.tries]) else log
  }

  /** No attempt, whatever the table holds, picks a BSSID over its limit; and the
      rounds stay complete exactly as long as no clear is premature. */
  lemma AttemptKeepsInv(sc: Scene, log: Log)
    requires Bounded(sc, log)
    ensures Bounded(sc, Attempt(sc, log))
    ensures RoundsComplete(sc, Attempt(sc, log)) <==> RoundsComplete(sc, log) && !Premature(sc, log.bl)
  {
    hide Pick, MatchableSet, Limit, WithinLimit, Complete, Premature;
    var l := Cleared(sc, log);
    NothingTried(sc);
    assert Bounded(sc, l);
    PickedUnderLimit(sc, log.bl);
    var c := Pick(sc, log.bl).0;
    if c.Some? {
      CountOne(sc, l.bl, sc.results[c.value.result].bssid);
    }
    PrematureExact(sc, log.bl);
    ClearComplete(sc, log.tries);
    RoundsOfAttempt(sc, log);
  }

  lemma RoundsOfAttempt(sc: Scene, log: Log)
    ensures Attempt(sc, log).rounds == Cleared(sc, log).rounds
    ensures RoundsComplete(sc, Attempt(sc, log))
       <==> RoundsComplete(sc, log) && (Pick(sc, log.bl).1 ==> Complete(sc, log.tries))
  {
    hide Pick, Complete;
    if Pick(sc, log.bl).1 {
      assert log.tries in log.rounds + [log.tries];
      assert forall r :: r in log.rounds + [log.tries] <==> r in log.rounds || r == log.tries;
    }
  }

  /** Whatever the table holds, no BSSID is picked more than limit + 1 times between
      two clears; and all rounds before the n-th attempt have tried every matchable
      BSSID that often exactly if no clear before it was premature. */
  lemma {:induction false} RunsAreRounds(sc: Scene, n: nat)
    ensures Bounded(sc, After(sc, n))
    ensures RoundsComplete(sc, After(sc, n)) <==> forall k :: 0 <= k < n ==> !Premature(sc, After(sc, k).bl)
  {
    hide Attempt, Premature, Complete, WithinLimit;
    if n == 0 {
      NothingTried(sc);
    } else {
      RunsAreRounds(sc, n - 1);
      AttemptKeepsInv(sc, After(sc, n - 1));
    }
  }

  /** With an entry for every usable result no clear is premature. */
  lemma ListedNeverPremature(sc: Scene, bl: multiset<Mac>)
    requires UsableListed(sc)
    ensures !Premature(sc, bl)
  {
    hide Pick, NothingUsable, GroupsOf, UsableListed, IsFirst, Premature;
    PickExact(sc, bl);
    PrematureExact(sc, bl);
  }

  // ----- how long a round is

  lemma {:induction false} SizeFromCounts(m: multiset<Mac>, s: set<Mac>, k: nat)
    requires forall b :: m[b] <= if b in s then k else 0
    ensures |m| <= k * |s|
    ensures (forall b :: b in s ==> m[b] == k) <==> |m| == k * |s|
  {
    if s == {} {
      assert m == multiset{};
    } else {
      var b :| b in s;
      var rest := m[b := 0];
      SizeFromCounts(rest, s - {b}, k);
      assert |m| == |rest| + m[b];
      assert k * |s| == k * (|s| - 1) + k;
    }
  }

  /** How many attempts a complete round takes. */
  ghost function RoundLength(sc: Scene): nat {
    (Limit(sc.nets) + 1) * |MatchableSet(sc)|
  }

  function Total(rounds: seq<seq<Mac>>): nat {
    if rounds == [] then 0 else Total(rounds[..|rounds| - 1]) + |rounds[|rounds| - 1]|
  }

  /** Some group yields a result when nothing is blacklisted. */
  ghost predicate SomethingYields(sc: Scene) {
    exists g :: 0 <= g < |GroupsOf(sc.nets)| && !YieldsNothing(sc, multiset{}, GroupsOf(sc.nets), g)
  }

  lemma PicksExact(sc: Scene, bl: multiset<Mac>)
    ensures SomethingYields(sc) ==> Pick(sc, bl).0.Some?
    ensures Pick(sc, multiset{}).0.Some? <==> SomethingYields(sc)
    ensures !Pick(sc, multiset{}).1
  {
    hide Pick, GroupsOf, YieldsNothing;
    PickNone(sc, bl);
    PickNone(sc, multiset{});
  }

  /** Every attempt picks something, exactly if some group yields a result when
      nothing is blacklisted; otherwise none does. */
  lemma {:induction false} EveryAttemptPicks(sc: Scene, n: nat)
    ensures var log := After(sc, n);
            Total(log.rounds) + |log.tries| == if SomethingYields(sc) then n else 0
    ensures !SomethingYields(sc) ==> After(sc, n) == Log(multiset{}, [], [])
  {
    hide Pick, SomethingYields, MatchableSet, Limit;
    if n > 0 {
      EveryAttemptPicks(sc, n - 1);
      var log := After(sc, n - 1);
      PicksExact(sc, log.bl);
      PickedUnderLimit(sc, log.bl);
      assert (log.rounds + [log.tries])[..|log.rounds|] == log.rounds;
    }
  }

  /** With an entry for every usable result, something is picked if anything can be matched. */
  lemma ListedYields(sc: Scene)
    requires UsableListed(sc)
    ensures SomethingYields(sc) <==> MatchableSet(sc) != {}
  {
    hide Pick, NothingUsable, GroupsOf, UsableListed, IsFirst, SomethingYields, MatchableSet, Limit;
    PickExact(sc, multiset{});
    PicksExact(sc, multiset{});
    ExhaustedExact(sc, multiset{});
    assert (forall b :: b !in MatchableSet(sc)) <==> MatchableSet(sc) == {};
  }

  lemma RoundSize(sc: Scene, r: seq<Mac>)
    requires WithinLimit(sc, multiset(r))
    ensures |r| <= RoundLength(sc) && (|r| == RoundLength(sc) <==> Complete(sc, r))
  {
    hide MatchableSet, Limit;
    SizeFromCounts(multiset(r), MatchableSet(sc), Limit(sc.nets) + 1);
    assert |multiset(r)| == |r|;
  }

  lemma {:induction false} TotalOfRounds(sc: Scene, rounds: seq<seq<Mac>>)
    requires forall r :: r in rounds ==> WithinLimit(sc, multiset(r))
    ensures Total(rounds) <= |rounds| * RoundLength(sc)
    ensures Total(rounds) == |rounds| * RoundLength(sc) <==> forall r :: r in rounds ==> Complete(sc, r)
  {
    hide WithinLimit, Complete, RoundLength;
    if rounds != [] {
      var init, r := rounds[..|rounds| - 1], rounds[|rounds| - 1];
      RoundSize(sc, r);
      TotalOfRounds(sc, init);
      Distribute(|rounds|, RoundLength(sc));
      assert rounds == init + [r];
    }
  }

  lemma Distribute(n: nat, k: nat)
    requires n > 0
    ensures n * k == (n - 1) * k + k
  {
  }

  /** n attempts split into the finished rounds, none longer than a complete one,
      and a rest of at most that length; and the finished rounds are all of that
      length exactly if no clear was premature. */
  lemma Schedule(sc: Scene, n: nat)
    requires SomethingYields(sc)
    ensures var log := After(sc, n);
            && n <= |log.rounds| * RoundLength(sc) + |log.tries|
            && |log.tries| <= RoundLength(sc)
            && (n == |log.rounds| * RoundLength(sc) + |log.tries|
                <==> forall k :: 0 <= k < n ==> !Premature(sc, After(sc, k).bl))
  {
    hide After, SomethingYields, Complete, Total, RoundLength, WithinLimit, Premature;
    var log := After(sc, n);
    RunsAreRounds(sc, n);
    EveryAttemptPicks(sc, n);
    TotalOfRounds(sc, log.rounds);
    RoundSize(sc, log.tries);
  }

  /** Nobody starves while no clear is premature: after a round's worth of attempts
      every matchable BSSID has been tried limit + 1 times, before or since the
      first clear. */
  lemma EveryoneTried(sc: Scene, n: nat, b: Mac)
    requires SomethingYields(sc) && forall k :: 0 <= k < n ==> !Premature(sc, After(sc, k).bl)
    requires b in MatchableSet(sc) && n >= RoundLength(sc)
    ensures var log := After(sc, n);
            multiset(if log.rounds == [] then log.tries else log.rounds[0])[b] == Limit(sc.nets) + 1
  {
    hide After, SomethingYields, MatchableSet, Limit, RoundLength, Premature, WithinLimit;
    var log := After(sc, n);
    RunsAreRounds(sc, n);
    if log.rounds == [] {
      EveryAttemptPicks(sc, n);
      RoundSize(sc, log.tries);
    } else {
      assert Complete(sc, log.rounds[0]);
    }
  }
}
