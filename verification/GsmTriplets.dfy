/** The GSM triplet store of the HLR/AuC gateway (hostapd/hlr_auc_gw.c).

    gsm_db is a linked list fixed after start-up and gsm_db_pos a cursor into
    it; a triplet is named by its index, so that two equal triplets stay
    different list elements, and the index |db| stands for NULL. */
module GsmTriplets {
  import opened Cyclic
  import opened Modular
  import opened Wrappers

  datatype Triplet = Triplet(imsi: string, kc: seq<nat>, sres: seq<nat>, rand: seq<nat>)

  const EAP_SIM_MAX_CHAL := 3

  function Stored(db: seq<Triplet>, imsi: string): (mark: seq<bool>)
    ensures |mark| == |db|
    ensures forall i :: 0 <= i < |db| ==> mark[i] == (db[i].imsi == imsi)
  {
    seq(|db|, i requires 0 <= i < |db| => db[i].imsi == imsi)
  }

  /** The stored triplets of imsi in the order a walk from the cursor meets them. */
  function Cycle(db: seq<Triplet>, pos: nat, imsi: string): seq<nat>
    requires pos <= |db|
  {
    Rotation(Stored(db, imsi), pos)
  }

  /** What one lookup returns. */
  function Next(db: seq<Triplet>, pos: nat, imsi: string): Option<nat>
    requires pos <= |db|
  {
    var c := Cycle(db, pos, imsi);
    if c == [] then None else Some(c[0])
  }

  /** Where one lookup leaves the cursor. */
  function NextPos(db: seq<Triplet>, pos: nat, imsi: string): (r: nat)
    requires pos <= |db|
    ensures r <= |db|
  {
    var c := Cycle(db, pos, imsi);
    if c == [] then pos
    else
      RotationExact(Stored(db, imsi), pos);
      assert c[0] in c;
      c[0] + 1
  }

  /** The triplets returned by n consecutive lookups; lookups that find nothing add nothing. */
  function Calls(db: seq<Triplet>, pos: nat, imsi: string, n: nat): seq<nat>
    requires pos <= |db|
    decreases n
  {
    if n == 0 || Next(db, pos, imsi).None? then []
    else [Next(db, pos, imsi).value] + Calls(db, NextPos(db, pos, imsi), imsi, n - 1)
  }

  function MaxChal(requested: Option<int>): int {
    if requested.None? || requested.value < 1 || requested.value < EAP_SIM_MAX_CHAL
    then EAP_SIM_MAX_CHAL else requested.value
  }

  class Gateway {
    const db: seq<Triplet>
    var pos: nat

    ghost predicate Valid() reads this { pos <= |db| }

    constructor (triplets: seq<Triplet>)
      ensures Valid() && db == triplets && pos == |db|
    {
      db := triplets;
      pos := |triplets|;
    }

    method GetGsmTriplet(imsi: string) returns (g: Option<nat>)
      requires Valid()
      modifies this
      ensures Valid()
      ensures g == Next(db, old(pos), imsi)
      ensures pos == NextPos(db, old(pos), imsi)
    {
      ghost var mark := Stored(db, imsi);
      RotationExact(mark, pos);
      var i := pos;
      while i < |db|
        invariant pos <= i <= |db|
        invariant Hits(mark, pos, |db|) == Hits(mark, i, |db|)
      {
        if db[i].imsi == imsi {
          pos := i + 1;
          return Some(i);
        }
        i := i + 1;
      }
      i := 0;
      while i < |db| && i != pos
        invariant i <= pos
        invariant Hits(mark, 0, pos) == Hits(mark, i, pos)
      {
        if db[i].imsi == imsi {
          pos := i + 1;
          return Some(i);
        }
        i := i + 1;
      }
      return None;
    }

    /** The triplet part of a SIM-REQ-AUTH reply; an empty reply is the FAILURE one. */
    method SimReqAuth(imsi: string, requested: Option<int>) returns (reply: seq<nat>)
      requires Valid()
      modifies this
      ensures Valid()
      ensures reply == Calls(db, old(pos), imsi, MaxChal(requested))
      ensures (exists t :: t in db && t.imsi == imsi) ==>
                |reply| == if requested.Some? && requested.value > 3 then requested.value else 3
      ensures (forall t :: t in db ==> t.imsi != imsi) ==> reply == []
      ensures forall i :: i in reply ==> i < |db| && db[i].imsi == imsi
    {
      CallsSize(db, pos, imsi, MaxChal(requested));
      hide Calls;
      reply := Collect(imsi, MaxChal(requested));
    }

    /** Looks up triplets until there are enough or none is found. */
    method Collect(imsi: string, maxChal: nat) returns (reply: seq<nat>)
      requires Valid()
      modifies this
      ensures Valid() && reply == Calls(db, old(pos), imsi, maxChal)
    {
      hide Calls, Next, NextPos;
      reply := [];
      var count := 0;
      while count < maxChal
        invariant Valid() && 0 <= count <= maxChal
        invariant reply + Calls(db, pos, imsi, maxChal - count) == Calls(db, old(pos), imsi, maxChal)
      {
        ghost var here, rest := pos, maxChal - count;
        CallsStep(db, here, imsi, rest);
        var g := GetGsmTriplet(imsi);
        if g.None? {
          return;
        }
        reply := reply + [g.value];
        count := count + 1;
      }
      CallsStep(db, pos, imsi, 0);
    }
  }

  lemma CallsStep(db: seq<Triplet>, pos: nat, imsi: string, n: nat)
    requires pos <= |db|
    ensures Calls(db, pos, imsi, n)
         == if n == 0 || Next(db, pos, imsi).None? then []
            else [Next(db, pos, imsi).value] + Calls(db, NextPos(db, pos, imsi), imsi, n - 1)
  {
  }

  /** A lookup succeeds exactly when a triplet of that IMSI is stored, and returns one of them. */
  lemma NextFindsStored(db: seq<Triplet>, pos: nat, imsi: string)
    requires pos <= |db|
    ensures Next(db, pos, imsi).Some? <==> exists t :: t in db && t.imsi == imsi
    ensures Next(db, pos, imsi).Some? ==>
              Next(db, pos, imsi).value < |db| && db[Next(db, pos, imsi).value].imsi == imsi
  {
    var mark := Stored(db, imsi);
    RotationExact(mark, pos);
    if i :| 0 <= i < |db| && db[i].imsi == imsi {
      assert i in Cycle(db, pos, imsi);
    }
    if Cycle(db, pos, imsi) != [] {
      assert Cycle(db, pos, imsi)[0] in Cycle(db, pos, imsi);
    }
  }

  /** Consecutive lookups run round the cycle for ever: the i-th returns element i modulo its length. */
  lemma {:induction false} CallsFollowCycle(db: seq<Triplet>, pos: nat, imsi: string, n: nat, i: nat)
    requires pos <= |db|
    requires Cycle(db, pos, imsi) != []
    requires i < n
    ensures |Calls(db, pos, imsi, n)| == n
    ensures Calls(db, pos, imsi, n)[i] == Cycle(db, pos, imsi)[i % |Cycle(db, pos, imsi)|]
    decreases n
  {
    hide Cycle, Next, NextPos;
    var c := Cycle(db, pos, imsi);
    var next := NextPos(db, pos, imsi);
    CycleStep(db, pos, imsi);
    assert c[1..] + [c[0]] != [];
    if n == 1 {
      assert Calls(db, next, imsi, 0) == [];
      Division(0, |c|, 0, 0);
    } else if i == 0 {
      CallsFollowCycle(db, next, imsi, n - 1, 0);
      Division(0, |c|, 0, 0);
    } else {
      CallsFollowCycle(db, next, imsi, n - 1, i - 1);
      RotateIndex(c, i - 1);
    }
  }

  /** One lookup returns the front of the cycle and turns it by one. */
  lemma CycleStep(db: seq<Triplet>, pos: nat, imsi: string)
    requires pos <= |db| && Cycle(db, pos, imsi) != []
    ensures var c := Cycle(db, pos, imsi);
            && Next(db, pos, imsi) == Some(c[0])
            && Cycle(db, NextPos(db, pos, imsi), imsi) == c[1..] + [c[0]]
  {
    RotationShift(Stored(db, imsi), pos, 0);
  }

  /** As many triplets as asked for, all of this IMSI, or none when none is stored. */
  lemma CallsSize(db: seq<Triplet>, pos: nat, imsi: string, n: nat)
    requires pos <= |db|
    ensures (exists t :: t in db && t.imsi == imsi) ==> |Calls(db, pos, imsi, n)| == n
    ensures (forall t :: t in db ==> t.imsi != imsi) ==> Calls(db, pos, imsi, n) == []
    ensures forall i :: i in Calls(db, pos, imsi, n) ==> i < |db| && db[i].imsi == imsi
  {
    hide Cycle;
    NextFindsStored(db, pos, imsi);
    NextInCycle(db, pos, imsi);
    OneRoundReturnsEachOnce(db, pos, imsi);
    if Cycle(db, pos, imsi) != [] && n > 0 {
      CallsFollowCycle(db, pos, imsi, n, 0);
      forall i | 0 <= i < n
        ensures Calls(db, pos, imsi, n)[i] in Cycle(db, pos, imsi)
      {
        CallsFollowCycle(db, pos, imsi, n, i);
      }
    }
  }

  lemma NextInCycle(db: seq<Triplet>, pos: nat, imsi: string)
    requires pos <= |db|
    ensures Next(db, pos, imsi).None? <==> Cycle(db, pos, imsi) == []
  {
  }

  /** The first round of lookups is a prefix of the cycle. */
  lemma CallsPrefix(db: seq<Triplet>, pos: nat, imsi: string, n: nat)
    requires pos <= |db|
    requires n <= |Cycle(db, pos, imsi)|
    ensures Calls(db, pos, imsi, n) == Cycle(db, pos, imsi)[..n]
  {
    var c := Cycle(db, pos, imsi);
    if n > 0 {
      CallsFollowCycle(db, pos, imsi, n, 0);
      forall i | 0 <= i < n
        ensures Calls(db, pos, imsi, n)[i] == c[i]
      {
        CallsFollowCycle(db, pos, imsi, n, i);
        Division(i, |c|, 0, i);
      }
    }
  }

  /** As many lookups as there are stored triplets return each exactly once, in cyclic list order. */
  lemma OneRoundReturnsEachOnce(db: seq<Triplet>, pos: nat, imsi: string)
    requires pos <= |db|
    ensures Calls(db, pos, imsi, |Cycle(db, pos, imsi)|) == Cycle(db, pos, imsi)
    ensures Distinct(Cycle(db, pos, imsi))
    ensures forall i: nat :: i in Cycle(db, pos, imsi) <==> i < |db| && db[i].imsi == imsi
  {
    RotationExact(Stored(db, imsi), pos);
    CallsPrefix(db, pos, imsi, |Cycle(db, pos, imsi)|);
  }

  /** A reply repeats no triplet exactly when enough are stored, or none is. */
  lemma ReplyDistinctIffEnoughStored(db: seq<Triplet>, pos: nat, imsi: string, n: nat)
    requires pos <= |db|
    ensures Distinct(Calls(db, pos, imsi, n))
       <==> |Cycle(db, pos, imsi)| >= n || |Cycle(db, pos, imsi)| == 0
  {
    var m := |Cycle(db, pos, imsi)|;
    RotationExact(Stored(db, imsi), pos);
    if m == 0 {
      assert Calls(db, pos, imsi, n) == [];
    } else if m >= n {
      CallsPrefix(db, pos, imsi, n);
    } else {
      CallsFollowCycle(db, pos, imsi, n, 0);
      CallsFollowCycle(db, pos, imsi, n, m);
      Division(m, m, 1, 0);
      Division(0, m, 0, 0);
    }
  }
}
