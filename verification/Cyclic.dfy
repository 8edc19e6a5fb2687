/** Quotients and remainders, one step at a time. */
module Modular {

  lemma MulMonotone(m: nat, q: nat, p: nat)
    ensures q < p ==> (q + 1) * m <= p * m
  {
  }

  lemma DivisionUnique(m: nat, q: nat, r: nat, p: nat, s: nat)
    requires r < m && s < m && q * m + r == p * m + s
    ensures q == p && r == s
  {
    MulMonotone(m, q, p);
    MulMonotone(m, p, q);
  }

  lemma Division(i: nat, m: nat, q: nat, r: nat)
    requires r < m && i == q * m + r
    ensures i / m == q && i % m == r
  {
    DivisionUnique(m, q, r, i / m, i % m);
  }

  lemma ModStep(i: nat, m: nat)
    requires m > 0
    ensures (i + 1) % m == if i % m + 1 == m then 0 else i % m + 1
  {
    if i % m + 1 == m {
      Division(i + 1, m, i / m + 1, 0);
    } else {
      Division(i + 1, m, i / m, i % m + 1);
    }
  }
}

/** Marked positions of a list, visited cyclically from a cursor.

    Both the SIM triplet store and the scan request builder walk a linked list
    from a remembered position to its end and then from its head back to that
    position. A position is an index; the length of the list stands for NULL. */
module Cyclic {
  import opened Modular

  /** The marked positions in [lo, hi), in increasing order. */
  function Hits(mark: seq<bool>, lo: nat, hi: nat): (r: seq<nat>)
    requires lo <= hi <= |mark|
    decreases hi - lo
  {
    if lo == hi then []
    else if mark[lo] then [lo] + Hits(mark, lo + 1, hi)
    else Hits(mark, lo + 1, hi)
  }

  /** The marked positions in the order of a walk that starts at pos and wraps. */
  function Rotation(mark: seq<bool>, pos: nat): (r: seq<nat>)
    requires pos <= |mark|
  {
    Hits(mark, pos, |mark|) + Hits(mark, 0, pos)
  }

  ghost predicate Ascending(s: seq<nat>) {
    forall i, j :: 0 <= i < j < |s| ==> s[i] < s[j]
  }

  ghost predicate Distinct<T(!new)>(s: seq<T>) {
    forall i, j :: 0 <= i < j < |s| ==> s[i] != s[j]
  }

  /** Hits is ascending and holds exactly the marked positions of the range. */
  lemma {:induction false} HitsExact(mark: seq<bool>, lo: nat, hi: nat)
    requires lo <= hi <= |mark|
    ensures Ascending(Hits(mark, lo, hi))
    ensures forall x: nat :: x in Hits(mark, lo, hi) <==> lo <= x < hi && mark[x]
    decreases hi - lo
  {
    if lo < hi {
      HitsExact(mark, lo + 1, hi);
      var t := Hits(mark, lo + 1, hi);
      assert forall i :: 0 <= i < |t| ==> t[i] in t;
    }
  }

  lemma {:induction false} HitsSplit(mark: seq<bool>, lo: nat, mid: nat, hi: nat)
    requires lo <= mid <= hi <= |mark|
    ensures Hits(mark, lo, hi) == Hits(mark, lo, mid) + Hits(mark, mid, hi)
    decreases mid - lo
  {
    if lo < mid {
      HitsSplit(mark, lo + 1, mid, hi);
    }
  }

  /** Cutting a range just after its j-th hit cuts the hits after position j. */
  lemma {:induction false} HitsAfter(mark: seq<bool>, lo: nat, hi: nat, j: nat)
    requires lo <= hi <= |mark|
    requires j < |Hits(mark, lo, hi)|
    ensures lo <= Hits(mark, lo, hi)[j] < hi
    ensures Hits(mark, lo, Hits(mark, lo, hi)[j] + 1) == Hits(mark, lo, hi)[..j + 1]
    ensures Hits(mark, Hits(mark, lo, hi)[j] + 1, hi) == Hits(mark, lo, hi)[j + 1..]
    decreases hi - lo
  {
    var h := Hits(mark, lo, hi);
    if mark[lo] {
      if j == 0 {
        assert Hits(mark, lo, lo + 1) == [lo] + Hits(mark, lo + 1, lo + 1);
      } else {
        HitsAfter(mark, lo + 1, hi, j - 1);
        assert h[1..][..j] == h[1..j + 1];
      }
    } else {
      HitsAfter(mark, lo + 1, hi, j);
    }
  }

  /** A rotation visits every marked position exactly once, whatever the start. */
  lemma RotationExact(mark: seq<bool>, pos: nat)
    requires pos <= |mark|
    ensures Distinct(Rotation(mark, pos))
    ensures forall x: nat :: x in Rotation(mark, pos) <==> x < |mark| && mark[x]
    ensures |Rotation(mark, pos)| == |Hits(mark, 0, |mark|)|
  {
    HitsExact(mark, pos, |mark|);
    HitsExact(mark, 0, pos);
    HitsSplit(mark, 0, pos, |mark|);
    var a, b := Hits(mark, pos, |mark|), Hits(mark, 0, pos);
    forall i, j | 0 <= i < j < |a + b|
      ensures (a + b)[i] != (a + b)[j]
    {
      if i < |a| <= j {
        assert a[i] in a && b[j - |a|] in b;
      }
    }
  }

  /** Restarting just after the j-th position visited rotates the order by j+1. */
  lemma RotationShift(mark: seq<bool>, pos: nat, j: nat)
    requires pos <= |mark|
    requires j < |Rotation(mark, pos)|
    ensures Rotation(mark, pos)[j] < |mark|
    ensures Rotation(mark, Rotation(mark, pos)[j] + 1)
         == Rotation(mark, pos)[j + 1..] + Rotation(mark, pos)[..j + 1]
  {
    var n := |mark|;
    var a, b := Hits(mark, pos, n), Hits(mark, 0, pos);
    if j < |a| {
      HitsAfter(mark, pos, n, j);
      HitsSplit(mark, 0, pos, a[j] + 1);
      assert (a + b)[j + 1..] + (a + b)[..j + 1] == a[j + 1..] + (b + a[..j + 1]);
    } else {
      HitsAfter(mark, 0, pos, j - |a|);
      HitsSplit(mark, b[j - |a|] + 1, pos, n);
      assert (a + b)[j + 1..] + (a + b)[..j + 1] == (b[j - |a| + 1..] + a) + b[..j - |a| + 1];
    }
  }

  /** Reading a list periodically from its second element on is reading its rotation periodically. */
  lemma RotateIndex<T>(s: seq<T>, i: nat)
    requires s != []
    ensures (s[1..] + [s[0]])[i % |s|] == s[(i + 1) % |s|]
  {
    ModStep(i, |s|);
  }
}
