/** The frequency list of a scan request: zero-terminated int arrays that are
    concatenated, sorted and deduplicated in place (wpa_supplicant/scan.c). */
module ScanFreqs {

  /** A zero terminates the list held by an array. */
  ghost predicate Terminated(s: seq<int>) {
    0 in s
  }

  /** The list held by a zero-terminated array: everything before its first zero. */
  function Listed(s: seq<int>): (r: seq<int>) {
    if s == [] || s[0] == 0 then [] else [s[0]] + Listed(s[1..])
  }

  /** s starts with the list l and then a zero. */
  ghost predicate StartsWithList(s: seq<int>, l: seq<int>) {
    |l| < |s| && s[..|l|] == l && s[|l|] == 0 && 0 !in l
  }

  lemma {:induction false} ListedUnique(s: seq<int>, l: seq<int>)
    requires StartsWithList(s, l)
    ensures Terminated(s) && Listed(s) == l
  {
    if l != [] {
      assert s[0] == l[0];
      assert s[..|l|][1..] == s[1..][..|l| - 1];
      ListedUnique(s[1..], l[1..]);
    }
  }

  lemma {:induction false} ListedStarts(s: seq<int>)
    requires Terminated(s)
    ensures StartsWithList(s, Listed(s))
  {
    if s[0] != 0 {
      ListedStarts(s[1..]);
      assert s[..|Listed(s)|] == [s[0]] + s[1..][..|Listed(s[1..])|];
    }
  }

  function Elements(s: seq<int>): set<int> {
    set x | x in s
  }

  ghost predicate StrictlyIncreasing(s: seq<int>) {
    forall i, j :: 0 <= i < j < |s| ==> s[i] < s[j]
  }

  ghost predicate Sorted(s: seq<int>) {
    forall i, j :: 0 <= i < j < |s| ==> s[i] <= s[j]
  }

  /** The list held by an array that may be NULL. */
  ghost function Held(a: array?<int>): seq<int>
    reads a
  {
    if a == null then [] else Listed(a[..])
  }

  method IntArrayLen(a: array?<int>) returns (n: nat)
    requires a != null ==> Terminated(a[..])
    ensures n == |Held(a)|
    ensures a != null ==> n < a.Length && Held(a) == a[..n] && a[n] == 0 && 0 !in a[..n]
  {
    n := 0;
    if a != null {
      ListedStarts(a[..]);
      ghost var l := Listed(a[..]);
      assert forall i :: 0 <= i < |l| ==> a[i] == l[i] && l[i] in l;
      while a[n] != 0
        invariant 0 <= n <= |l| < a.Length
        invariant 0 !in a[..n]
        decreases |l| - n
      {
        n := n + 1;
      }
      ListedUnique(a[..], a[..n]);
    }
  }

  /** Appends the list of a to the list of res; the result array is the reallocated res. */
  method IntArrayConcat(res: array?<int>, a: array<int>) returns (n: array<int>)
    requires res != null ==> Terminated(res[..])
    requires Terminated(a[..])
    ensures fresh(n) && Terminated(n[..])
    ensures Held(n) == Held(res) + Held(a)
  {
    hide Listed, Terminated, StartsWithList;
    var resLen := IntArrayLen(res);
    var aLen := IntArrayLen(a);
    var front := if res == null then [] else res[..resLen];
    n := new int[resLen + aLen + 1](k => if 0 <= k < resLen then front[k] else 0);
    var i := 0;
    while i <= aLen
      invariant 0 <= i <= aLen + 1
      invariant forall k :: 0 <= k < resLen ==> n[k] == front[k]
      invariant forall k :: 0 <= k < i ==> n[resLen + k] == a[k]
    {
      n[resLen + i] := a[i];
      i := i + 1;
    }
    assert n[..] == front + (a[..aLen] + [0]);
    ConcatStarts(front, a[..aLen]);
  }

  lemma ConcatStarts(front: seq<int>, back: seq<int>)
    requires 0 !in front && 0 !in back
    ensures Terminated(front + (back + [0])) && Listed(front + (back + [0])) == front + back
  {
    ListedUnique(front + (back + [0]), front + back);
  }

  function Insert(s: seq<int>, x: int): (r: seq<int>)
    ensures |r| == |s| + 1
  {
    if s == [] || s[|s| - 1] <= x then s + [x] else Insert(s[..|s| - 1], x) + [s[|s| - 1]]
  }

  /** Stands for the result of the library sort. */
  function SortInts(s: seq<int>): (r: seq<int>)
    ensures |r| == |s|
  {
    if s == [] then [] else Insert(SortInts(s[..|s| - 1]), s[|s| - 1])
  }

  lemma SortedSnoc(s: seq<int>, x: int)
    requires Sorted(s) && forall y :: y in s ==> y <= x
    ensures Sorted(s + [x])
  {
    assert forall k :: 0 <= k < |s| ==> s[k] in s;
  }

  lemma SortedLast(s: seq<int>)
    requires Sorted(s) && s != []
    ensures Sorted(s[..|s| - 1]) && forall y :: y in s ==> y <= s[|s| - 1]
  {
  }

  lemma {:induction false} InsertExact(s: seq<int>, x: int)
    requires Sorted(s)
    ensures Sorted(Insert(s, x))
    ensures forall y :: y in Insert(s, x) <==> y in s || y == x
  {
    hide Sorted;
    if s == [] {
      SortedSnoc(s, x);
    } else {
      SortedLast(s);
      var init, last := s[..|s| - 1], s[|s| - 1];
      assert s == init + [last];
      if last <= x {
        SortedSnoc(s, x);
      } else {
        InsertExact(init, x);
        assert forall y :: y in init ==> y in s;
        SortedSnoc(Insert(init, x), last);
      }
    }
  }

  /** Sorting leaves the same elements in order. */
  lemma {:induction false} SortExact(s: seq<int>)
    ensures Sorted(SortInts(s))
    ensures forall y :: y in SortInts(s) <==> y in s
  {
    hide Insert;
    if s != [] {
      var init, last := s[..|s| - 1], s[|s| - 1];
      SortExact(init);
      InsertExact(SortInts(init), last);
      assert s == init + [last];
    }
  }

  lemma SameMembers(a: seq<int>, b: seq<int>)
    requires forall y :: y in a <==> y in b
    ensures Elements(a) == Elements(b)
  {
    Included(a, b);
    Included(b, a);
  }

  lemma {:induction false} Included(a: seq<int>, b: seq<int>)
    requires forall y :: y in a ==> y in b
    ensures Elements(a) <= Elements(b)
  {
    if a == [] {
      assert Elements(a) == {};
    } else {
      var init, last := a[..|a| - 1], a[|a| - 1];
      Included(init, b);
      ElementsSnoc(init, last);
      assert a == init + [last] && last in b;
      assert last in Elements(b);
    }
  }

  lemma SortElements(s: seq<int>)
    ensures Sorted(SortInts(s)) && Elements(SortInts(s)) == Elements(s)
  {
    hide Sorted, SortInts;
    SortExact(s);
    SameMembers(SortInts(s), s);
  }

  /** Stands for the library sort called on the first n elements. */
  method QSort(a: array<int>, n: nat)
    requires n <= a.Length
    modifies a
    ensures a[..n] == SortInts(old(a[..n]))
    ensures a[n..] == old(a[n..])
  {
    var s := SortInts(a[..n]);
    var j := 0;
    while j < n
      invariant 0 <= j <= n
      invariant a[..j] == s[..j]
      invariant a[n..] == old(a[n..])
    {
      a[j] := s[j];
      j := j + 1;
    }
  }

  /** Sorts the list of a and drops its duplicates, in place. */
  method IntArraySortUnique(a: array<int>)
    requires Terminated(a[..])
    modifies a
    ensures Terminated(a[..])
    ensures StrictlyIncreasing(Held(a))
    ensures Elements(Held(a)) == Elements(old(Held(a)))
  {
    hide Listed, Elements, Sorted, SortInts, Insert;
    var aLen := IntArrayLen(a);
    ghost var list := a[..aLen];
    SortElements(list);
    QSort(a, aLen);
    ghost var s := a[..aLen];
    assert a[aLen] == a[aLen..][0];
    SameElements(s, list);
    NoZero(s);
    var i := 0;
    ghost var kept := [];
    if a[0] != 0 {
      i, kept := Squeeze(a, aLen, s);
      i := i + 1;
    }
    a[i] := 0;
    assert a[..i] == kept;
    SameElements(kept, s);
    ListedUnique(a[..], kept);
  }

  lemma NoZero(s: seq<int>)
    requires 0 !in s
    ensures forall k :: 0 <= k < |s| ==> s[k] != 0
  {
  }

  /** kept is what deduplicating the first j elements of the sorted list s keeps. */
  ghost predicate KeptOf(kept: seq<int>, s: seq<int>, j: nat) {
    && 0 < j <= |s| && kept != []
    && kept[|kept| - 1] == s[j - 1]
    && StrictlyIncreasing(kept)
    && Elements(kept) == Elements(s[..j])
  }

  lemma KeptStep(kept: seq<int>, s: seq<int>, j: nat)
    requires Sorted(s) && KeptOf(kept, s, j) && j < |s|
    ensures s[j - 1] == kept[|kept| - 1]
    ensures KeptOf(if s[j] == kept[|kept| - 1] then kept else kept + [s[j]], s, j + 1)
  {
    assert s[..j + 1] == s[..j] + [s[j]];
    ElementsSnoc(s[..j], s[j]);
    ElementsSnoc(kept, s[j]);
    assert kept[|kept| - 1] in kept;
  }

  /** The in-place loop that keeps one of each run of equal elements; the last one kept is at index i. */
  method Squeeze(a: array<int>, n: nat, ghost s: seq<int>) returns (i: nat, ghost kept: seq<int>)
    requires 0 < n < a.Length && a[n] == 0 && a[..n] == s && Sorted(s)
    requires forall k :: 0 <= k < n ==> s[k] != 0
    modifies a
    ensures i < n && a[..i + 1] == kept
    ensures StrictlyIncreasing(kept) && Elements(kept) == Elements(s)
  {
    hide *;
    kept := [a[0]];
    KeptStart(s);
    var j := 1;
    i := 0;
    while a[i] != 0 && a[j] != 0
      invariant 0 <= i < j <= n && |kept| == i + 1
      invariant forall k :: 0 <= k <= i ==> a[k] == kept[k]
      invariant forall k :: j <= k < n ==> a[k] == s[k]
      invariant a[n] == 0
      invariant KeptOf(kept, s, j) && s[j - 1] == kept[i]
      decreases n - j
    {
      KeptStep(kept, s, j);
      if a[i] == a[j] {
        j := j + 1;
        continue;
      }
      kept := kept + [a[j]];
      i := i + 1;
      a[i] := a[j];
      j := j + 1;
    }
    KeptAll(kept, s);
  }

  lemma KeptStart(s: seq<int>)
    requires s != []
    ensures KeptOf([s[0]], s, 1)
  {
    assert s[..1] == [s[0]];
  }

  lemma KeptAll(kept: seq<int>, s: seq<int>)
    requires KeptOf(kept, s, |s|)
    ensures StrictlyIncreasing(kept) && Elements(kept) == Elements(s)
  {
    assert s[..|s|] == s;
  }

  lemma ElementsSnoc(s: seq<int>, x: int)
    ensures Elements(s + [x]) == Elements(s) + {x}
  {
    assert (s + [x])[..|s|] == s;
  }

  lemma SameElements(s: seq<int>, t: seq<int>)
    requires Elements(s) == Elements(t)
    ensures forall x :: x in s <==> x in t
  {
    assert forall x :: (x in s <==> x in Elements(s)) && (x in t <==> x in Elements(t));
  }

  /** A configured network as far as the frequency list is concerned; scan_freq may be NULL. */
  datatype FreqNetwork = FreqNetwork(disabled: bool, scanFreq: array?<int>)

  ghost predicate WellFormed(nets: seq<FreqNetwork>)
    reads set n | n in nets && n.scanFreq != null :: n.scanFreq
  {
    forall n :: n in nets && n.scanFreq != null ==> Terminated(n.scanFreq[..])
  }

  ghost predicate SomeEnabled(nets: seq<FreqNetwork>) {
    exists n :: n in nets && !n.disabled
  }

  ghost predicate SomeEnabledUnrestricted(nets: seq<FreqNetwork>) {
    exists n :: n in nets && !n.disabled && n.scanFreq == null
  }

  /** x is on the list of some enabled network. */
  ghost predicate Requested(nets: seq<FreqNetwork>, x: int)
    reads set n | n in nets && n.scanFreq != null :: n.scanFreq
  {
    exists n :: n in nets && !n.disabled && x in Held(n.scanFreq)
  }

  /** Builds params.freqs from the enabled networks. */
  method BuildFreqs(nets: seq<FreqNetwork>) returns (freqs: array?<int>)
    requires WellFormed(nets)
    ensures freqs == null
       <==> || (forall n :: n in nets ==> n.disabled)
            || (exists n :: n in nets && !n.disabled && n.scanFreq == null)
    ensures freqs != null ==> Terminated(freqs[..]) && StrictlyIncreasing(Held(freqs))
    ensures freqs != null ==>
              forall x :: x in Held(freqs) <==> exists n :: n in nets && !n.disabled && x in Held(n.scanFreq)
  {
    freqs := null;
    var freqsSet := false;
    var i := 0;
    while i < |nets|
      invariant 0 <= i <= |nets|
      invariant freqsSet <==> SomeEnabled(nets[..i])
      invariant freqs == null <==> !freqsSet || SomeEnabledUnrestricted(nets[..i])
      invariant freqs != null ==> fresh(freqs) && Terminated(freqs[..])
      invariant freqs != null ==> forall x :: x in Held(freqs) <==> Requested(nets[..i], x)
    {
      var tssid := nets[i];
      assert nets[..i + 1] == nets[..i] + [tssid];
      i := i + 1;
      if tssid.disabled {
        continue;
      }
      if (freqs != null || !freqsSet) && tssid.scanFreq != null {
        freqs := IntArrayConcat(freqs, tssid.scanFreq);
      } else {
        freqs := null;
      }
      freqsSet := true;
    }
    assert nets[..i] == nets;
    if freqs != null {
      ghost var all := Held(freqs);
      IntArraySortUnique(freqs);
      SameElements(Held(freqs), all);
    }
  }
}
