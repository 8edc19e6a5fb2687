/** Frequency lists as text (wpa_supplicant/config.c). */
module FreqText {
  import opened ConfigLine
  import opened Decimal
  import opened TextBuffer

  // ----- reading

  function SkipSpaces(s: string): (r: string)
    ensures |r| <= |s| && (r != "" ==> r[0] != ' ')
  {
    if s != "" && s[0] == ' ' then SkipSpaces(s[1..]) else s
  }

  /** Numbers between spaces, up to the first that reads as zero. */
  function Freqs(s: string): seq<int>
    decreases |s|
  {
    var t := SkipSpaces(s);
    if Atoi(t) == 0 then []
    else
      var space := IndexOf(t, ' ', 1);
      [Atoi(t)] + if space == |t| then [] else Freqs(t[space..])
  }

  /** A copy of the list in an array of twice the length, zero behind the old entries. */
  method Grow(freqs: array<int>, len: nat) returns (n: array<int>)
    requires freqs.Length == len + 1
    ensures fresh(n) && n.Length == 2 * len + 1
    ensures n[..len] == freqs[..len] && forall i :: len <= i < n.Length ==> n[i] == 0
  {
    n := new int[2 * len + 1];
    var k := 0;
    while k < len
      invariant 0 <= k <= len && n[..k] == freqs[..k]
    {
      n[k] := freqs[k];
      k := k + 1;
    }
    var i := len;
    while i <= 2 * len
      invariant len <= i <= 2 * len + 1
      invariant n[..len] == freqs[..len] && forall j :: len <= j < i ==> n[j] == 0
    {
      n[i] := 0;
      i := i + 1;
    }
  }

  method SkipTo(s: string, from: nat) returns (pos: nat)
    requires from <= |s|
    ensures from <= pos <= |s| && s[pos..] == SkipSpaces(s[from..])
  {
    pos := from;
    while pos < |s| && s[pos] == ' '
      invariant from <= pos <= |s| && SkipSpaces(s[from..]) == SkipSpaces(s[pos..])
    {
      pos := pos + 1;
    }
  }

  /** Doubles the array when all places but the last are taken. */
  method MakeRoom(freqs: array<int>, used: nat, len: nat) returns (n: array<int>, room: nat)
    requires 0 < len && freqs.Length == len + 1 && used <= len
    requires forall i :: used <= i < freqs.Length ==> freqs[i] == 0
    ensures (n == freqs || fresh(n)) && used < room && n.Length == room + 1
    ensures n[..used] == freqs[..used] && forall i :: used <= i < n.Length ==> n[i] == 0
  {
    n, room := freqs, len;
    if used == len {
      n := Grow(freqs, len);
      room := len * 2;
    }
  }

  /** Reads a list into an array that doubles when it is full; whatever its
      length, it ends in a zero. */
  method ParseFreqs(value: string) returns (freqs: array<int>, used: nat)
    ensures fresh(freqs) && used < freqs.Length
    ensures freqs[..used] == Freqs(value)
    ensures forall i :: used <= i < freqs.Length ==> freqs[i] == 0
  {
    hide SkipSpaces, Atoi, Freqs, IndexOf;
    used := 0;
    var len := 10;
    freqs := new int[len + 1](_ => 0);
    var pos := 0;
    assert value[0..] == value;
    while true
      invariant fresh(freqs) && 0 < len && freqs.Length == len + 1 && used <= len && pos <= |value|
      invariant freqs[..used] + Freqs(value[pos..]) == Freqs(value)
      invariant forall i :: used <= i < freqs.Length ==> freqs[i] == 0
      decreases |value| - pos
    {
      FreqsStep(value[pos..]);
      pos := SkipTo(value, pos);
      freqs, len := MakeRoom(freqs, used, len);
      var f := Atoi(value[pos..]);
      PutAt(freqs, used, f);
      if f == 0 {
        break;
      }
      used := used + 1;
      var next := NextSpace(value, pos);
      if next == |value| {
        break;
      }
      pos := next;
    }
  }

  method PutAt(freqs: array<int>, k: nat, f: int)
    requires k < freqs.Length
    modifies freqs
    ensures freqs[..k] == old(freqs[..k]) && freqs[..k + 1] == old(freqs[..k]) + [f]
    ensures forall i :: k < i < freqs.Length ==> freqs[i] == old(freqs[i])
    ensures freqs[k] == f
  {
    freqs[k] := f;
  }

  method NextSpace(s: string, pos: nat) returns (next: nat)
    requires pos < |s|
    ensures pos < next <= |s| && next == pos + IndexOf(s[pos..], ' ', 1)
    ensures s[pos..][next - pos..] == s[next..]
  {
    next := pos + IndexOf(s[pos..], ' ', 1);
  }

  lemma FreqsStep(s: string)
    ensures var t := SkipSpaces(s);
            && (Atoi(t) == 0 ==> Freqs(s) == [])
            && (Atoi(t) != 0 ==>
                  && t != ""
                  && Freqs(s) == [Atoi(t)] + if IndexOf(t, ' ', 1) == |t| then [] else Freqs(t[IndexOf(t, ' ', 1)..]))
  {
  }

  // ----- writing

  /** What can stand in a list before its terminating zero. */
  ghost predicate Entries(fs: seq<int>) {
    forall i :: 0 <= i < |fs| ==> fs[i] != 0 && FitsInt(fs[i])
  }

  ghost predicate Positive(fs: seq<int>) {
    Entries(fs) && forall i :: 0 <= i < |fs| ==> 0 < fs[i]
  }

  /** An int as %u prints it. */
  function Unsigned(x: int): nat
    requires FitsInt(x)
  {
    if x < 0 then x + 0x1_0000_0000 else x
  }

  function FreqsText(fs: seq<int>): string
    requires forall i :: 0 <= i < |fs| ==> FitsInt(fs[i])
  {
    if fs == [] then ""
    else FreqsText(fs[..|fs| - 1]) + (if |fs| == 1 then "" else " ") + Digits(Unsigned(fs[|fs| - 1]))
  }

  ghost predicate Terminated(freqs: array<int>, fs: seq<int>)
    reads freqs
  {
    && |fs| < freqs.Length && freqs[|fs|] == 0 && Entries(fs)
    && forall i :: 0 <= i < |fs| ==> freqs[i] == fs[i]
  }

  method CountFreqs(freqs: array<int>, ghost fs: seq<int>) returns (count: nat)
    requires Terminated(freqs, fs)
    ensures count == |fs|
  {
    count := 0;
    while freqs[count] != 0
      invariant 0 <= count <= |fs|
      decreases |fs| - count
    {
      count := count + 1;
    }
  }

  /** Writes the list up to its zero, cut off when it does not fit. */
  method WriteFreqs(freqs: array<int>, ghost fs: seq<int>) returns (text: string)
    requires Terminated(freqs, fs)
    ensures text == Clipped(FreqsText(fs), 10 * |fs|)
  {
    hide FreqsText, Digits;
    var count := CountFreqs(freqs, fs);
    var buf := new Buffer(10 * count + 1);
    EmptyText(fs);
    var i := 0;
    while freqs[i] != 0
      invariant 0 <= i <= |fs| && buf.Valid() && fresh(buf) && fresh(buf.data)
      invariant Terminated(freqs, fs) && buf.data.Length == 10 * |fs| + 1
      invariant buf.Text() == FreqsText(fs[..i]) && |FreqsText(fs[..i])| <= 10 * |fs|
      decreases |fs| - i
    {
      var ok := buf.Print((if i == 0 then "" else " ") + Digits(Unsigned(freqs[i])));
      PrefixStep(fs, i);
      if !ok {
        CutPrefix(fs, i + 1);
        return buf.Text();
      }
      i := i + 1;
    }
    assert fs[..i] == fs;
    return buf.Text();
  }

  lemma EmptyText(fs: seq<int>)
    requires Entries(fs)
    ensures FreqsText(fs[..0]) == ""
  {
  }

  lemma PrefixStep(fs: seq<int>, i: nat)
    requires Entries(fs) && i < |fs|
    ensures FreqsText(fs[..i + 1]) == FreqsText(fs[..i]) + ((if i == 0 then "" else " ") + Digits(Unsigned(fs[i])))
  {
    assert fs[..i + 1][..i] == fs[..i];
  }

  lemma {:induction false} CutPrefix(fs: seq<int>, i: nat)
    requires Entries(fs) && i <= |fs|
    ensures FreqsText(fs[..i]) <= FreqsText(fs)
    decreases |fs| - i
  {
    if i < |fs| {
      PrefixStep(fs, i);
      CutPrefix(fs, i + 1);
    } else {
      assert fs[..i] == fs;
    }
  }

  /** Numbers below 10^9 take no more than ten characters each with their space,
      so the list is written whole. */
  lemma {:induction false} TextFits(fs: seq<int>)
    requires Positive(fs) && forall i :: 0 <= i < |fs| ==> fs[i] < 1000000000
    ensures |FreqsText(fs)| <= 10 * |fs|
  {
    if fs != [] {
      TextFits(fs[..|fs| - 1]);
      assert Power10(9) == 1000000000 by {
        assert Power10(3) == 1000 && Power10(6) == 1000 * Power10(3);
      }
      DigitCount(fs[|fs| - 1], 9);
    }
  }

  /** One number and the space before it. */
  lemma ReadsOne(sep: string, x: int, rest: string)
    requires x > 0 && (sep == "" || sep == " ") && (rest == "" || rest[0] == ' ')
    ensures Freqs(sep + Digits(x) + rest) == [x] + Freqs(rest)
  {
    hide Digits, Atoi, SkipSpaces, Freqs, IndexOf;
    var t := Digits(x) + rest;
    assert sep + Digits(x) + rest == sep + t;
    AllDigits(x);
    assert t[0] == Digits(x)[0];
    OneSpace(sep, t);
    NumberRoundTrip(x, rest);
    assert forall i :: 0 <= i < |Digits(x)| ==> t[i] == Digits(x)[i];
    IndexOfExact(t, ' ', 1, |Digits(x)|);
    assert t[|Digits(x)|..] == rest;
    AtoiOfNothing();
    FreqsStep(sep + t);
    FreqsStep("");
  }

  lemma OneSpace(sep: string, t: string)
    requires (sep == "" || sep == " ") && t != "" && Digit(t[0])
    ensures SkipSpaces(sep + t) == t
  {
    assert sep == " " ==> (sep + t)[1..] == t;
    assert sep == "" ==> sep + t == t;
  }

  lemma AtoiOfNothing()
    ensures SkipSpaces("") == "" && Atoi("") == 0
  {
  }

  lemma AllDigits(x: nat)
    ensures Digits(x) != "" && forall i :: 0 <= i < |Digits(x)| ==> Digit(Digits(x)[i])
  {
  }

  lemma {:induction false} TextRoundTrip(fs: seq<int>, rest: string)
    requires Positive(fs) && (rest == "" || rest[0] == ' ')
    ensures Freqs(FreqsText(fs) + rest) == fs + Freqs(rest)
    decreases |fs|
  {
    hide Freqs, Digits;
    if fs == [] {
      assert FreqsText(fs) + rest == rest && fs + Freqs(rest) == Freqs(rest);
    } else {
      var p, x := fs[..|fs| - 1], fs[|fs| - 1];
      var sep := if p == [] then "" else " ";
      var tail := sep + Digits(x) + rest;
      assert FreqsText(fs) + rest == FreqsText(p) + tail;
      ReadsOne(sep, x, rest);
      if p == [] {
        assert FreqsText(p) + tail == tail;
      } else {
        TextRoundTrip(p, tail);
      }
      assert p + ([x] + Freqs(rest)) == fs + Freqs(rest);
    }
  }

  /** Every list of positive frequencies below 10^9 is read back as it was written. */
  lemma ListRoundTrip(fs: seq<int>)
    requires Positive(fs) && forall i :: 0 <= i < |fs| ==> fs[i] < 1000000000
    ensures Freqs(Clipped(FreqsText(fs), 10 * |fs|)) == fs
  {
    hide Freqs, FreqsText;
    TextFits(fs);
    TextRoundTrip(fs, "");
    FreqsOfNothing();
    assert FreqsText(fs) + "" == FreqsText(fs);
  }

  lemma FreqsOfNothing()
    ensures Freqs("") == []
  {
  }
}
