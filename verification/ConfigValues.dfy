/** Which texts set a field of a network block to which value
    (wpa_supplicant/config.c, src/utils/common.c). */
module ConfigValues {
  import opened ConfigLine
  import opened ConfigNetwork
  import opened ConfigString
  import opened Decimal
  import opened WordList
  import opened Wrappers

  // ----- hexadecimal digits

  /** c is the digit for n, in lower or in upper case. */
  ghost predicate IsDigit(c: char, n: nat) {
    n < 16 && ("0123456789abcdef"[n] == c || "0123456789ABCDEF"[n] == c)
  }

  /** The two characters spell the byte, the high half first. */
  ghost predicate Spells(a: char, b: char, byte: char) {
    byte as int < 256 && IsDigit(a, byte as int / 16) && IsDigit(b, byte as int % 16)
  }

  lemma DigitExact(c: char, n: nat)
    ensures Hex2Num(c) == n <==> IsDigit(c, n)
  {
  }

  lemma Hex2ByteExact(a: char, b: char, byte: char)
    ensures Hex2Byte(a, b) == byte as int <==> Spells(a, b, byte)
  {
    hide Hex2Num, IsDigit;
    DigitExact(a, byte as int / 16);
    DigitExact(b, byte as int % 16);
  }

  /** Pairs of digits spell the bytes v. */
  ghost predicate SpellsAll(t: string, v: string) {
    |t| == 2 * |v| && forall i :: 0 <= i < |v| ==> Spells(t[2 * i], t[2 * i + 1], v[i])
  }

  lemma StringExact(t: string, v: string)
    ensures StringValue(t) == Some(v) <==> t == Quoted(v) || ((t == "" || t[0] != '"') && SpellsAll(t, v))
  {
    hide Hex2Byte, Spells, StringValue;
    StringValueExact(t, v);
    if |t| == 2 * |v| {
      forall i | 0 <= i < |v|
        ensures Hex2Byte(t[2 * i], t[2 * i + 1]) == v[i] as int <==> Spells(t[2 * i], t[2 * i + 1], v[i])
      {
        Hex2ByteExact(t[2 * i], t[2 * i + 1], v[i]);
      }
    }
  }

  // ----- the kinds of values

  /** A string field takes the word NULL, which unsets it, and the texts of strings
      within its greatest length. */
  lemma StrLenExact(max: Option<nat>, t: string, v: Option<string>)
    ensures ParseValue(StrLen(max), t) == Some(Text(v))
       <==> if t == "NULL" then v == None
            else v.Some? && (max.Some? ==> |v.value| <= max.value)
                 && (t == Quoted(v.value) || ((t == "" || t[0] != '"') && SpellsAll(t, v.value)))
  {
    hide StringValue, SpellsAll;
    StringExact(t, if v.Some? then v.value else "");
  }

  /** The same of a string without a length, which ends at its first NUL. */
  lemma StrExact(t: string, v: Option<string>)
    ensures ParseValue(Str, t) == Some(Text(v))
       <==> if t == "NULL" then v == None
            else exists s :: (t == Quoted(s) || ((t == "" || t[0] != '"') && SpellsAll(t, s))) && v == Some(CString(s))
  {
    hide StringValue, SpellsAll, CString;
    forall s
      ensures StringValue(t) == Some(s) <==> t == Quoted(s) || ((t == "" || t[0] != '"') && SpellsAll(t, s))
    {
      StringExact(t, s);
    }
    if ParseValue(Str, t) == Some(Text(v)) && t != "NULL" {
      assert StringValue(t) == Some(StringValue(t).value);
    }
  }

  /** A WEP key is a string of at most 16 bytes; NULL is no special word here. */
  lemma WepKeyExact(t: string, v: string)
    ensures ParseValue(WepKey, t) == Some(Text(Some(v)))
       <==> |v| <= 16 && (t == Quoted(v) || ((t == "" || t[0] != '"') && SpellsAll(t, v)))
  {
    hide StringValue, SpellsAll;
    StringExact(t, v);
  }

  /** Six pairs of digits with a colon between them, at the start of the text. */
  ghost predicate SpellsMac(t: string, mac: string) {
    && |mac| == 6 && |t| >= 17
    && (forall i :: 0 <= i < 6 ==> Spells(t[3 * i], t[3 * i + 1], mac[i]))
    && (forall i :: 0 <= i < 5 ==> t[3 * i + 2] == ':')
  }

  lemma MacExact(t: string, mac: string)
    ensures MacValue(t) == Some(mac) <==> SpellsMac(t, mac)
  {
    hide Hex2Byte, Spells;
    if |t| >= 17 && |mac| == 6 {
      forall i | 0 <= i < 6
        ensures Hex2Byte(t[3 * i], t[3 * i + 1]) == mac[i] as int <==> Spells(t[3 * i], t[3 * i + 1], mac[i])
      {
        Hex2ByteExact(t[3 * i], t[3 * i + 1], mac[i]);
      }
      MacPairs(t, mac);
    }
  }

  lemma MacPairs(t: string, mac: string)
    requires |t| >= 17 && |mac| == 6
    ensures MacValue(t) == Some(mac)
       <==> && (forall i :: 0 <= i < 6 ==> Hex2Byte(t[3 * i], t[3 * i + 1]) == mac[i] as int)
            && (forall i :: 0 <= i < 5 ==> t[3 * i + 2] == ':')
  {
    hide Hex2Byte;
    assert mac == [mac[0], mac[1], mac[2], mac[3], mac[4], mac[5]];
    var pair := (i: nat) requires i < 6 => Hex2Byte(t[3 * i], t[3 * i + 1]) == mac[i] as int;
    assert pair(0) && pair(1) && pair(2) && pair(3) && pair(4) && pair(5)
      <==> forall i :: 0 <= i < 6 ==> Hex2Byte(t[3 * i], t[3 * i + 1]) == mac[i] as int;
    var colons := (forall i :: 0 <= i < 5 ==> t[3 * i + 2] == ':');
    assert colons <==> && t[3 * 0 + 2] == ':' && t[3 * 1 + 2] == ':' && t[3 * 2 + 2] == ':'
                       && t[3 * 3 + 2] == ':' && t[3 * 4 + 2] == ':';
  }

  /** The BSSID is unset by no text, by two quotes and by the word any, and set by a
      text that begins with an address. */
  lemma BssidExact(t: string, v: Option<string>)
    ensures ParseValue(ConfigNetwork.Bssid, t) == Some(Text(v))
       <==> if t in ["", "\"\"", "any"] then v == None else v.Some? && SpellsMac(t, v.value)
  {
    hide MacValue, SpellsMac;
    MacExact(t, if v.Some? then v.value else "");
    if MacValue(t).Some? {
      MacExact(t, MacValue(t).value);
    }
  }

  /** The text is a quote with p behind it, up to the last other quote if there is one. */
  ghost predicate PassText(t: string, p: string) {
    || (t == "\"" + p && '"' !in p)
    || exists rest :: '"' !in rest && t == Quoted(p) + rest
  }

  /** A passphrase stands between the first character and the last quote and has 8 to
      63 characters, whatever follows that quote. */
  lemma PassphraseExact(t: string, p: string)
    ensures ParseValue(PskField, t) == Some(Psk(Passphrase(p))) <==> 8 <= |p| <= 63 && PassText(t, p)
  {
    if t != "" && t[0] == '"' {
      LastQuote(t, p);
    }
  }

  lemma LastQuote(t: string, p: string)
    requires t != "" && t[0] == '"'
    ensures var pos := LastIndexOf(t, '"', 1);
            p == t[1..if pos.Some? then pos.value else |t|] <==> PassText(t, p)
  {
    hide LastIndexOf, PassText;
    var pos := LastIndexOf(t, '"', 1);
    if pos.None? {
      NoSecondQuote(t, p);
    } else {
      SplitAt(t, pos.value);
      if PassText(t, p) {
        Unsplit(t, p, pos.value);
      }
    }
  }

  lemma NoSecondQuote(t: string, p: string)
    requires t != "" && t[0] == '"' && forall i :: 1 <= i < |t| ==> t[i] != '"'
    ensures p == t[1..] <==> PassText(t, p)
  {
    assert t == "\"" + t[1..] && '"' !in t[1..];
    forall rest | t == Quoted(p) + rest
      ensures false
    {
      QuotedParts(t, p, rest);
    }
  }

  lemma Unsplit(t: string, p: string, n: nat)
    requires 1 <= n < |t| && t[n] == '"' && (forall i :: n < i < |t| ==> t[i] != '"') && PassText(t, p)
    ensures p == t[1..n]
  {
    forall rest | '"' !in rest && t == Quoted(p) + rest
      ensures p == t[1..n]
    {
      QuotedParts(t, p, rest);
      assert n == |p| + 1;
    }
  }

  lemma SplitAt(t: string, n: nat)
    requires 1 <= n < |t| && t[0] == t[n] == '"' && forall i :: n < i < |t| ==> t[i] != '"'
    ensures PassText(t, t[1..n])
  {
    assert t == Quoted(t[1..n]) + t[n + 1..];
    assert '"' !in t[n + 1..];
  }

  lemma QuotedParts(t: string, p: string, rest: string)
    requires t == Quoted(p) + rest
    ensures t[|p| + 1] == '"' && t[1..|p| + 1] == p
    ensures '"' !in rest ==> forall i :: |p| + 1 < i < |t| ==> t[i] != '"'
  {
    var q := Quoted(p);
    assert |q| == |p| + 2 && q[|p| + 1] == '"' && q[1..|p| + 1] == p;
    assert t[..|q|] == q && t[|q|..] == rest;
    assert t[1..|p| + 1] == t[..|q|][1..|p| + 1];
    assert forall i :: |q| <= i < |t| ==> t[i] == rest[i - |q|];
  }

  /** A raw key is spelled by exactly 64 digits. */
  lemma RawPskExact(t: string, key: string)
    ensures ParseValue(PskField, t) == Some(Psk(RawPsk(key))) <==> |key| == 32 && SpellsAll(t, key)
  {
    hide Hex2Byte, Spells, HexBytes;
    if |t| == 64 {
      HexBytesExact(t, 32, key);
      forall i | 0 <= i < 32 && |key| == 32
        ensures Hex2Byte(t[2 * i], t[2 * i + 1]) == key[i] as int <==> Spells(t[2 * i], t[2 * i + 1], key[i])
      {
        Hex2ByteExact(t[2 * i], t[2 * i + 1], key[i]);
      }
      if |key| == 32 && SpellsAll(t, key) {
        Hex2ByteExact(t[0], t[1], key[0]);
        assert Spells(t[2 * 0], t[2 * 0 + 1], key[0]);
        NoQuoteDigit(t[0], t[1], key[0]);
      }
    }
  }

  lemma NoQuoteDigit(a: char, b: char, byte: char)
    requires Spells(a, b, byte)
    ensures a != '"'
  {
  }

  // ----- numbers

  ghost predicate AllDigits(s: string) {
    forall i :: 0 <= i < |s| ==> '0' <= s[i] <= '9'
  }

  ghost predicate AllBlank(s: string) {
    forall i :: 0 <= i < |s| ==> s[i] == ' ' || s[i] in [9 as char, 10 as char, 11 as char, 12 as char, 13 as char]
  }

  /** What digits say, the last one counting ones. */
  ghost function DigitsValue(ds: string): int
    requires AllDigits(ds)
  {
    if ds == "" then 0 else 10 * DigitsValue(ds[..|ds| - 1]) + (ds[|ds| - 1] as int - '0' as int)
  }

  lemma {:induction false} DigitsRead(ds: string, rest: string)
    requires AllDigits(ds)
    ensures DigitsValue(ds) >= 0 && ReadDigits(ds + rest, 0) == ReadDigits(rest, DigitsValue(ds))
    decreases |ds|
  {
    if ds == "" {
      assert ds + rest == rest;
    } else {
      var init, d := ds[..|ds| - 1], ds[|ds| - 1];
      DigitsRead(init, [d] + rest);
      assert ds + rest == init + ([d] + rest);
      assert ([d] + rest)[1..] == rest;
    }
  }

  lemma NumberRead(ds: string, rest: string)
    requires AllDigits(ds) && (rest == "" || !('0' <= rest[0] <= '9'))
    ensures ReadDigits(ds + rest, 0) == DigitsValue(ds)
  {
    hide ReadDigits;
    DigitsRead(ds, rest);
    ReadsNothing(rest, DigitsValue(ds));
  }

  lemma {:induction false} BlanksSkipped(ws: string, t: string)
    requires AllBlank(ws)
    ensures Atoi(ws + t) == Atoi(t)
  {
    if ws == "" {
      assert ws + t == t;
    } else {
      assert (ws + t)[1..] == ws[1..] + t;
      BlanksSkipped(ws[1..], t);
    }
  }

  lemma SignRead(sign: string, t: string)
    requires sign in ["+", "-"]
    ensures Atoi(sign + t) == if sign == "-" then 0 - ReadDigits(t, 0) else ReadDigits(t, 0)
  {
    assert (sign + t)[1..] == t;
  }

  /** White space, at most one sign, digits, and whatever follows: any text is of
      this form, and the digits say its number. It is refused only if it is above
      the upper bound of the field; no text is refused for not being a number. */
  lemma IntExact(high: Option<int>, ws: string, sign: string, ds: string, rest: string)
    requires AllBlank(ws) && sign in ["", "+", "-"] && AllDigits(ds)
    requires rest != "" ==> !('0' <= rest[0] <= '9')
    requires rest != "" && ds == "" && sign == "" ==> rest[0] !in ['+', '-'] && !AllBlank(rest[..1])
    ensures var n := if sign == "-" then -DigitsValue(ds) else DigitsValue(ds);
            ParseValue(Int(high), ws + (sign + (ds + rest)))
            == if high.Some? && n > high.value then None else Some(Number(n))
  {
    hide ReadDigits, DigitsValue, AllBlank, Atoi;
    BlanksSkipped(ws, sign + (ds + rest));
    NumberRead(ds, rest);
    if sign == "" {
      assert sign + (ds + rest) == ds + rest;
      NoSign(ds, rest);
    } else {
      SignRead(sign, ds + rest);
    }
  }

  lemma NoSign(ds: string, rest: string)
    requires AllDigits(ds) && (rest != "" ==> !('0' <= rest[0] <= '9'))
    requires rest != "" && ds == "" ==> rest[0] !in ['+', '-'] && !AllBlank(rest[..1])
    ensures Atoi(ds + rest) == ReadDigits(ds + rest, 0)
  {
    if ds == "" {
      assert ds + rest == rest;
    }
  }

  // ----- words

  ghost predicate Blanks(s: string) {
    forall i :: 0 <= i < |s| ==> s[i] in [' ', '\t']
  }

  /** A word of a list is whatever stands between blanks and tabs or the ends. */
  lemma WordFound(a: string, w: string, b: string)
    requires a != "" ==> a[|a| - 1] in [' ', '\t']
    requires b != "" ==> b[0] in [' ', '\t']
    requires w != "" && forall i :: 0 <= i < |w| ==> w[i] !in [' ', '\t']
    ensures Tokens(a + (w + b)) == Tokens(a) + [w] + Tokens(b)
  {
    hide Tokens, Separator;
    WordFirst(w, b);
    if a == "" {
      assert a + (w + b) == w + b;
      NoTokens(a);
      Regroup([], [w], Tokens(b));
    } else {
      BehindSeparator(a, w + b);
      Ends(a);
      Regroup(Tokens(a), [w], Tokens(b));
    }
  }

  lemma Ends(a: string)
    requires a != "" && a[|a| - 1] in [' ', '\t']
    ensures Tokens(a) == Tokens(a[..|a| - 1])
  {
    hide Tokens;
    BehindSeparator(a, "");
    assert a + "" == a;
    NoTokens("");
    Regroup(Tokens(a[..|a| - 1]), [], []);
  }

  lemma Regroup<T>(x: seq<T>, y: seq<T>, z: seq<T>)
    ensures x + (y + z) == (x + y) + z && x + [] == [] + x == x
  {
  }

  lemma BehindSeparator(a: string, t: string)
    requires a != "" && a[|a| - 1] in [' ', '\t']
    ensures Tokens(a + t) == Tokens(a[..|a| - 1]) + Tokens(t)
  {
    hide Tokens;
    var front, back := a[..|a| - 1], a[|a| - 1..] + t;
    assert a + t == front + back && back[1..] == t;
    TokensConcat(front, back);
    TokensOf(back);
  }

  lemma WordFirst(w: string, b: string)
    requires w != "" && forall i :: 0 <= i < |w| ==> w[i] !in [' ', '\t']
    requires b != "" ==> b[0] in [' ', '\t']
    ensures Tokens(w + b) == [w] + Tokens(b)
  {
    hide Tokens;
    TokensOfToken(w);
    if b == "" {
      assert w + b == w;
      NoTokens(b);
    } else {
      TokensConcat(w, b);
    }
  }

  lemma {:induction false} BlanksHaveNoWords(s: string)
    requires Blanks(s)
    ensures Tokens(s) == []
  {
    if s != "" {
      BlanksHaveNoWords(s[1..]);
    }
  }
}
