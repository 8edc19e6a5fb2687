/** Strings, keys and addresses as configuration text (wpa_supplicant/config.c,
    src/utils/common.c). A byte is a character below 256. */
module ConfigString {
  import opened ConfigLine
  import opened TextBuffer
  import opened Wrappers

  ghost predicate Bytes(s: string) {
    forall i :: 0 <= i < |s| ==> s[i] as int < 256
  }

  // ----- hexadecimal

  function Hex2Num(c: char): (r: int)
    ensures -1 <= r < 16
  {
    if '0' <= c <= '9' then c as int - '0' as int
    else if 'a' <= c <= 'f' then c as int - 'a' as int + 10
    else if 'A' <= c <= 'F' then c as int - 'A' as int + 10
    else -1
  }

  /** A digit as %x prints it. */
  function HexDigit(n: nat): (c: char)
    requires n < 16
    ensures Hex2Num(c) == n && ('0' <= c <= '9' || 'a' <= c <= 'f')
  {
    if n < 10 then ('0' as int + n) as char else ('a' as int + n - 10) as char
  }

  function High(b: char): char
    requires b as int < 256
  {
    HexDigit(b as int / 16)
  }

  function Low(b: char): char
    requires b as int < 256
  {
    HexDigit(b as int % 16)
  }

  function HexByte(b: char): string
    requires b as int < 256
  {
    [High(b), Low(b)]
  }

  function HexText(s: string): (r: string)
    requires Bytes(s)
    ensures |r| == 2 * |s|
  {
    if s == "" then "" else HexByte(s[0]) + HexText(s[1..])
  }

  /** The byte that two characters spell, -1 when they do not. */
  function Hex2Byte(a: char, b: char): (r: int)
    ensures -1 <= r < 256
  {
    if Hex2Num(a) < 0 || Hex2Num(b) < 0 then -1 else Hex2Num(a) * 16 + Hex2Num(b)
  }

  /** The bytes spelled by the first 2 * n characters; None when some are not digits. */
  function HexBytes(t: string, n: nat): (r: Option<string>)
    requires 2 * n <= |t|
    ensures r.Some? ==> |r.value| == n && Bytes(r.value)
  {
    if n == 0 then Some("")
    else
      var r := HexBytes(t, n - 1);
      var b := Hex2Byte(t[2 * n - 2], t[2 * n - 1]);
      if r.None? || b < 0 then None else Some(r.value + [b as char])
  }

  lemma HexByteBack(b: char)
    requires b as int < 256
    ensures Hex2Byte(High(b), Low(b)) == b as int
  {
  }

  lemma {:induction false} HexTextSnoc(s: string, b: char)
    requires Bytes(s) && b as int < 256
    ensures Bytes(s + [b]) && HexText(s + [b]) == HexText(s) + HexByte(b)
  {
    if s == "" {
      assert s + [b] == [b] && [b][1..] == "";
      assert HexText([b]) == HexByte(b) + HexText("");
    } else {
      HexTextSnoc(s[1..], b);
      assert (s + [b])[1..] == s[1..] + [b];
    }
  }

  /** Reading hexadecimal undoes writing it. */
  lemma {:induction false} HexRoundTrip(s: string, tail: string)
    requires Bytes(s)
    ensures HexBytes(HexText(s) + tail, |s|) == Some(s)
    decreases |s|
  {
    if s != "" {
      var n := |s| - 1;
      var p, b := s[..n], s[n];
      assert s == p + [b];
      HexTextSnoc(p, b);
      assert HexText(s) + tail == HexText(p) + (HexByte(b) + tail);
      HexRoundTrip(p, HexByte(b) + tail);
      HexByteBack(b);
      var t := HexText(s) + tail;
      assert t[2 * n] == HexByte(b)[0] && t[2 * n + 1] == HexByte(b)[1];
    }
  }

  method HexStr2Bin(hex: string, len: nat) returns (r: Option<string>)
    requires 2 * len <= |hex|
    ensures r == HexBytes(hex, len)
  {
    var buf := "";
    var i := 0;
    while i < len
      invariant 0 <= i <= len
      invariant HexBytes(hex, i) == Some(buf)
    {
      var a := Hex2Byte(hex[2 * i], hex[2 * i + 1]);
      if a < 0 {
        NoDigits(hex, i + 1, len);
        return None;
      }
      buf := buf + [a as char];
      i := i + 1;
    }
    return Some(buf);
  }

  lemma {:induction false} NoDigits(t: string, i: nat, n: nat)
    requires i <= n && 2 * n <= |t| && HexBytes(t, i).None?
    ensures HexBytes(t, n).None?
  {
    if i < n {
      NoDigits(t, i, n - 1);
    }
  }

  lemma HexTextParts(p: string, b: char, rest: string)
    requires Bytes(p) && b as int < 256 && Bytes(rest)
    ensures Bytes(p + [b]) && Bytes(p + [b] + rest)
    ensures HexText(p + [b]) == HexText(p) + HexByte(b) && HexText(p + [b]) <= HexText(p + [b] + rest)
  {
    hide HexText, HexByte;
    HexTextSnoc(p, b);
    HexTextConcat(p + [b], rest);
  }

  lemma HexTextStep(data: string, i: nat)
    requires Bytes(data) && i < |data|
    ensures HexText(data[..i + 1]) == HexText(data[..i]) + HexByte(data[i])
    ensures HexText(data[..i + 1]) <= HexText(data)
  {
    hide HexText, HexByte, Bytes;
    var p, rest := data[..i], data[i + 1..];
    BytesOfParts(data, i);
    HexTextParts(p, data[i], rest);
    assert data[..i + 1] == p + [data[i]] && data == p + [data[i]] + rest;
  }

  lemma BytesOfParts(data: string, i: nat)
    requires Bytes(data) && i < |data|
    ensures Bytes(data[..i]) && Bytes(data[i + 1..]) && data[i] as int < 256
  {
  }

  lemma {:induction false} HexTextConcat(a: string, b: string)
    requires Bytes(a) && Bytes(b)
    ensures HexText(a + b) == HexText(a) + HexText(b)
  {
    if a == "" {
      assert a + b == b;
    } else {
      HexTextConcat(a[1..], b);
      assert (a + b)[1..] == a[1..] + b;
    }
  }

  /** Prints bytes into a buffer of a given size: what does not fit is cut off.
      written counts the characters of the bytes printed whole. */
  method SnprintfHex(size: nat, data: string) returns (text: string, written: nat)
    requires Bytes(data)
    ensures size > 0 ==> text == Clipped(HexText(data), size - 1)
    ensures size == 0 ==> text == ""
    ensures written == if 2 * |data| < size then 2 * |data| else if size == 0 then 0 else 2 * ((size - 1) / 2)
  {
    hide HexText, HexByte;
    if size == 0 {
      return "", 0;
    }
    var buf := new Buffer(size);
    var i := 0;
    assert data[..0] == "" && HexText("") == "";
    while i < |data|
      invariant 0 <= i <= |data| && 2 * i < size
      invariant fresh(buf) && fresh(buf.data) && buf.Valid() && buf.data.Length == size
      invariant buf.Text() == HexText(data[..i])
    {
      HexTextStep(data, i);
      var ok := buf.Print(HexByte(data[i]));
      if !ok {
        ClippedPrefix(HexText(data[..i + 1]), HexText(data), size - 1);
        return buf.Text(), 2 * i;
      }
      i := i + 1;
    }
    assert data[..i] == data;
    return buf.Text(), 2 * |data|;
  }

  lemma ClippedPrefix(a: string, b: string, max: nat)
    requires a <= b && |a| >= max
    ensures Clipped(a, max) == Clipped(b, max)
  {
  }

  // ----- strings

  ghost predicate Printable(s: string) {
    forall i :: 0 <= i < |s| ==> 32 <= s[i] as int < 127
  }

  method IsHex(data: string) returns (r: bool)
    ensures r <==> !Printable(data)
  {
    var i := 0;
    while i < |data|
      invariant 0 <= i <= |data|
      invariant forall j :: 0 <= j < i ==> 32 <= data[j] as int < 127
    {
      if data[i] as int < 32 || data[i] as int >= 127 {
        return true;
      }
      i := i + 1;
    }
    return false;
  }

  function Quoted(s: string): string { "\"" + s + "\"" }

  /** How a string is written. */
  ghost function StringText(s: string): string
    requires Bytes(s)
  {
    if Printable(s) then Quoted(s) else HexText(s)
  }

  method WriteString(value: string) returns (text: string)
    requires Bytes(value)
    ensures text == StringText(value)
  {
    var hex := IsHex(value);
    if hex {
      var n;
      text, n := SnprintfHex(2 * |value| + 1, value);
    } else {
      text := Quoted(value);
    }
  }

  /** How a string is read; None is a failure. */
  function StringValue(t: string): (r: Option<string>)
  {
    if t != "" && t[0] == '"' then
      var pos := LastIndexOf(t, '"', 1);
      if pos.None? || pos.value != |t| - 1 then None else Some(t[1..pos.value])
    else if |t| % 2 == 1 then None
    else HexBytes(t, |t| / 2)
  }

  method ParseString(value: string) returns (r: Option<string>)
    ensures r == StringValue(value)
  {
    if value != "" && value[0] == '"' {
      var pos := LastIndexOf(value, '"', 1);
      if pos.None? || pos.value != |value| - 1 {
        return None;
      }
      return Some(value[1..pos.value]);
    }
    if |value| % 2 == 1 {
      return None;
    }
    r := HexStr2Bin(value, |value| / 2);
  }

  lemma {:induction false} HexBytesExact(t: string, n: nat, v: string)
    requires 2 * n <= |t|
    ensures HexBytes(t, n) == Some(v)
       <==> |v| == n && forall i :: 0 <= i < n ==> Hex2Byte(t[2 * i], t[2 * i + 1]) == v[i] as int
  {
    hide Hex2Byte;
    if n > 0 {
      if |v| == n {
        HexBytesExact(t, n - 1, v[..n - 1]);
        assert v == v[..n - 1] + [v[n - 1]];
      }
    }
  }

  /** Text in double quotes says what is between its first and its last character,
      other text the bytes that its pairs of digits spell; all else is refused. */
  lemma StringValueExact(t: string, v: string)
    ensures StringValue(t) == Some(v)
       <==> || t == Quoted(v)
            || (&& (t == "" || t[0] != '"') && |t| == 2 * |v|
                && forall i :: 0 <= i < |v| ==> Hex2Byte(t[2 * i], t[2 * i + 1]) == v[i] as int)
  {
    hide Hex2Byte, HexBytes;
    if t != "" && t[0] == '"' {
      if t == Quoted(v) {
        QuotedValue(v);
      }
    } else if |t| % 2 == 0 {
      HexBytesExact(t, |t| / 2, v);
    }
  }

  lemma QuotedValue(s: string)
    ensures StringValue(Quoted(s)) == Some(s)
  {
    LastIndexOfExact(Quoted(s), '"', 1, |s| + 1);
  }

  /** Every byte string is read back as it was written. */
  lemma StringRoundTrip(s: string)
    requires Bytes(s)
    ensures StringValue(StringText(s)) == Some(s)
  {
    if Printable(s) {
      QuotedValue(s);
    } else {
      HexRoundTrip(s, "");
      assert HexText(s) + "" == HexText(s);
      assert s != "" && HexText(s)[0] == HexByte(s[0])[0];
    }
  }

  ghost predicate HexDigits(t: string) {
    forall i :: 0 <= i < |t| ==> '0' <= t[i] <= '9' || 'a' <= t[i] <= 'f'
  }

  lemma {:induction false} HexTextDigits(s: string)
    requires Bytes(s)
    ensures HexDigits(HexText(s))
  {
    if s != "" {
      HexTextDigits(s[1..]);
    }
  }

  /** What is written never confuses the line reader. */
  lemma StringTextGood(s: string)
    requires Bytes(s)
    ensures GoodText(StringText(s))
  {
    if Printable(s) {
      var t := Quoted(s);
      assert forall i :: 0 < i < |t| - 1 ==> t[i] == s[i - 1];
    } else {
      HexTextDigits(s);
    }
  }

  /** No proper beginning of the text of a string reads back as that string,
      except that no text at all reads back as the empty one. */
  lemma CutStringDiffers(s: string, t: string)
    requires Bytes(s) && t < StringText(s) && (s != "" || t != "")
    ensures StringValue(t) != Some(s)
  {
    var w := StringText(s);
    if Printable(s) {
      assert t != "" ==> t[0] == w[0] == '"';
      assert s == "" ==> t == "" || t == "\"";
    } else {
      HexTextDigits(s);
      assert t != "" ==> t[0] == w[0];
    }
  }
}
