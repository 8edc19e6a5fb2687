/** Network blocks of the configuration file: what is written for each field of a
    network and how a block is read (wpa_supplicant/config.c, config_file.c). */
module ConfigNetwork {
  import opened ConfigLine
  import opened ConfigString
  import opened Decimal
  import opened FreqText
  import opened TextBuffer
  import opened WordList
  import opened Wrappers

  datatype Secret = NoPsk | Passphrase(text: string) | RawPsk(key: string)

  datatype Value = Text(text: Option<string>) | Number(n: int) | Mask(m: bv16) | Psk(secret: Secret)
                 | Frequencies(freqs: Option<seq<int>>)

  /** How a field is stored: StrLen with its length, Str as a C string. An integer
      has at most an upper bound: a lower bound of 0 is not checked. */
  datatype Kind = StrLen(max: Option<nat>) | Str | Int(high: Option<int>) | Bssid | PskField | WepKey
                | Proto | KeyMgmt | Pairwise | Group | AuthAlg | FreqList

  /** saved says whether the field is ever written to a file. */
  datatype Field = Field(name: string, kind: Kind, def: Value, saved: bool)

  const MAX_SSID_LEN := 32
  const MAX_WEP_KEY_LEN := 16
  const PMK_LEN := 32

  // ----- values as text

  function MacText(mac: string): string
    requires |mac| == 6 && Bytes(mac)
  {
    [High(mac[0]), Low(mac[0]), ':', High(mac[1]), Low(mac[1]), ':', High(mac[2]), Low(mac[2]), ':',
     High(mac[3]), Low(mac[3]), ':', High(mac[4]), Low(mac[4]), ':', High(mac[5]), Low(mac[5])]
  }

  /** Two digits at each of the places 0, 3, .. 15 and a colon between them; what
      follows is not looked at. */
  function MacValue(t: string): Option<string> {
    if |t| < 17 then None
    else
      var b := [Hex2Byte(t[0], t[1]), Hex2Byte(t[3], t[4]), Hex2Byte(t[6], t[7]),
                Hex2Byte(t[9], t[10]), Hex2Byte(t[12], t[13]), Hex2Byte(t[15], t[16])];
      if b[0] < 0 || b[1] < 0 || b[2] < 0 || b[3] < 0 || b[4] < 0 || b[5] < 0 then None
      else if t[2] != ':' || t[5] != ':' || t[8] != ':' || t[11] != ':' || t[14] != ':' then None
      else Some([b[0] as char, b[1] as char, b[2] as char, b[3] as char, b[4] as char, b[5] as char])
  }

  /** The text of a value; None when nothing is set. */
  ghost function ValueText(kind: Kind, v: Value): Option<string>
    requires Storable(kind, v)
  {
    match kind
    case StrLen(_) => if v.text.None? then None else Some(StringText(v.text.value))
    case Str => if v.text.None? then None else Some(StringText(v.text.value))
    case Int(_) => Some(Decimal.Text(v.n))
    case Bssid => if v.text.None? then None else Some(MacText(v.text.value))
    case WepKey => if v.text.value == "" then None else Some(StringText(v.text.value))
    case PskField =>
      (match v.secret
       case NoPsk => None
       case Passphrase(p) => Some(Quoted(p))
       case RawPsk(key) => Some(HexText(key)))
    case Proto => Some(MaskText(v.m, PROTO_WORDS))
    case KeyMgmt => Some(MaskText(v.m, KEY_MGMT_WORDS))
    case Pairwise => Some(MaskText(v.m, CIPHER_WORDS))
    case Group => Some(MaskText(v.m, CIPHER_WORDS))
    case AuthAlg => Some(MaskText(v.m, AUTH_ALG_WORDS))
    case FreqList =>
      if v.freqs.None? then None else Some(Clipped(FreqsText(v.freqs.value), 10 * |v.freqs.value|))
  }

  /** The values a field can hold. A mask is 0 after a refused setting that names
      no known word, or after a check that takes its last bit. */
  ghost predicate Storable(kind: Kind, v: Value) {
    match kind
    case StrLen(max) => v.Text? && (v.text.Some? ==> Bytes(v.text.value) && (max.Some? ==> |v.text.value| <= max.value))
    case Str => v.Text? && (v.text.Some? ==> Bytes(v.text.value) && Lacks(v.text.value, '\0'))
    case Int(high) => v.Number? && FitsInt(v.n) && (high.Some? ==> v.n <= high.value)
    case Bssid => v.Text? && (v.text.Some? ==> Bytes(v.text.value) && |v.text.value| == 6)
    case WepKey => v.Text? && v.text.Some? && Bytes(v.text.value) && |v.text.value| <= MAX_WEP_KEY_LEN
    case PskField =>
      v.Psk? &&
      (match v.secret
       case NoPsk => true
       case Passphrase(p) => 8 <= |p| <= 63 && Bytes(p) && Lacks(p, '\0')
       case RawPsk(key) => |key| == PMK_LEN && Bytes(key))
    case Proto => v.Mask? && And(v.m, 3) == v.m
    case KeyMgmt => v.Mask? && And(v.m, 31) == v.m
    case Pairwise => v.Mask? && And(v.m, PAIRWISE_ALLOWED) == v.m
    case Group => v.Mask? && And(v.m, GROUP_ALLOWED) == v.m
    case AuthAlg => v.Mask? && And(v.m, 7) == v.m
    case FreqList => v.Frequencies? && (v.freqs.Some? ==> Entries(v.freqs.value))
  }

  /** The text of a value is on one line: a passphrase is written as it is, also
      with a newline in it. */
  ghost predicate OnOneLine(v: Value) {
    v.Psk? && v.secret.Passphrase? ==> Lacks(v.secret.text, '\n')
  }

  /** Fields that are left out of the file when they have their default. */
  predicate Elided(kind: Kind) {
    kind.Int? || kind.Proto? || kind.KeyMgmt? || kind.Pairwise? || kind.Group? || kind.AuthAlg?
  }

  /** What the file gets for a field; None for no line. */
  ghost function Written(f: Field, v: Value): Option<string>
    requires Storable(f.kind, v)
  {
    if !f.saved || (Elided(f.kind) && v == f.def) then None
    else
      var t := ValueText(f.kind, v);
      if t == Some("") then None else t
  }

  /** The value after writing and reading: what is not written is the default. */
  ghost function Restored(f: Field, v: Value): Value
    requires Storable(f.kind, v)
  {
    if Written(f, v).None? then f.def else v
  }

  /** The values that survive. */
  predicate Kept(f: Field, v: Value) {
    v == f.def || (f.saved && (v.Mask? ==> v.m != 0))
  }

  function PskValue(t: string): Option<Value> {
    if t != "" && t[0] == '"' then
      var pos := LastIndexOf(t, '"', 1);
      var len := if pos.Some? then pos.value - 1 else |t| - 1;
      if len < 8 || len > 63 then None else Some(Psk(Passphrase(t[1..1 + len])))
    else if |t| != 2 * PMK_LEN then None
    else
      var key := HexBytes(t, PMK_LEN);
      if key.None? then None else Some(Psk(RawPsk(key.value)))
  }

  function MaskValue(read: seq<Word>, t: string): Option<Value> {
    var (m, ok) := MaskField(read, t);
    if ok then Some(Mask(m)) else None
  }

  function CipherMask(allowed: bv16, t: string): Option<Value> {
    var v := CipherField(allowed, t);
    if v.None? then None else Some(Mask(v.value))
  }

  function StringField(max: Option<nat>, t: string): Option<Value> {
    var v := StringValue(t);
    if v.None? || (max.Some? && |v.value| > max.value) then None else Some(Text(v))
  }

  /** The value that a text sets; None for an error. */
  function ParseValue(kind: Kind, t: string): Option<Value> {
    match kind
    case StrLen(max) => if t == "NULL" then Some(Text(None)) else StringField(max, t)
    case Str =>
      if t == "NULL" then Some(Text(None))
      else
        var v := StringValue(t);
        if v.None? then None else Some(Text(Some(CString(v.value))))
    case Int(high) => if high.Some? && Atoi(t) > high.value then None else Some(Number(Atoi(t)))
    case Bssid =>
      if t == "" || t == "\"\"" || t == "any" then Some(Text(None))
      else
        var v := MacValue(t);
        if v.None? then None else Some(Text(v))
    case WepKey => StringField(Some(MAX_WEP_KEY_LEN), t)
    case PskField => PskValue(t)
    case Proto => MaskValue(PROTO_READ, t)
    case KeyMgmt => MaskValue(KEY_MGMT_WORDS, t)
    case Pairwise => CipherMask(PAIRWISE_ALLOWED, t)
    case Group => CipherMask(GROUP_ALLOWED, t)
    case AuthAlg => MaskValue(AUTH_ALG_WORDS, t)
    case FreqList => Some(Frequencies(Some(Freqs(t))))
  }

  // ----- each kind of value comes back

  /** The default a field has in an unset network. */
  ghost predicate GoodDefault(f: Field) {
    match f.kind
    case StrLen(_) => f.def == Text(None)
    case Str => f.def == Text(None)
    case Int(_) => f.def.Number?
    case Bssid => f.def == Text(None)
    case WepKey => f.def == Text(Some(""))
    case PskField => f.def == Psk(NoPsk)
    case AuthAlg => f.def == Mask(0)
    case FreqList => f.def == Frequencies(None) && !f.saved
    case _ => f.def.Mask?
  }

  /** No upper-case word, digit or dash is anything special to the line reader. */
  ghost predicate WordChars(s: string) {
    forall i :: 0 <= i < |s| ==> 'A' <= s[i] <= 'Z' || '0' <= s[i] <= '9' || s[i] == '-'
  }

  predicate PlainChar(c: char) {
    'A' <= c <= 'Z' || 'a' <= c <= 'z' || '0' <= c <= '9' || c == '-' || c == ':' || c == ' '
  }

  ghost predicate PlainChars(s: string) {
    forall i :: 0 <= i < |s| ==> PlainChar(s[i])
  }

  lemma PlainIsGood(t: string)
    requires t != "" && PlainChars(t) && t[|t| - 1] != ' '
    ensures GoodText(t)
  {
  }

  lemma {:induction false} JoinPlain(ws: seq<string>)
    requires forall w :: w in ws ==> WordChars(w) && w != ""
    ensures PlainChars(Join(ws)) && (ws != [] ==> Join(ws) != "" && Join(ws)[|Join(ws)| - 1] != ' ')
  {
    if ws != [] {
      var p, w := ws[..|ws| - 1], ws[|ws| - 1];
      JoinPlain(p);
      assert WordChars(w);
      assert Join(ws)[|Join(ws)| - 1] == w[|w| - 1];
    }
  }

  ghost predicate WordTable(words: seq<Word>) {
    forall i :: 0 <= i < |words| ==> WordChars(words[i].text) && words[i].text != ""
  }

  lemma {:induction false} PresentChars(m: bv16, words: seq<Word>)
    requires WordTable(words)
    ensures forall w :: w in Present(m, words) ==> WordChars(w) && w != ""
  {
    hide And, WordChars;
    if words != [] {
      PresentChars(m, words[..|words| - 1]);
    }
  }

  lemma MaskTextGood(m: bv16, words: seq<Word>)
    requires WordTable(words) && MaskText(m, words) != ""
    ensures GoodText(MaskText(m, words))
  {
    PresentChars(m, words);
    JoinPlain(Present(m, words));
    PlainIsGood(MaskText(m, words));
  }

  lemma ProtoTable()
    ensures WordTable(PROTO_WORDS)
  {
  }

  lemma KeyMgmtTable()
    ensures WordTable(KEY_MGMT_WORDS)
  {
  }

  lemma CipherTable()
    ensures WordTable(CIPHER_WORDS)
  {
  }

  lemma AuthAlgTable()
    ensures WordTable(AUTH_ALG_WORDS)
  {
  }

  lemma MacRoundTrip(mac: string)
    requires |mac| == 6 && Bytes(mac)
    ensures MacValue(MacText(mac)) == Some(mac) && |MacText(mac)| == 17
  {
    hide Hex2Byte, High, Low;
    HexByteBack(mac[0]);
    HexByteBack(mac[1]);
    HexByteBack(mac[2]);
    HexByteBack(mac[3]);
    HexByteBack(mac[4]);
    HexByteBack(mac[5]);
    assert [mac[0], mac[1], mac[2], mac[3], mac[4], mac[5]] == mac;
  }

  lemma MacPlain(mac: string)
    requires |mac| == 6 && Bytes(mac)
    ensures PlainChars(MacText(mac)) && MacText(mac)[16] != ' '
  {
    hide High, Low, PlainChar;
    Colon();
    HexChars(mac[0]);
    HexChars(mac[1]);
    HexChars(mac[2]);
    HexChars(mac[3]);
    HexChars(mac[4]);
    HexChars(mac[5]);
  }

  lemma Colon()
    ensures PlainChar(':')
  {
  }

  lemma HexChars(b: char)
    requires b as int < 256
    ensures PlainChar(High(b)) && PlainChar(Low(b)) && Low(b) != ' '
  {
  }

  lemma NumberGood(n: int)
    ensures Atoi(Decimal.Text(n)) == n && GoodText(Decimal.Text(n)) && Decimal.Text(n) != ""
  {
    hide Digits, Atoi;
    NumberRoundTrip(n, "");
    assert Decimal.Text(n) + "" == Decimal.Text(n);
    DigitsPlain(if n < 0 then -n else n);
    PlainIsGood(Decimal.Text(n));
  }

  lemma DigitsPlain(n: nat)
    ensures Digits(n) != "" && PlainChars(Digits(n)) && Digits(n)[|Digits(n)| - 1] != ' '
  {
  }

  lemma HexTextPlain(s: string)
    requires Bytes(s) && s != ""
    ensures PlainChars(HexText(s)) && HexText(s) != "" && GoodText(HexText(s))
    ensures HexText(s)[0] != '"'
  {
    HexTextDigits(s);
    PlainIsGood(HexText(s));
  }

  lemma QuotedGood(p: string)
    requires Lacks(p, '\0')
    ensures GoodText(Quoted(p)) <==> Lacks(p, '\n')
  {
    LacksConcat("\"" + p, "\"", '\n');
    LacksConcat("\"", p, '\n');
    LacksConcat("\"" + p, "\"", '\0');
    LacksConcat("\"", p, '\0');
  }

  /** What is set from the text of any key is that key; and the text goes through
      the line reader exactly if it is on one line. */
  lemma PskRoundTrip(secret: Secret)
    requires Storable(PskField, Psk(secret)) && secret != NoPsk
    ensures var t := ValueText(PskField, Psk(secret)).value;
            && PskValue(t) == Some(Psk(secret)) && t != ""
            && (GoodText(t) <==> OnOneLine(Psk(secret)))
  {
    match secret
    case Passphrase(p) =>
      var t := Quoted(p);
      LastIndexOfExact(t, '"', 1, |p| + 1);
      QuotedGood(p);
    case RawPsk(key) =>
      HexTextPlain(key);
      HexRoundTrip(key, "");
      assert HexText(key) + "" == HexText(key);
  }

  lemma StringFieldRoundTrip(s: string)
    requires Bytes(s)
    ensures StringValue(StringText(s)) == Some(s) && GoodText(StringText(s)) && StringText(s) !in ["", "NULL"]
    ensures Lacks(s, '\0') ==> CString(s) == s
  {
    StringRoundTrip(s);
    StringTextGood(s);
    if !Printable(s) {
      HexTextDigits(s);
    }
  }

  lemma ListFieldRoundTrip(m: bv16)
    ensures And(m, 3) == m && m != 0 ==> MaskValue(PROTO_READ, MaskText(m, PROTO_WORDS)) == Some(Mask(m))
    ensures And(m, 31) == m && m != 0 ==> MaskValue(KEY_MGMT_WORDS, MaskText(m, KEY_MGMT_WORDS)) == Some(Mask(m))
    ensures And(m, 7) == m && m != 0 ==> MaskValue(AUTH_ALG_WORDS, MaskText(m, AUTH_ALG_WORDS)) == Some(Mask(m))
  {
    hide And, MaskField, MaskText;
    ListsRoundTrip(m);
  }

  lemma NothingReadsAsNoMask(read: seq<Word>)
    ensures MaskValue(read, "") == None
  {
    assert Tokens("") == [];
  }

  /** A mask that is read back as itself was not written as nothing. */
  lemma ListFieldGood(m: bv16, read: seq<Word>, words: seq<Word>)
    requires WordTable(words) && MaskValue(read, MaskText(m, words)) == Some(Mask(m))
    ensures MaskText(m, words) != "" && GoodText(MaskText(m, words))
  {
    hide MaskText, MaskValue, GoodText, WordTable;
    NothingReadsAsNoMask(read);
    MaskTextGood(m, words);
  }

  lemma CipherFieldRoundTrip(m: bv16, allowed: bv16)
    requires allowed == PAIRWISE_ALLOWED || allowed == GROUP_ALLOWED
    requires m != 0 && And(m, allowed) == m
    ensures CipherMask(allowed, MaskText(m, CIPHER_WORDS)) == Some(Mask(m))
    ensures MaskText(m, CIPHER_WORDS) != "" && GoodText(MaskText(m, CIPHER_WORDS))
  {
    hide And, MaskText, CipherField, GoodText, WordTable;
    CiphersRoundTrip(m, allowed);
    CipherTable();
    NoCipher(allowed);
    MaskTextGood(m, CIPHER_WORDS);
  }

  lemma NoCipher(allowed: bv16)
    ensures CipherField(allowed, "") == None
  {
    assert Tokens("") == [];
  }

  /** What is written for a field sets it to its value and, exactly if it is on
      one line, goes through the line reader unharmed. */
  lemma FieldRoundTrip(f: Field, v: Value)
    requires Storable(f.kind, v) && GoodDefault(f)
    ensures var w := Written(f, v);
            w.Some? ==> ParseValue(f.kind, w.value) == Some(v) && (GoodText(w.value) <==> OnOneLine(v))
  {
    hide And, MaskText, MaskValue, CipherMask, PskValue, StringValue, StringText, MacValue, MacText, GoodText;
    hide Atoi, Digits, CString, HexText, Lacks, Bytes, Printable;
    match f.kind
    case StrLen(_) => if v.text.Some? { StringFieldRoundTrip(v.text.value); }
    case Str => if v.text.Some? { StringFieldRoundTrip(v.text.value); }
    case Int(_) => NumberGood(v.n);
    case Bssid => if v.text.Some? { MacGood(v.text.value); }
    case WepKey => if v.text.value != "" { StringFieldRoundTrip(v.text.value); }
    case PskField => if v.secret != NoPsk { PskRoundTrip(v.secret); }
    case _ => if v.Mask? { MaskFieldRoundTrip(f.kind, v); }
  }

  /** A mask comes back from its text; no bits give no text. */
  lemma MaskFieldRoundTrip(kind: Kind, v: Value)
    requires Storable(kind, v) && v.Mask?
    ensures var t := ValueText(kind, v).value;
            && ValueText(kind, v).Some?
            && (v.m == 0 <==> t == "")
            && (v.m != 0 ==> ParseValue(kind, t) == Some(v) && GoodText(t))
  {
    hide And, MaskText, MaskValue, CipherMask, GoodText;
    NoWords();
    if v.m != 0 {
      match kind
      case Proto =>
        ProtoTable();
        ListFieldRoundTrip(v.m);
        ListFieldGood(v.m, PROTO_READ, PROTO_WORDS);
      case KeyMgmt =>
        KeyMgmtTable();
        ListFieldRoundTrip(v.m);
        ListFieldGood(v.m, KEY_MGMT_WORDS, KEY_MGMT_WORDS);
      case AuthAlg =>
        AuthAlgTable();
        ListFieldRoundTrip(v.m);
        ListFieldGood(v.m, AUTH_ALG_WORDS, AUTH_ALG_WORDS);
      case Pairwise => CipherFieldRoundTrip(v.m, PAIRWISE_ALLOWED);
      case Group => CipherFieldRoundTrip(v.m, GROUP_ALLOWED);
    }
  }

  lemma NoWords()
    ensures MaskText(0, PROTO_WORDS) == "" && MaskText(0, KEY_MGMT_WORDS) == ""
    ensures MaskText(0, CIPHER_WORDS) == "" && MaskText(0, AUTH_ALG_WORDS) == ""
  {
    NonePresent(PROTO_WORDS);
    NonePresent(KEY_MGMT_WORDS);
    NonePresent(CIPHER_WORDS);
    NonePresent(AUTH_ALG_WORDS);
  }

  lemma {:induction false} NonePresent(words: seq<Word>)
    ensures Present(0, words) == []
  {
    if words != [] {
      NonePresent(words[..|words| - 1]);
    }
  }

  /** A value survives exactly if it is kept: fields that are never written and
      masks without bits come back as their defaults. */
  lemma RestoredExact(f: Field, v: Value)
    requires Storable(f.kind, v) && GoodDefault(f)
    ensures Restored(f, v) == v <==> Kept(f, v)
  {
    hide And, MaskText, StringText, MacText, Digits, CString, HexText, Lacks, Bytes, Printable, FreqsText;
    if v.Mask? {
      MaskFieldRoundTrip(f.kind, v);
    } else if f.saved {
      TextNonempty(f.kind, v);
    }
  }

  lemma TextNonempty(kind: Kind, v: Value)
    requires Storable(kind, v) && !v.Mask? && !kind.FreqList?
    ensures ValueText(kind, v) != Some("")
  {
    hide Lacks;
    if v.Number? {
      NumberGood(v.n);
    } else if v.Psk? {
      if v.secret != NoPsk {
        PskRoundTrip(v.secret);
      }
    } else if v.text.Some? {
      if kind.Bssid? {
        MacGood(v.text.value);
      } else {
        StringFieldRoundTrip(v.text.value);
      }
    }
  }

  lemma MacGood(mac: string)
    requires |mac| == 6 && Bytes(mac)
    ensures MacValue(MacText(mac)) == Some(mac) && GoodText(MacText(mac))
    ensures |MacText(mac)| == 17
  {
    hide MacValue, MacText;
    MacRoundTrip(mac);
    MacPlain(mac);
    PlainIsGood(MacText(mac));
  }

  // ----- how long a line gets

  /** All fields but strings without a limit. */
  predicate Bounded(kind: Kind) {
    !kind.Str? && (kind.StrLen? ==> kind.max.Some? && kind.max.value <= MAX_SSID_LEN)
  }

  const MAX_TEXT := 66

  lemma StringTextLength(s: string)
    requires Bytes(s)
    ensures |StringText(s)| == if Printable(s) then |s| + 2 else 2 * |s|
  {
  }

  lemma MaskTextLength(m: bv16, words: seq<Word>)
    requires Room(words) <= MAX_TEXT
    ensures |MaskText(m, words)| <= MAX_TEXT
  {
    hide MaskText, Room;
    MaskFits(m, words);
  }

  /** What is written for a field with a limit is short. */
  lemma BoundedText(f: Field, v: Value)
    requires Storable(f.kind, v) && Bounded(f.kind) && GoodDefault(f)
    ensures Written(f, v).Some? ==> |Written(f, v).value| <= MAX_TEXT
  {
    hide And, MaskText, StringText, MacText, Digits, Printable, HexText, Decimal.Text, Lacks, Bytes, Room;
    BuffersSuffice();
    match f.kind
    case StrLen(_) => if v.text.Some? { StringTextLength(v.text.value); }
    case Int(_) => IntLength(v.n);
    case Bssid => if v.text.Some? { MacGood(v.text.value); }
    case WepKey => StringTextLength(v.text.value);
    case PskField => SecretLength(v.secret);
    case Proto => MaskTextLength(v.m, PROTO_WORDS);
    case KeyMgmt => MaskTextLength(v.m, KEY_MGMT_WORDS);
    case Pairwise => MaskTextLength(v.m, CIPHER_WORDS);
    case Group => MaskTextLength(v.m, CIPHER_WORDS);
    case AuthAlg => MaskTextLength(v.m, AUTH_ALG_WORDS);
    case FreqList =>
  }

  lemma SecretLength(secret: Secret)
    requires Storable(PskField, Psk(secret))
    ensures var t := ValueText(PskField, Psk(secret)); t.Some? ==> |t.value| <= MAX_TEXT
  {
  }
}
