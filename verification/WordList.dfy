/** Bit masks as lists of words (wpa_supplicant/config.c), in the build without
    802.11r, 802.11w and WPS. */
module WordList {
  import opened TextBuffer
  import opened Wrappers

  datatype Word = Word(text: string, bit: bv16)

  const PROTO_WORDS := [Word("WPA", 1), Word("RSN", 2)]
  const PROTO_READ := PROTO_WORDS + [Word("WPA2", 2)]
  const KEY_MGMT_WORDS := [Word("WPA-PSK", 2), Word("WPA-EAP", 1), Word("IEEE8021X", 8), Word("NONE", 4),
                           Word("WPA-NONE", 16)]
  const CIPHER_WORDS := [Word("CCMP", 16), Word("TKIP", 8), Word("WEP104", 4), Word("WEP40", 2), Word("NONE", 1)]
  const AUTH_ALG_WORDS := [Word("OPEN", 1), Word("SHARED", 2), Word("LEAP", 4)]

  const PROTO_SIZE := 10
  const KEY_MGMT_SIZE := 50
  const CIPHER_SIZE := 50
  const AUTH_ALG_SIZE := 30

  const PAIRWISE_ALLOWED: bv16 := 16 | 8 | 1
  const GROUP_ALLOWED: bv16 := 16 | 8 | 4 | 2

  // The solver is kept away from the bits by naming the operations on them.

  function And(a: bv16, b: bv16): bv16 { a & b }

  function Or(a: bv16, b: bv16): bv16 { a | b }

  // ----- writing

  /** The words of the bits that are set, in table order. */
  function Present(m: bv16, words: seq<Word>): seq<string> {
    if words == [] then []
    else
      var last := words[|words| - 1];
      Present(m, words[..|words| - 1]) + if And(m, last.bit) != 0 then [last.text] else []
  }

  function Put(text: string, w: string): string {
    if text == "" then w else text + " " + w
  }

  function Join(ws: seq<string>): string {
    if ws == [] then "" else Put(Join(ws[..|ws| - 1]), ws[|ws| - 1])
  }

  function MaskText(m: bv16, words: seq<Word>): string {
    Join(Present(m, words))
  }

  /** The room all words of a table take, with what separates them. */
  function Room(words: seq<Word>): nat {
    if words == [] then 0 else Room(words[..|words| - 1]) + |words[|words| - 1].text| + 1
  }

  lemma PresentStep(m: bv16, words: seq<Word>, i: nat)
    requires i < |words|
    ensures MaskText(m, words[..i + 1])
         == if And(m, words[i].bit) != 0 then Put(MaskText(m, words[..i]), words[i].text) else MaskText(m, words[..i])
    ensures Room(words[..i + 1]) == Room(words[..i]) + |words[i].text| + 1
  {
    assert words[..i + 1][..i] == words[..i];
    var ws, w := Present(m, words[..i]), words[i].text;
    assert (ws + [w])[..|ws|] == ws;
    assert ws + [] == ws;
  }

  lemma {:induction false} RoomGrows(words: seq<Word>, i: nat)
    requires i <= |words|
    ensures Room(words[..i]) <= Room(words)
    decreases |words|
  {
    if i < |words| {
      RoomGrows(words[..|words| - 1], i);
      assert words[..|words| - 1][..i] == words[..i];
    } else {
      assert words[..i] == words;
    }
  }

  /** The words of a mask take no more room than all words of the table. */
  lemma {:induction false} MaskFits(m: bv16, words: seq<Word>)
    ensures MaskText(m, words) == "" || |MaskText(m, words)| < Room(words)
  {
    hide MaskText, Room, And;
    if words == [] {
      NothingPresent(m, words);
      assert words[..0] == words;
    } else {
      var i := |words| - 1;
      MaskFits(m, words[..i]);
      PresentStep(m, words, i);
      NothingPresent(m, words);
      RoomGrows(words, 0);
      assert words[..i + 1] == words;
    }
  }

  /** Appends a word, separated from what is there; it has to fit. */
  method PutWord(buf: Buffer, w: string)
    requires buf.Valid() && |Put(buf.Text(), w)| < buf.data.Length
    modifies buf`pos, buf.data
    ensures buf.Valid() && buf.Text() == Put(old(buf.Text()), w)
  {
    var sep := if buf.pos == 0 then "" else " ";
    ghost var text := buf.Text();
    assert text + (sep + w) == Put(text, w);
    var ok := buf.Print(sep + w);
    if !ok {
      assert false;
    }
  }

  /** Writes the words of a mask into a buffer; none of them is ever cut off.
      The source tests the bits one after the other. */
  method WriteMask(m: bv16, words: seq<Word>, size: nat) returns (buf: Buffer)
    requires 0 < Room(words) <= size
    ensures fresh(buf) && fresh(buf.data) && buf.Valid()
    ensures buf.Text() == MaskText(m, words)
  {
    hide MaskText, Room, And, Put;
    buf := new Buffer(size);
    var i := 0;
    NothingPresent(m, words);
    while i < |words|
      invariant 0 <= i <= |words| && buf.Valid() && buf.data.Length == size
      invariant fresh(buf) && fresh(buf.data)
      invariant buf.Text() == MaskText(m, words[..i])
    {
      PresentStep(m, words, i);
      RoomGrows(words, i + 1);
      MaskFits(m, words[..i + 1]);
      if And(m, words[i].bit) != 0 {
        PutWord(buf, words[i].text);
      }
      i := i + 1;
    }
    assert words[..i] == words;
  }

  lemma NothingPresent(m: bv16, words: seq<Word>)
    ensures MaskText(m, words[..0]) == "" && Room(words[..0]) == 0
  {
  }

  /** Every mask fits the buffer its writer uses. */
  lemma BuffersSuffice()
    ensures 0 < Room(PROTO_WORDS) <= PROTO_SIZE && 0 < Room(KEY_MGMT_WORDS) <= KEY_MGMT_SIZE
    ensures 0 < Room(CIPHER_WORDS) <= CIPHER_SIZE && 0 < Room(AUTH_ALG_WORDS) <= AUTH_ALG_SIZE
  {
    RoomOf2(PROTO_WORDS);
    RoomOf5(KEY_MGMT_WORDS);
    RoomOf5(CIPHER_WORDS);
    RoomOf3(AUTH_ALG_WORDS);
  }

  lemma RoomOf2(w: seq<Word>)
    requires |w| == 2
    ensures Room(w) == |w[0].text| + |w[1].text| + 2
  {
    assert w[..1] == [w[0]] && [w[0]][..0] == [];
    assert Room([w[0]]) == |w[0].text| + 1;
  }

  lemma RoomOf3(w: seq<Word>)
    requires |w| == 3
    ensures Room(w) == |w[0].text| + |w[1].text| + |w[2].text| + 3
  {
    RoomOf2(w[..2]);
  }

  lemma RoomOf5(w: seq<Word>)
    requires |w| == 5
    ensures Room(w) == |w[0].text| + |w[1].text| + |w[2].text| + |w[3].text| + |w[4].text| + 5
  {
    RoomOf3(w[..3]);
    assert w[..4][..3] == w[..3];
    assert Room(w[..4]) == Room(w[..3]) + |w[3].text| + 1;
  }

  // ----- reading

  predicate Separator(c: char) { c == ' ' || c == '\t' }

  /** The length of the word at the front of a text. */
  function TokenLen(s: string, k: nat): (r: nat)
    requires k <= |s|
    ensures k <= r <= |s|
    ensures forall i :: k <= i < r ==> !Separator(s[i])
    ensures r < |s| ==> Separator(s[r])
    decreases |s| - k
  {
    if k == |s| || Separator(s[k]) then k else TokenLen(s, k + 1)
  }

  function Tokens(s: string): seq<string>
    decreases |s|
  {
    if s == "" then []
    else if Separator(s[0]) then Tokens(s[1..])
    else [s[..TokenLen(s, 0)]] + Tokens(s[TokenLen(s, 0)..])
  }

  function BitOf(words: seq<Word>, t: string): Option<bv16> {
    if words == [] then None else if words[0].text == t then Some(words[0].bit) else BitOf(words[1..], t)
  }

  /** All bits of the known words in a list. */
  function MaskOf(words: seq<Word>, ts: seq<string>): bv16 {
    if ts == [] then 0
    else
      var b := BitOf(words, ts[|ts| - 1]);
      Or(MaskOf(words, ts[..|ts| - 1]), if b.Some? then b.value else 0)
  }

  /** What parsing a list comes to: the mask, which is stored in any case, and
      whether the list is accepted. */
  function MaskField(words: seq<Word>, value: string): (bv16, bool) {
    var ts := Tokens(value);
    (MaskOf(words, ts), AllKnown(words, ts) && MaskOf(words, ts) != 0)
  }

  predicate AllKnown(words: seq<Word>, ts: seq<string>) {
    forall t :: t in ts ==> BitOf(words, t).Some?
  }

  /** The next word from a position on, and where to go on; None at the end. */
  method NextToken(value: string, from: nat) returns (token: Option<string>, next: nat)
    requires from <= |value|
    ensures from <= next <= |value|
    ensures token.None? ==> Tokens(value[from..]) == []
    ensures token.Some? ==> from < next && Tokens(value[from..]) == [token.value] + Tokens(value[next..])
  {
    hide Tokens;
    var start := SkipSeparators(value, from);
    if start == |value| {
      NoTokens(value[start..]);
      return None, start;
    }
    var end := start;
    ghost var s := value[start..];
    while end < |value| && !Separator(value[end])
      invariant start <= end <= |value|
      invariant TokenLen(s, 0) == TokenLen(s, end - start)
    {
      end := end + 1;
    }
    assert s[..end - start] == value[start..end] && s[end - start..] == value[end..];
    TokensOf(s);
    if end < |value| {
      TokensOf(value[end..]);
      assert value[end..][1..] == value[end + 1..];
      return Some(value[start..end]), end + 1;
    }
    return Some(value[start..end]), end;
  }

  method SkipSeparators(value: string, from: nat) returns (start: nat)
    requires from <= |value|
    ensures from <= start <= |value| && Tokens(value[from..]) == Tokens(value[start..])
    ensures start < |value| ==> !Separator(value[start])
  {
    start := from;
    while start < |value| && Separator(value[start])
      invariant from <= start <= |value|
      invariant Tokens(value[from..]) == Tokens(value[start..])
    {
      assert value[start..][1..] == value[start + 1..];
      start := start + 1;
    }
  }

  lemma NoTokens(s: string)
    requires s == ""
    ensures Tokens(s) == []
  {
  }

  lemma TokensOf(s: string)
    requires s != ""
    ensures Tokens(s) == if Separator(s[0]) then Tokens(s[1..])
                         else [s[..TokenLen(s, 0)]] + Tokens(s[TokenLen(s, 0)..])
  {
  }

  /** Reads a word list. The mask is stored even when the result is an error. */
  method ParseMask(value: string, words: seq<Word>) returns (val: bv16, ok: bool)
    ensures (val, ok) == MaskField(words, value)
  {
    hide Tokens, And, Or, MaskOf, BitOf;
    SeeNothing(words);
    var errors, start := 0, 0;
    val := 0;
    ghost var seen: seq<string> := [];
    assert value[0..] == value;
    while true
      invariant start <= |value| && seen + Tokens(value[start..]) == Tokens(value)
      invariant val == MaskOf(words, seen)
      invariant errors == 0 <==> AllKnown(words, seen)
      decreases |value| - start
    {
      var token, next := NextToken(value, start);
      if token.None? {
        break;
      }
      var bit := BitOf(words, token.value);
      if bit.Some? {
        val := Or(val, bit.value);
      } else {
        errors := errors + 1;
        OrNothing(val);
      }
      SeeToken(words, seen, token.value);
      seen := seen + [token.value];
      start := next;
    }
    assert seen == Tokens(value);
    if val == 0 {
      errors := errors + 1;
    }
    ok := errors == 0;
  }

  lemma SeeNothing(words: seq<Word>)
    ensures MaskOf(words, []) == 0
  {
  }

  lemma SeeToken(words: seq<Word>, seen: seq<string>, t: string)
    ensures MaskOf(words, seen + [t])
         == Or(MaskOf(words, seen), if BitOf(words, t).Some? then BitOf(words, t).value else 0)
    ensures AllKnown(words, seen + [t]) <==> AllKnown(words, seen) && BitOf(words, t).Some?
  {
    assert (seen + [t])[..|seen|] == seen;
    assert t in seen + [t];
  }

  /** Reads a cipher list; the first unknown word ends it. */
  method ParseCipher(value: string) returns (val: Option<bv16>)
    ensures val == CipherValue(value)
  {
    hide Tokens, BitOf, And, Or, MaskOf;
    SeeNothing(CIPHER_WORDS);
    var start, bits: bv16 := 0, 0;
    ghost var seen: seq<string> := [];
    assert value[0..] == value;
    while true
      invariant start <= |value| && seen + Tokens(value[start..]) == Tokens(value)
      invariant bits == MaskOf(CIPHER_WORDS, seen) && AllKnown(CIPHER_WORDS, seen)
      decreases |value| - start
    {
      var token, next := NextToken(value, start);
      if token.None? {
        break;
      }
      SeeToken(CIPHER_WORDS, seen, token.value);
      var bit := BitOf(CIPHER_WORDS, token.value);
      if bit.None? {
        assert token.value in Tokens(value);
        return None;
      }
      bits := Or(bits, bit.value);
      seen := seen + [token.value];
      start := next;
    }
    assert seen == Tokens(value);
    return if bits == 0 then None else Some(bits);
  }

  function CipherValue(value: string): Option<bv16> {
    var ts := Tokens(value);
    if AllKnown(CIPHER_WORDS, ts) && MaskOf(CIPHER_WORDS, ts) != 0 then Some(MaskOf(CIPHER_WORDS, ts)) else None
  }

  // ----- the round trip

  ghost predicate IsToken(w: string) {
    w != "" && forall i :: 0 <= i < |w| ==> !Separator(w[i])
  }

  lemma TokensOfToken(w: string)
    requires IsToken(w)
    ensures Tokens(w) == [w]
  {
    assert TokenLen(w, 0) == |w|;
    assert w[..|w|] == w && w[|w|..] == "";
  }

  lemma TokenLenPrefix(a: string, b: string)
    requires b != "" && Separator(b[0])
    ensures TokenLen(a + b, 0) == TokenLen(a, 0)
  {
    var n := TokenLen(a, 0);
    assert forall i :: 0 <= i < |a| ==> (a + b)[i] == a[i];
    assert (a + b)[|a|] == b[0];
  }

  lemma {:induction false} TokensConcat(a: string, b: string)
    requires b != "" && Separator(b[0])
    ensures Tokens(a + b) == Tokens(a) + Tokens(b)
    decreases |a|
  {
    if a == "" {
      assert a + b == b;
    } else if Separator(a[0]) {
      TokensConcat(a[1..], b);
      assert (a + b)[1..] == a[1..] + b;
    } else {
      var n := TokenLen(a, 0);
      TokenLenPrefix(a, b);
      assert (a + b)[..n] == a[..n] && (a + b)[n..] == a[n..] + b;
      TokensConcat(a[n..], b);
    }
  }

  lemma {:induction false} TokensOfJoin(ws: seq<string>)
    requires forall w :: w in ws ==> IsToken(w)
    ensures Tokens(Join(ws)) == ws && (Join(ws) == "" <==> ws == [])
  {
    if ws != [] {
      var p, w := ws[..|ws| - 1], ws[|ws| - 1];
      hide Tokens;
      TokensOfJoin(p);
      assert IsToken(w);
      TokensOfToken(w);
      if p != [] {
        assert Join(ws) == Join(p) + (" " + w);
        hide Join;
        TokensConcat(Join(p), " " + w);
        TokensOf(" " + w);
        assert (" " + w)[1..] == w;
      }
    }
  }

  function AllBits(words: seq<Word>): bv16 {
    if words == [] then 0 else Or(AllBits(words[..|words| - 1]), words[|words| - 1].bit)
  }

  ghost predicate Single(b: bv16) {
    forall m :: And(m, b) == 0 || And(m, b) == b
  }

  /** The words of one table are read by another as what they stand for. */
  ghost predicate ReadsAs(read: seq<Word>, words: seq<Word>) {
    forall w :: w in words ==> IsToken(w.text) && Single(w.bit) && BitOf(read, w.text) == Some(w.bit)
  }

  lemma Bits(m: bv16, a: bv16, b: bv16)
    ensures (m & a) | (m & b) == m & (a | b)
  {
  }

  lemma AndIs(a: bv16, b: bv16)
    ensures And(a, b) == a & b
  {
  }

  lemma OrIs(a: bv16, b: bv16)
    ensures Or(a, b) == a | b
  {
  }

  lemma OrBits(m: bv16, a: bv16, b: bv16)
    ensures Or(And(m, a), And(m, b)) == And(m, Or(a, b))
  {
    hide And, Or;
    AndIs(m, a);
    AndIs(m, b);
    OrIs(a, b);
    OrIs(And(m, a), And(m, b));
    AndIs(m, Or(a, b));
    Bits(m, a, b);
  }

  lemma {:induction false} PresentReads(m: bv16, read: seq<Word>, words: seq<Word>)
    requires ReadsAs(read, words)
    ensures MaskOf(read, Present(m, words)) == And(m, AllBits(words))
    ensures AllKnown(read, Present(m, words)) && forall t :: t in Present(m, words) ==> IsToken(t)
  {
    hide IsToken, BitOf, And, Or;
    if words == [] {
      AndNothing(m);
    } else {
      var p, w := words[..|words| - 1], words[|words| - 1];
      PresentReads(m, read, p);
      assert w in words;
      OrBits(m, AllBits(p), w.bit);
      SeeToken(read, Present(m, p), w.text);
      OrNothing(And(m, AllBits(p)));
      assert And(m, w.bit) == 0 || And(m, w.bit) == w.bit;
      assert Present(m, p) + [] == Present(m, p);
    }
  }

  lemma AndNothing(a: bv16)
    ensures And(a, 0) == 0
  {
  }

  lemma OrNothing(a: bv16)
    ensures Or(a, 0) == a
  {
  }

  /** Reading a written mask gives its bits that have a word, and is an error
      exactly if there are none. */
  lemma MaskRoundTrip(m: bv16, read: seq<Word>, words: seq<Word>)
    requires ReadsAs(read, words)
    ensures MaskField(read, MaskText(m, words)) == (And(m, AllBits(words)), And(m, AllBits(words)) != 0)
    ensures AllKnown(read, Tokens(MaskText(m, words)))
  {
    hide IsToken, And, Or;
    PresentReads(m, read, words);
    TokensOfJoin(Present(m, words));
  }

  // ----- the fields

  /** A cipher list with nothing but allowed ciphers. */
  function CipherField(allowed: bv16, value: string): Option<bv16> {
    var v := CipherValue(value);
    if v.Some? && And(v.value, allowed) != v.value then None else v
  }

  method ParsePairwise(value: string) returns (r: Option<bv16>)
    ensures r == CipherField(PAIRWISE_ALLOWED, value)
  {
    hide And;
    r := ParseCipher(value);
    if r.Some? {
      MaskedOut(r.value);
      if And(r.value, !PAIRWISE_ALLOWED) != 0 {
        return None;
      }
    }
  }

  method ParseGroup(value: string) returns (r: Option<bv16>)
    ensures r == CipherField(GROUP_ALLOWED, value)
  {
    hide And;
    r := ParseCipher(value);
    if r.Some? {
      MaskedOut(r.value);
      if And(r.value, !GROUP_ALLOWED) != 0 {
        return None;
      }
    }
  }

  lemma MaskedOut(v: bv16)
    ensures And(v, !PAIRWISE_ALLOWED) == 0 <==> And(v, PAIRWISE_ALLOWED) == v
    ensures And(v, !GROUP_ALLOWED) == 0 <==> And(v, GROUP_ALLOWED) == v
  {
    hide And;
    AndIs(v, !PAIRWISE_ALLOWED);
    AndIs(v, PAIRWISE_ALLOWED);
    AndIs(v, !GROUP_ALLOWED);
    AndIs(v, GROUP_ALLOWED);
  }

  lemma SingleBits()
    ensures Single(1) && Single(2) && Single(4) && Single(8) && Single(16)
  {
    hide And;
    forall m: bv16
      ensures And(m, 1) == 0 || And(m, 1) == 1
      ensures And(m, 2) == 0 || And(m, 2) == 2
      ensures And(m, 4) == 0 || And(m, 4) == 4
      ensures And(m, 8) == 0 || And(m, 8) == 8
      ensures And(m, 16) == 0 || And(m, 16) == 16
    {
      AndIs(m, 1);
      AndIs(m, 2);
      AndIs(m, 4);
      AndIs(m, 8);
      AndIs(m, 16);
    }
  }

  /** Looking up the word at a position finds that word if no earlier one is the same. */
  lemma {:induction false} BitOfAt(words: seq<Word>, i: nat)
    requires i < |words| && forall j :: 0 <= j < i ==> words[j].text != words[i].text
    ensures BitOf(words, words[i].text) == Some(words[i].bit)
    decreases |words|
  {
    if i > 0 {
      BitOfAt(words[1..], i - 1);
    }
  }

  lemma TableReads(read: seq<Word>, words: seq<Word>)
    requires words <= read
    requires forall i, j :: 0 <= i < j < |words| ==> words[i].text != words[j].text
    requires forall i :: 0 <= i < |words| ==> IsToken(words[i].text) && Single(words[i].bit)
    ensures ReadsAs(read, words)
  {
    forall w | w in words
      ensures BitOf(read, w.text) == Some(w.bit)
    {
      var i :| 0 <= i < |words| && words[i] == w;
      BitOfAt(read, i);
    }
  }

  lemma ProtoReads()
    ensures ReadsAs(PROTO_READ, PROTO_WORDS)
  {
    hide Single, BitOf, ReadsAs, And, Or;
    SingleBits();
    assert PROTO_READ[..2] == PROTO_WORDS;
    TableReads(PROTO_READ, PROTO_WORDS);
  }

  lemma KeyMgmtReads()
    ensures ReadsAs(KEY_MGMT_WORDS, KEY_MGMT_WORDS)
  {
    hide Single, BitOf, ReadsAs, And, Or;
    SingleBits();
    TableReads(KEY_MGMT_WORDS, KEY_MGMT_WORDS);
  }

  lemma CipherReads()
    ensures ReadsAs(CIPHER_WORDS, CIPHER_WORDS)
  {
    hide Single, BitOf, ReadsAs, And, Or;
    SingleBits();
    TableReads(CIPHER_WORDS, CIPHER_WORDS);
  }

  lemma AuthAlgReads()
    ensures ReadsAs(AUTH_ALG_WORDS, AUTH_ALG_WORDS)
  {
    hide Single, BitOf, ReadsAs, And, Or;
    SingleBits();
    TableReads(AUTH_ALG_WORDS, AUTH_ALG_WORDS);
  }

  lemma TableBits()
    ensures AllBits(PROTO_WORDS) == 3 && AllBits(KEY_MGMT_WORDS) == 31
    ensures AllBits(CIPHER_WORDS) == 31 && AllBits(AUTH_ALG_WORDS) == 7
  {
    hide Or;
    Bits2(PROTO_WORDS);
    Bits5(KEY_MGMT_WORDS);
    Bits5(CIPHER_WORDS);
    Bits3(AUTH_ALG_WORDS);
    OrIs(1, 2);
    OrIs(2, 1);
    OrIs(3, 8);
    OrIs(11, 4);
    OrIs(15, 16);
    OrIs(16, 8);
    OrIs(24, 4);
    OrIs(28, 2);
    OrIs(30, 1);
    OrIs(3, 4);
  }

  lemma Bits2(w: seq<Word>)
    requires |w| == 2
    ensures AllBits(w) == Or(w[0].bit, w[1].bit)
  {
    hide Or;
    assert w[..1] == [w[0]] && [w[0]][..0] == [];
    AndIs(0, 0);
    OrIs(0, w[0].bit);
    assert AllBits([w[0]]) == Or(0, w[0].bit);
  }

  lemma Bits3(w: seq<Word>)
    requires |w| == 3
    ensures AllBits(w) == Or(Or(w[0].bit, w[1].bit), w[2].bit)
  {
    Bits2(w[..2]);
  }

  lemma Bits5(w: seq<Word>)
    requires |w| == 5
    ensures AllBits(w) == Or(Or(Or(Or(w[0].bit, w[1].bit), w[2].bit), w[3].bit), w[4].bit)
  {
    Bits3(w[..3]);
    assert w[..4][..3] == w[..3];
    assert AllBits(w[..4]) == Or(AllBits(w[..3]), w[3].bit);
  }

  /** Exactly the masks that are not 0 and have only bits with a word come back
      and are accepted: of three protocols, five kinds of key management, three
      authentication algorithms. */
  lemma ListsRoundTrip(m: bv16)
    ensures MaskField(PROTO_READ, MaskText(m, PROTO_WORDS)) == (m, true) <==> m != 0 && And(m, 3) == m
    ensures MaskField(KEY_MGMT_WORDS, MaskText(m, KEY_MGMT_WORDS)) == (m, true) <==> m != 0 && And(m, 31) == m
    ensures MaskField(AUTH_ALG_WORDS, MaskText(m, AUTH_ALG_WORDS)) == (m, true) <==> m != 0 && And(m, 7) == m
  {
    hide And, Or, MaskField, Tokens, MaskText, ReadsAs, AllBits;
    ProtoReads();
    KeyMgmtReads();
    AuthAlgReads();
    TableBits();
    MaskRoundTrip(m, PROTO_READ, PROTO_WORDS);
    MaskRoundTrip(m, KEY_MGMT_WORDS, KEY_MGMT_WORDS);
    MaskRoundTrip(m, AUTH_ALG_WORDS, AUTH_ALG_WORDS);
  }

  /** Cipher fields come back exactly when they hold an allowed cipher and no other. */
  lemma CiphersRoundTrip(m: bv16, allowed: bv16)
    requires allowed == PAIRWISE_ALLOWED || allowed == GROUP_ALLOWED
    ensures CipherField(allowed, MaskText(m, CIPHER_WORDS)) == Some(m) <==> m != 0 && And(m, allowed) == m
  {
    hide And, Or, MaskOf, Tokens, MaskText, ReadsAs, AllBits;
    CipherReads();
    TableBits();
    MaskRoundTrip(m, CIPHER_WORDS, CIPHER_WORDS);
    Narrower(m);
  }

  lemma Narrower(m: bv16)
    ensures And(m, PAIRWISE_ALLOWED) == m ==> And(m, 31) == m
    ensures And(m, GROUP_ALLOWED) == m ==> And(m, 31) == m
  {
    hide And;
    AndIs(m, PAIRWISE_ALLOWED);
    AndIs(m, GROUP_ALLOWED);
    AndIs(m, 31);
  }
}
