/** Networks that were read from a file, written and read again
    (wpa_supplicant/config_file.c). */
module ConfigRewrite {
  import opened ConfigBlock
  import opened ConfigFile
  import opened ConfigLine
  import opened ConfigNetwork
  import opened ConfigRead
  import opened ConfigString
  import opened Decimal
  import opened FreqText
  import opened WordList
  import opened Wrappers

  /** Where the value has numbers, they are values of an int. */
  ghost predicate Ints(v: Value) {
    && (v.Number? ==> FitsInt(v.n))
    && (v.Frequencies? && v.freqs.Some? ==> forall i :: 0 <= i < |v.freqs.value| ==> FitsInt(v.freqs.value[i]))
  }

  // ----- lines

  /** A line has bytes only, and no zero, when the file has bytes only. */
  lemma ContentBytes(chunk: string)
    requires Bytes(chunk) && Content(chunk).Some?
    ensures Bytes(Content(chunk).value) && Lacks(Content(chunk).value, '\0')
  {
    hide Content;
    var l := Content(chunk).value;
    forall i | 0 <= i < |l|
      ensures l[i] as int < 256
    {
      ContentWithin(chunk, l[i]);
      assert !Lacks(chunk, l[i]);
    }
    ContentNoNul(chunk);
  }

  lemma ContentNoNul(chunk: string)
    requires Content(chunk).Some?
    ensures Lacks(Content(chunk).value, '\0')
  {
    hide StripComment, TrimRight, DropBlanks;
    var s := DropBlanks(CString(chunk));
    DropBlanksLacks(CString(chunk), '\0');
    Shortens(s);
  }

  lemma {:induction false} LineBytes(input: string)
    requires Bytes(input)
    ensures var l := GetLine(input);
            l.Some? ==> Bytes(l.value.0) && Lacks(l.value.0, '\0') && Bytes(l.value.1)
    decreases |input|
  {
    hide Content, ChunkLen;
    if input != "" {
      ChunkNewline(input);
      var n := ChunkLen(input);
      if Content(input[..n]).None? {
        LineBytes(input[n..]);
      } else {
        ContentBytes(input[..n]);
      }
    }
  }

  // ----- values

  lemma StringBytes(t: string)
    requires Bytes(t)
    ensures StringValue(t).Some? ==> Bytes(StringValue(t).value)
  {
  }

  lemma CStringBytes(s: string)
    requires Bytes(s)
    ensures Bytes(CString(s)) && Lacks(CString(s), '\0')
  {
    assert CString(s) <= s;
  }

  lemma MacBytes(t: string)
    ensures MacValue(t).Some? ==> |MacValue(t).value| == 6 && Bytes(MacValue(t).value)
  {
  }

  lemma PskStorable(t: string)
    requires Bytes(t) && Lacks(t, '\0')
    ensures PskValue(t).Some? ==> Storable(PskField, PskValue(t).value)
  {
  }

  lemma OrWithin(a: bv16, b: bv16, all: bv16)
    requires And(a, all) == a && And(b, all) == b
    ensures And(Or(a, b), all) == Or(a, b)
  {
  }

  ghost predicate Within(words: seq<Word>, all: bv16) {
    forall i :: 0 <= i < |words| ==> And(words[i].bit, all) == words[i].bit
  }

  lemma {:induction false} BitWithin(words: seq<Word>, t: string, all: bv16)
    requires Within(words, all)
    ensures BitOf(words, t).Some? ==> And(BitOf(words, t).value, all) == BitOf(words, t).value
  {
    hide And;
    if words != [] {
      BitWithin(words[1..], t, all);
    }
  }

  lemma NoBits(all: bv16)
    ensures And(0, all) == 0
  {
  }

  lemma {:induction false} MaskWithin(words: seq<Word>, ts: seq<string>, all: bv16)
    requires Within(words, all)
    ensures And(MaskOf(words, ts), all) == MaskOf(words, ts)
  {
    hide And, Or, Within, BitOf;
    NoBits(all);
    if ts != [] {
      var t := ts[|ts| - 1];
      MaskWithin(words, ts[..|ts| - 1], all);
      BitWithin(words, t, all);
      OrWithin(MaskOf(words, ts[..|ts| - 1]), if BitOf(words, t).Some? then BitOf(words, t).value else 0, all);
    }
  }

  lemma TablesWithin()
    ensures Within(PROTO_READ, 3) && Within(KEY_MGMT_WORDS, 31) && Within(AUTH_ALG_WORDS, 7)
  {
  }

  lemma {:induction false} FreqsNonzero(s: string)
    ensures forall i :: 0 <= i < |Freqs(s)| ==> Freqs(s)[i] != 0
    decreases |s|
  {
    hide Atoi, IndexOf, SkipSpaces;
    FreqsStep(s);
    SpacesSkipped(s);
    var t := SkipSpaces(s);
    if Atoi(t) != 0 {
      NextSpaceAt(t);
      var space := IndexOf(t, ' ', 1);
      if space < |t| {
        FreqsNonzero(t[space..]);
      }
    }
  }

  lemma SpacesSkipped(s: string)
    ensures |SkipSpaces(s)| <= |s|
  {
  }

  lemma NextSpaceAt(t: string)
    requires t != ""
    ensures 1 <= IndexOf(t, ' ', 1) <= |t|
  {
  }

  /** What a line of bytes sets, the program can hold. */
  lemma ParsedStorable(kind: Kind, t: string)
    requires Bytes(t) && Lacks(t, '\0')
    ensures var v := ParseValue(kind, t); v.Some? && Ints(v.value) ==> Storable(kind, v.value)
  {
    hide And, Tokens, MaskOf, AllKnown, StringValue, CString, MacValue, PskValue, Freqs, Atoi, Bytes, Lacks,
         CipherValue;
    StringBytes(t);
    match kind
    case Str => if StringValue(t).Some? { CStringBytes(StringValue(t).value); }
    case Bssid => MacBytes(t);
    case PskField => PskStorable(t);
    case Proto =>
      TablesWithin();
      MaskWithin(PROTO_READ, Tokens(t), 3);
    case KeyMgmt =>
      TablesWithin();
      MaskWithin(KEY_MGMT_WORDS, Tokens(t), 31);
    case AuthAlg =>
      TablesWithin();
      MaskWithin(AUTH_ALG_WORDS, Tokens(t), 7);
    case FreqList => FreqsNonzero(t);
    case _ =>
  }

  /** Storable, as far as the numbers in it are. */
  ghost predicate Stored(kind: Kind, v: Value) {
    Ints(v) ==> Storable(kind, v)
  }

  ghost predicate StoredAll(table: seq<Field>, vs: Values) {
    |vs| == |table| && forall i :: 0 <= i < |table| ==> Stored(table[i].kind, vs[i])
  }

  lemma SetStored(table: seq<Field>, cur: Values, l: string)
    requires StoredAll(table, cur) && Bytes(l) && Lacks(l, '\0')
    ensures var n := SetLine(table, cur, l); n.Some? ==> StoredAll(table, n.value)
  {
    hide ParseValue, Stored, FieldIndex;
    var nv := SplitLine(l);
    if nv.Some? {
      FieldIndexAt(table, nv.value.0);
      var k := FieldIndex(table, nv.value.0, 0);
      if k < |table| {
        ParsedStored(table[k].kind, nv.value.1);
      }
    }
  }

  lemma ParsedStored(kind: Kind, t: string)
    requires Bytes(t) && Lacks(t, '\0')
    ensures ParseValue(kind, t).Some? ==> Stored(kind, ParseValue(kind, t).value)
  {
    hide ParseValue, Storable, Ints;
    ParsedStorable(kind, t);
  }

  lemma {:induction false} ReadStored(table: seq<Field>, cur: Values, ok: bool, input: string)
    requires StoredAll(table, cur) && Bytes(input)
    ensures StoredAll(table, ReadFields(table, cur, ok, input).values)
    decreases |input|
  {
    hide GetLine, SetLine, Stored, Bytes, Lacks;
    Shrinks(input);
    LineBytes(input);
    var l := GetLine(input);
    if l.Some? && l.value.0 != "}" {
      SetStored(table, cur, l.value.0);
      SetKeepsLength(table, cur, l.value.0);
      var n := SetLine(table, cur, l.value.0);
      if n.None? {
        ReadStored(table, cur, false, l.value.1);
      } else {
        ReadStored(table, n.value, ok, l.value.1);
      }
    }
  }

  lemma DefaultsStored()
    ensures StoredAll(FIELDS, Defaults(FIELDS))
  {
    TableOk();
    forall i | 0 <= i < |FIELDS|
      ensures Stored(FIELDS[i].kind, FIELDS[i].def)
    {
      DefaultStored(i);
    }
  }

  lemma DefaultStored(i: nat)
    requires i < |FIELDS|
    ensures Storable(FIELDS[i].kind, FIELDS[i].def)
  {
    hide And, Lacks, Entries;
    MaskDefaults();
    NoBits(7);
    var f := FIELDS[i];
    if f.kind.Int? {
      assert f.def == Number(0) && (f.kind.high.Some? ==> f.kind.high.value > 0);
    }
  }

  lemma MaskDefaults()
    ensures And(1 | 2, 3) == 1 | 2 && And(2 | 1, 31) == 2 | 1
    ensures And(16 | 8, PAIRWISE_ALLOWED) == 16 | 8 && And(16 | 8 | 4 | 2, GROUP_ALLOWED) == 16 | 8 | 4 | 2
  {
  }

  // ----- what is not written

  /** A network with nothing set is written as an empty block. */
  lemma NothingWritten()
    ensures StorableAll(FIELDS, Defaults(FIELDS)) && WriteNetwork(Defaults(FIELDS)) == "}\n"
  {
    hide Storable, BlockText, FIELDS, LineText, GoodDefault, GoodName;
    TableOk();
    forall i | 0 <= i < |FIELDS|
      ensures Storable(FIELDS[i].kind, FIELDS[i].def) && LineText(FIELDS[i], FIELDS[i].def) == ""
    {
      DefaultStored(i);
      DefaultUnwritten(FIELDS[i]);
    }
    NoLines(0);
  }

  lemma DefaultUnwritten(f: Field)
    requires GoodDefault(f) && Storable(f.kind, f.def)
    ensures LineText(f, f.def) == ""
  {
  }

  lemma {:induction false} NoLines(i: nat)
    requires i <= |FIELDS| && StorableAll(FIELDS, Defaults(FIELDS))
    requires forall k :: 0 <= k < |FIELDS| ==> LineText(FIELDS[k], FIELDS[k].def) == ""
    ensures BlockText(FIELDS, Defaults(FIELDS), i) == ""
    decreases |FIELDS| - i
  {
    hide Storable, FIELDS, LineText;
    if i < |FIELDS| {
      NoLines(i + 1);
    }
  }

  // ----- networks

  lemma GroupWithin(m: bv16)
    requires And(m, GROUP_ALLOWED) == m
    ensures And(And(m, !CCMP), GROUP_ALLOWED) == And(m, !CCMP) && And(And(m, !CCMP), CCMP) == 0
  {
  }

  /** What the checks let through is acceptable, and can be held if it could before. */
  lemma ValidatedStored(vs: Values)
    requires Shaped(vs) && StoredAll(FIELDS, vs) && Validated(vs).Some?
    ensures StoredAll(FIELDS, Validated(vs).value) && Acceptable(Validated(vs).value)
  {
    hide And, Stored;
    GroupKind();
    if GroupTooStrong(vs) {
      GroupStored(vs);
      GroupWithin(vs[GROUP_AT].m);
    }
  }

  lemma GroupKind()
    ensures |FIELDS| > GROUP_AT && FIELDS[GROUP_AT].kind == Group
  {
  }

  lemma GroupStored(vs: Values)
    requires Shaped(vs) && StoredAll(FIELDS, vs)
    ensures And(vs[GROUP_AT].m, GROUP_ALLOWED) == vs[GROUP_AT].m
    ensures Stored(Group, Mask(And(vs[GROUP_AT].m, !CCMP)))
  {
    hide And;
    assert Stored(FIELDS[GROUP_AT].kind, vs[GROUP_AT]);
    GroupWithin(vs[GROUP_AT].m);
  }

  /** Every network in a file, but for numbers that are no ints, is one the program can hold. */
  lemma ReadStorable(input: string, vs: Values)
    requires Bytes(input) && ReadNetwork(input).0 == Some(vs)
    requires |vs| == |FIELDS| && forall i :: 0 <= i < |FIELDS| ==> Ints(vs[i])
    ensures StorableAll(FIELDS, vs) && Acceptable(vs)
  {
    hide ReadFields, Storable, Ints, And, Bytes, Acceptable;
    DefaultsStored();
    ReadStored(FIELDS, Defaults(FIELDS), true, input);
    ReadIsShaped(input);
    ValidatedStored(ReadFields(FIELDS, Defaults(FIELDS), true, input).values);
    forall i | 0 <= i < |FIELDS|
      ensures Storable(FIELDS[i].kind, vs[i])
    {
      assert Stored(FIELDS[i].kind, vs[i]);
    }
  }

  /** A network that was read from some file survives being written and read again
      exactly when the line of its id_str fits, the checks left it a group cipher,
      and nothing is set that is never written. */
  lemma RewriteExact(input: string, vs: Values, rest: string)
    requires Bytes(input) && ReadNetwork(input).0 == Some(vs)
    requires |vs| == |FIELDS| && forall i :: 0 <= i < |FIELDS| ==> Ints(vs[i])
    ensures StorableAll(FIELDS, vs) && Shaped(vs) && ID_STR_AT < |FIELDS|
    ensures ReadNetwork(WriteNetwork(vs) + rest).0 == Some(vs)
       <==> && Fits(FIELDS[ID_STR_AT], vs[ID_STR_AT])
            && vs[GROUP_AT].m != 0
            && forall i :: ID_STR_AT < i < |FIELDS| ==> vs[i] == FIELDS[i].def
  {
    hide ReadNetwork, Storable, Ints, And, Bytes, Acceptable, WriteNetwork, FitsAll, Fits, OnOneLineAll, KeptAll,
         OnOneLine;
    BoundedFields();
    ReadStorable(input, vs);
    ReadNetworkExact(input, vs);
    NetworkRoundTrip(vs, rest);
    OnlyIdStrCut(vs);
    OnlyPskOnTwoLines(vs);
    KeptFields(vs);
  }
}
