/** The networks of a configuration file, in the build without EAP: the table of
    fields, the checks on a block that was read, and the list of blocks
    (wpa_supplicant/config.c, config_file.c). */
module ConfigFile {
  import opened ConfigBlock
  import opened ConfigCut
  import opened ConfigLine
  import opened ConfigNetwork
  import opened ConfigRead
  import opened ConfigString
  import opened FreqText
  import opened WordList
  import opened Wrappers

  /** The fields with their defaults, in the order in which they are written;
      the last six are read but never written. */
  const FIELDS := [
    Field("ssid", StrLen(Some(MAX_SSID_LEN)), Text(None), true),
    Field("scan_ssid", Int(Some(1)), Number(0), true),
    Field("bssid", Bssid, Text(None), true),
    Field("psk", PskField, Psk(NoPsk), true),
    Field("proto", Proto, Mask(1 | 2), true),
    Field("key_mgmt", KeyMgmt, Mask(2 | 1), true),
    Field("pairwise", Pairwise, Mask(16 | 8), true),
    Field("group", Group, Mask(16 | 8 | 4 | 2), true),
    Field("auth_alg", AuthAlg, Mask(0), true),
    Field("wep_key0", WepKey, Text(Some("")), true),
    Field("wep_key1", WepKey, Text(Some("")), true),
    Field("wep_key2", WepKey, Text(Some("")), true),
    Field("wep_key3", WepKey, Text(Some("")), true),
    Field("wep_tx_keyidx", Int(None), Number(0), true),
    Field("priority", Int(None), Number(0), true),
    Field("mode", Int(Some(4)), Number(0), true),
    Field("proactive_key_caching", Int(Some(1)), Number(0), true),
    Field("disabled", Int(Some(2)), Number(0), true),
    Field("peerkey", Int(Some(1)), Number(0), true),
    Field("id_str", Str, Text(None), true),
    Field("scan_freq", FreqList, Frequencies(None), false),
    Field("freq_list", FreqList, Frequencies(None), false),
    Field("mixed_cell", Int(Some(1)), Number(0), false),
    Field("frequency", Int(Some(10000)), Number(0), false),
    Field("wpa_ptk_rekey", Int(None), Number(0), false),
    Field("bgscan", Str, Text(None), false)]

  const PSK_AT := 3
  const PROTO_AT := 4
  const KEY_MGMT_AT := 5
  const PAIRWISE_AT := 6
  const GROUP_AT := 7
  const DISABLED_AT := 17
  const ID_STR_AT := 19

  const ANY_PSK: bv16 := 2 | 64 | 256
  const CCMP: bv16 := 16
  const NO_CIPHER: bv16 := 1

  lemma TableOk()
    ensures WellFormed(FIELDS)
  {
    hide GoodName, GoodDefault;
    NamesDiffer();
    NamesGood();
    DefaultsGood();
  }

  lemma NamesGood()
    ensures forall i :: 0 <= i < |FIELDS| ==> GoodName(FIELDS[i].name)
  {
    hide GoodName;
    LettersGood();
    OthersGood();
    UnsavedGood();
  }

  lemma LettersGood()
    ensures GoodName("ssid") && GoodName("bssid") && GoodName("psk") && GoodName("proto") && GoodName("pairwise")
    ensures GoodName("group") && GoodName("priority") && GoodName("mode") && GoodName("disabled") && GoodName("peerkey")
  {
  }

  lemma UnsavedGood()
    ensures GoodName("scan_freq") && GoodName("freq_list") && GoodName("mixed_cell") && GoodName("frequency")
    ensures GoodName("wpa_ptk_rekey") && GoodName("bgscan")
  {
  }

  lemma OthersGood()
    ensures GoodName("scan_ssid") && GoodName("key_mgmt") && GoodName("auth_alg") && GoodName("id_str")
    ensures GoodName("wep_key0") && GoodName("wep_key1") && GoodName("wep_key2") && GoodName("wep_key3")
    ensures GoodName("wep_tx_keyidx") && GoodName("proactive_key_caching")
  {
  }

  lemma DefaultsGood()
    ensures forall i :: 0 <= i < |FIELDS| ==> GoodDefault(FIELDS[i])
  {
  }

  lemma NamesDiffer()
    ensures forall i, j :: 0 <= i < j < |FIELDS| ==> FIELDS[i].name != FIELDS[j].name
  {
  }

  // ----- the checks on a block

  /** The fields that the checks look at hold values of their kinds. */
  predicate Shaped(vs: Values) {
    |vs| == |FIELDS| && vs[PSK_AT].Psk? && vs[KEY_MGMT_AT].Mask? && vs[PAIRWISE_AT].Mask? && vs[GROUP_AT].Mask?
  }

  /** Pre-shared keys are accepted but there is none. */
  predicate LacksPsk(vs: Values)
    requires Shaped(vs)
  {
    And(vs[KEY_MGMT_AT].m, ANY_PSK) != 0 && vs[PSK_AT].secret == NoPsk
  }

  /** The group cipher may be stronger than the pairwise cipher. */
  predicate GroupTooStrong(vs: Values)
    requires Shaped(vs)
  {
    And(vs[GROUP_AT].m, CCMP) != 0 && And(vs[PAIRWISE_AT].m, CCMP) == 0 && And(vs[PAIRWISE_AT].m, NO_CIPHER) == 0
  }

  function Validated(vs: Values): Option<Values>
    requires Shaped(vs)
  {
    if LacksPsk(vs) then None
    else if GroupTooStrong(vs) then Some(vs[GROUP_AT := Mask(And(vs[GROUP_AT].m, !CCMP))])
    else Some(vs)
  }

  ghost predicate SameShape(kind: Kind, v: Value) {
    match kind
    case PskField => v.Psk?
    case Proto => v.Mask?
    case KeyMgmt => v.Mask?
    case Pairwise => v.Mask?
    case Group => v.Mask?
    case AuthAlg => v.Mask?
    case Int(_) => v.Number?
    case FreqList => v.Frequencies?
    case _ => v.Text?
  }

  ghost predicate Shapes(table: seq<Field>, vs: Values) {
    |vs| == |table| && forall i :: 0 <= i < |table| ==> SameShape(table[i].kind, vs[i])
  }

  lemma ParseKeepsShape(kind: Kind, t: string)
    ensures ParseValue(kind, t).Some? ==> SameShape(kind, ParseValue(kind, t).value)
  {
  }

  lemma SetKeepsShapes(table: seq<Field>, cur: Values, line: string)
    requires Shapes(table, cur)
    ensures SetLine(table, cur, line).Some? ==> Shapes(table, SetLine(table, cur, line).value)
  {
    hide SameShape, ParseValue;
    var nv := SplitLine(line);
    if nv.Some? {
      var i := FieldIndex(table, nv.value.0, 0);
      if i < |table| {
        ParseKeepsShape(table[i].kind, nv.value.1);
      }
    }
  }

  lemma {:induction false} ReadKeepsShapes(table: seq<Field>, cur: Values, ok: bool, input: string)
    requires Shapes(table, cur)
    ensures Shapes(table, ReadFields(table, cur, ok, input).values)
    decreases |input|
  {
    hide GetLine, SetLine, SameShape;
    Shrinks(input);
    var l := GetLine(input);
    if l.Some? && l.value.0 != "}" {
      SetKeepsShapes(table, cur, l.value.0);
      SetKeepsLength(table, cur, l.value.0);
      var n := SetLine(table, cur, l.value.0);
      if n.None? {
        ReadKeepsShapes(table, cur, false, l.value.1);
      } else {
        ReadKeepsShapes(table, n.value, ok, l.value.1);
      }
    }
  }

  lemma ReadIsShaped(input: string)
    ensures Shaped(ReadFields(FIELDS, Defaults(FIELDS), true, input).values)
  {
    hide ReadFields;
    DefaultShapes();
    ReadKeepsShapes(FIELDS, Defaults(FIELDS), true, input);
    ShapesAreShaped(ReadFields(FIELDS, Defaults(FIELDS), true, input).values);
  }

  lemma DefaultShapes()
    ensures Shapes(FIELDS, Defaults(FIELDS))
  {
    TableOk();
    forall i | 0 <= i < |FIELDS|
      ensures SameShape(FIELDS[i].kind, FIELDS[i].def)
    {
      assert GoodDefault(FIELDS[i]);
    }
  }

  lemma ShapesAreShaped(vs: Values)
    requires Shapes(FIELDS, vs)
    ensures Shaped(vs)
  {
    assert SameShape(FIELDS[PSK_AT].kind, vs[PSK_AT]);
    assert SameShape(FIELDS[KEY_MGMT_AT].kind, vs[KEY_MGMT_AT]);
    assert SameShape(FIELDS[PAIRWISE_AT].kind, vs[PAIRWISE_AT]);
    assert SameShape(FIELDS[GROUP_AT].kind, vs[GROUP_AT]);
  }

  // ----- one network

  /** The network in the block that follows, None when there was an error in it. */
  function ReadNetwork(input: string): (r: (Option<Values>, string))
    ensures |r.1| <= |input|
  {
    var b := ReadFields(FIELDS, Defaults(FIELDS), true, input);
    ReadIsShaped(input);
    (if b.ok then Validated(b.values) else None, b.rest)
  }

  ghost function WriteNetwork(vs: Values): string
    requires StorableAll(FIELDS, vs)
  {
    BlockText(FIELDS, vs, 0) + "}\n"
  }

  /** Nothing that the checks on a block would refuse or change. */
  ghost predicate Acceptable(vs: Values) {
    Shaped(vs) && !LacksPsk(vs) && !GroupTooStrong(vs)
  }

  lemma StorableIsShaped(vs: Values)
    requires StorableAll(FIELDS, vs)
    ensures Shaped(vs)
  {
    assert Storable(FIELDS[PSK_AT].kind, vs[PSK_AT]);
    assert Storable(FIELDS[KEY_MGMT_AT].kind, vs[KEY_MGMT_AT]);
    assert Storable(FIELDS[PAIRWISE_AT].kind, vs[PAIRWISE_AT]);
    assert Storable(FIELDS[GROUP_AT].kind, vs[GROUP_AT]);
  }

  lemma BoundedFields()
    ensures |FIELDS| == 26 && FIELDS[ID_STR_AT] == Field("id_str", Str, Text(None), true)
    ensures forall i :: 0 <= i < |FIELDS| && i != ID_STR_AT ==> Bounded(FIELDS[i].kind) || !FIELDS[i].saved
    ensures forall i :: 0 <= i < |FIELDS| ==> |FIELDS[i].name| <= 21
  {
  }

  /** Of all lines of a network only that of id_str can be too long. */
  lemma OnlyIdStrCut(vs: Values)
    requires StorableAll(FIELDS, vs)
    ensures forall j :: 0 <= j < |FIELDS| && j != ID_STR_AT ==> Fits(FIELDS[j], vs[j])
    ensures FitsAll(FIELDS, vs) <==> Fits(FIELDS[ID_STR_AT], vs[ID_STR_AT])
  {
    hide Storable, Bounded, ValueText, GoodDefault, GoodName;
    BoundedFields();
    TableOk();
    forall j | 0 <= j < |FIELDS| && j != ID_STR_AT
      ensures Fits(FIELDS[j], vs[j])
    {
      ShortLine(FIELDS[j], vs[j]);
    }
  }

  lemma ShortLine(f: Field, v: Value)
    requires Storable(f.kind, v) && GoodDefault(f) && |f.name| <= 21 && (Bounded(f.kind) || !f.saved)
    ensures Fits(f, v)
  {
    hide Storable, Bounded, ValueText, GoodDefault;
    if f.saved {
      BoundedText(f, v);
    }
  }

  /** Reading a written network comes down to reading from the line of id_str on. */
  lemma ReadToIdStr(vs: Values, rest: string)
    requires StorableAll(FIELDS, vs) && OnOneLineAll(vs)
    ensures ID_STR_AT < |FIELDS| && ReadUpTo(FIELDS, vs, ID_STR_AT)[ID_STR_AT] == Text(None)
    ensures ReadFields(FIELDS, Defaults(FIELDS), true, WriteNetwork(vs) + rest)
         == ReadFields(FIELDS, ReadUpTo(FIELDS, vs, ID_STR_AT), true, BlockText(FIELDS, vs, ID_STR_AT) + ("}\n" + rest))
  {
    hide Storable, ReadFields, WellFormed, Fits, LineText, BlockText, Restored, OnOneLine;
    TableOk();
    OnlyIdStrCut(vs);
    BoundedFields();
    var tail := "}\n" + rest;
    FieldsReadBack(FIELDS, vs, ID_STR_AT, tail);
    assert WriteNetwork(vs) + rest == BlockText(FIELDS, vs, 0) + tail;
  }

  /** The line of an id_str that is too long does not set it to what was written. */
  lemma IdStrCut(vs: Values, rest: string)
    requires StorableAll(FIELDS, vs) && OnOneLineAll(vs) && !FitsAll(FIELDS, vs)
    ensures ReadFields(FIELDS, Defaults(FIELDS), true, WriteNetwork(vs) + rest).values[ID_STR_AT] != vs[ID_STR_AT]
  {
    hide Storable, ReadFields, WellFormed, FitsAll, WriteNetwork, ReadUpTo, Fits, Written, OnOneLine, BlockText;
    TableOk();
    BoundedFields();
    OnlyIdStrCut(vs);
    ReadToIdStr(vs, rest);
    NoneFits(FIELDS[ID_STR_AT]);
    StringFieldExact(FIELDS, vs, ReadUpTo(FIELDS, vs, ID_STR_AT), true, ID_STR_AT, rest);
  }

  lemma NoneFits(f: Field)
    requires f.kind == Str
    ensures Storable(f.kind, Text(None)) && Fits(f, Text(None))
  {
  }

  /** Nothing that is read and written differs from what was read. */
  ghost predicate KeptAll(vs: Values)
    requires |vs| == |FIELDS|
  {
    forall i :: 0 <= i < |FIELDS| ==> Kept(FIELDS[i], vs[i])
  }

  /** In terms of the fields: no list of protocols, key management or ciphers is
      empty, and the fields that are never written have their defaults. */
  lemma KeptFields(vs: Values)
    requires StorableAll(FIELDS, vs)
    ensures Shaped(vs) && vs[PROTO_AT].Mask?
    ensures KeptAll(vs)
       <==> && vs[PROTO_AT].m != 0 && vs[KEY_MGMT_AT].m != 0 && vs[PAIRWISE_AT].m != 0 && vs[GROUP_AT].m != 0
            && forall i :: ID_STR_AT < i < |FIELDS| ==> vs[i] == FIELDS[i].def
  {
    hide And, Storable, Kept, SameShape;
    StorableIsShaped(vs);
    ProtoStored(vs);
    KeptEach(vs);
    Positions();
  }

  lemma Positions()
    ensures PROTO_AT <= ID_STR_AT < |FIELDS| && KEY_MGMT_AT <= ID_STR_AT && PAIRWISE_AT <= ID_STR_AT
    ensures GROUP_AT <= ID_STR_AT
  {
  }

  lemma ProtoStored(vs: Values)
    requires StorableAll(FIELDS, vs)
    ensures |vs| == |FIELDS| && vs[PROTO_AT].Mask?
  {
    hide And, Bytes, Lacks, Entries;
    assert Storable(FIELDS[PROTO_AT].kind, vs[PROTO_AT]);
  }

  lemma KeptEach(vs: Values)
    requires StorableAll(FIELDS, vs)
    ensures forall i :: 0 <= i < |FIELDS| ==>
              (Kept(FIELDS[i], vs[i])
               <==> if i > ID_STR_AT then vs[i] == FIELDS[i].def
                    else i in [PROTO_AT, KEY_MGMT_AT, PAIRWISE_AT, GROUP_AT] ==> vs[i].Mask? && vs[i].m != 0)
  {
    hide Kept, Storable;
    forall i | 0 <= i < |FIELDS|
      ensures Kept(FIELDS[i], vs[i])
         <==> if i > ID_STR_AT then vs[i] == FIELDS[i].def
              else i in [PROTO_AT, KEY_MGMT_AT, PAIRWISE_AT, GROUP_AT] ==> vs[i].Mask? && vs[i].m != 0
    {
      KeptField(vs, i);
    }
  }

  lemma KeptField(vs: Values, i: nat)
    requires StorableAll(FIELDS, vs) && i < |FIELDS|
    ensures Kept(FIELDS[i], vs[i])
       <==> if i > ID_STR_AT then vs[i] == FIELDS[i].def
            else i in [PROTO_AT, KEY_MGMT_AT, PAIRWISE_AT, GROUP_AT] ==> vs[i].Mask? && vs[i].m != 0
  {
    hide And, Bytes, Lacks, Entries;
    assert Storable(FIELDS[i].kind, vs[i]);
  }

  /** A network survives exactly when no line is too long, no text is on two lines,
      no value is lost to its default, and the checks have nothing against it. If
      no line is too long and no text on two lines it comes back as the checks make
      of it, with lost values replaced by their defaults. */
  lemma NetworkRoundTrip(vs: Values, rest: string)
    requires StorableAll(FIELDS, vs)
    ensures Shaped(vs)
    ensures FitsAll(FIELDS, vs) && OnOneLineAll(vs) ==>
              && Shaped(ReadUpTo(FIELDS, vs, |FIELDS|))
              && ReadNetwork(WriteNetwork(vs) + rest) == (Validated(ReadUpTo(FIELDS, vs, |FIELDS|)), rest)
    ensures ReadNetwork(WriteNetwork(vs) + rest).0 == Some(vs)
       <==> FitsAll(FIELDS, vs) && OnOneLineAll(vs) && KeptAll(vs) && Acceptable(vs)
  {
    hide StorableAll, FitsAll, ReadFields, WellFormed, And, WriteNetwork, OnOneLineAll, KeptAll, Kept;
    TableOk();
    StorableIsShaped(vs);
    if !OnOneLineAll(vs) {
      NewlineNeverRead(vs, WriteNetwork(vs) + rest);
    } else if FitsAll(FIELDS, vs) {
      WholeNetwork(vs, rest);
      ReadIsShaped(WriteNetwork(vs) + rest);
      RestoredAccepted(vs);
    } else {
      IdStrCut(vs, rest);
    }
  }

  lemma WholeNetwork(vs: Values, rest: string)
    requires StorableAll(FIELDS, vs) && FitsAll(FIELDS, vs) && OnOneLineAll(vs)
    ensures ReadFields(FIELDS, Defaults(FIELDS), true, WriteNetwork(vs) + rest)
         == Block(ReadUpTo(FIELDS, vs, |FIELDS|), true, rest)
  {
    hide StorableAll, FitsAll, BlockText, ReadFields, WellFormed;
    TableOk();
    BlockRoundTrip(FIELDS, vs, rest);
    assert WriteNetwork(vs) + rest == BlockText(FIELDS, vs, 0) + ("}\n" + rest);
  }

  /** What the checks make of the restored values is what was written exactly if
      nothing was lost and nothing is refused. */
  lemma RestoredAccepted(vs: Values)
    requires StorableAll(FIELDS, vs) && Shaped(vs) && Shaped(ReadUpTo(FIELDS, vs, |FIELDS|))
    ensures Validated(ReadUpTo(FIELDS, vs, |FIELDS|)) == Some(vs) <==> KeptAll(vs) && Acceptable(vs)
  {
    hide And, Storable, Restored, WellFormed, Kept;
    TableOk();
    BlockKept(FIELDS, vs);
    var r := ReadUpTo(FIELDS, vs, |FIELDS|);
    assert r == vs <==> KeptAll(vs);
    if GroupTooStrong(r) {
      Weakened(r[GROUP_AT].m);
      GroupRestored(vs);
      StrongGroupLeft();
    }
  }

  lemma GroupRestored(vs: Values)
    requires StorableAll(FIELDS, vs) && Shaped(vs)
    ensures var r := ReadUpTo(FIELDS, vs, |FIELDS|)[GROUP_AT];
            r == vs[GROUP_AT] || (r == FIELDS[GROUP_AT].def && vs[GROUP_AT].m == 0)
  {
    hide Storable, WellFormed, Restored, And;
    TableOk();
    RestoredExact(FIELDS[GROUP_AT], vs[GROUP_AT]);
    RestoredOrDefault(FIELDS[GROUP_AT], vs[GROUP_AT]);
  }

  lemma RestoredOrDefault(f: Field, v: Value)
    requires Storable(f.kind, v)
    ensures Restored(f, v) == v || Restored(f, v) == f.def
  {
  }

  lemma StrongGroupLeft()
    ensures FIELDS[GROUP_AT].def.Mask? && And(FIELDS[GROUP_AT].def.m, !CCMP) != 0
  {
  }

  // ----- what no file can hold

  /** What the checks make of a network: it is refused exactly if a key management
      with a pre-shared key (bits 2, 64 and 256) is allowed and there is no such key;
      and CCMP (bit 16) is dropped from its group ciphers exactly if neither that nor
      none (bit 1) is among its pairwise ciphers. */
  lemma ValidatedExact(vs: Values)
    requires Shaped(vs)
    ensures Validated(vs).None? <==> And(vs[KEY_MGMT_AT].m, 0x142) != 0 && vs[PSK_AT].secret == NoPsk
    ensures Validated(vs).Some? ==>
              var r, p := Validated(vs).value, vs[PAIRWISE_AT].m;
              && |r| == |vs| && (forall i :: 0 <= i < |vs| && i != GROUP_AT ==> r[i] == vs[i]) && r[GROUP_AT].Mask?
              && (if And(p, 0x10) != 0 || And(p, 1) != 0 then r[GROUP_AT] == vs[GROUP_AT]
                  else And(r[GROUP_AT].m, 0x10) == 0 && And(r[GROUP_AT].m, 0xffef) == And(vs[GROUP_AT].m, 0xffef))
  {
    var m := vs[GROUP_AT].m;
    DropsOnly(m);
  }

  lemma DropsOnly(m: bv16)
    ensures And(And(m, !CCMP), 0x10) == 0 && And(And(m, !CCMP), 0xffef) == And(m, 0xffef)
    ensures CCMP == 0x10 && NO_CIPHER == 1 && ANY_PSK == 0x142
  {
  }

  /** Whatever the file, no network in it has a passphrase with a newline, or no
      protocol, no key management or no pairwise cipher. */
  lemma ReadNetworkExact(input: string, vs: Values)
    requires ReadNetwork(input).0 == Some(vs)
    ensures Shaped(vs) && vs[PROTO_AT].Mask?
    ensures OnOneLine(vs[PSK_AT])
    ensures vs[PROTO_AT].m != 0 && vs[KEY_MGMT_AT].m != 0 && vs[PAIRWISE_AT].m != 0
    ensures And(vs[KEY_MGMT_AT].m, 0x142) != 0 ==> vs[PSK_AT].secret != NoPsk
    ensures And(vs[GROUP_AT].m, 0x10) != 0 ==> And(vs[PAIRWISE_AT].m, 0x10) != 0 || And(vs[PAIRWISE_AT].m, 1) != 0
  {
    hide ReadFields, And, OnOneLine, FromLine, Validated;
    ReadIsShaped(input);
    ValidatedExact(ReadFields(FIELDS, Defaults(FIELDS), true, input).values);
    ReadAt(input, PSK_AT);
    ReadAt(input, PROTO_AT);
    ReadAt(input, KEY_MGMT_AT);
    ReadAt(input, PAIRWISE_AT);
    ProtoRead(input);
    FromLineMeans(vs[PSK_AT]);
    FromLineMeans(vs[PROTO_AT]);
    FromLineMeans(vs[KEY_MGMT_AT]);
    FromLineMeans(vs[PAIRWISE_AT]);
  }

  lemma FromLineMeans(v: Value)
    ensures FromLine(v) ==> OnOneLine(v) && (v.Mask? ==> v.m != 0)
  {
  }

  lemma ReadAt(input: string, i: nat)
    requires i in [PSK_AT, PROTO_AT, KEY_MGMT_AT, PAIRWISE_AT]
    ensures i < |FIELDS| && FromLine(ReadFields(FIELDS, Defaults(FIELDS), true, input).values[i])
  {
    hide ReadFields;
    ReadFromLines(FIELDS, Defaults(FIELDS), true, input, i);
  }

  lemma ProtoRead(input: string)
    ensures ReadFields(FIELDS, Defaults(FIELDS), true, input).values[PROTO_AT].Mask?
  {
    hide ReadFields;
    DefaultShapes();
    ReadKeepsShapes(FIELDS, Defaults(FIELDS), true, input);
    assert SameShape(FIELDS[PROTO_AT].kind, ReadFields(FIELDS, Defaults(FIELDS), true, input).values[PROTO_AT]);
  }

  /** So a network with such a passphrase comes out of no file at all. */
  lemma NewlineNeverRead(vs: Values, input: string)
    requires StorableAll(FIELDS, vs) && !OnOneLineAll(vs)
    ensures ReadNetwork(input).0 != Some(vs)
  {
    hide ReadNetwork, Lacks, And, Bytes, Entries;
    if ReadNetwork(input).0 == Some(vs) {
      ReadNetworkExact(input, vs);
      OnlyPskOnTwoLines(vs);
    }
  }

  lemma OnlyPskOnTwoLines(vs: Values)
    requires StorableAll(FIELDS, vs)
    ensures OnOneLineAll(vs) <==> OnOneLine(vs[PSK_AT])
  {
    hide Lacks, And, Bytes, Entries;
    forall i | 0 <= i < |FIELDS| && i != PSK_AT
      ensures OnOneLine(vs[i])
    {
      assert Storable(FIELDS[i].kind, vs[i]) && FIELDS[i].kind != PskField;
    }
  }

  lemma Weakened(m: bv16)
    requires And(m, CCMP) != 0
    ensures And(m, !CCMP) != m
  {
    hide And;
    AndIs(m, CCMP);
    AndIs(m, !CCMP);
  }

  // ----- whole files

  /** What a file says: the lines outside of blocks, the networks, and whether
      there was no error. */
  datatype Contents = Contents(globals: seq<string>, nets: seq<Values>, ok: bool)

  /** Reads the rest of a file; accepts says which lines outside of blocks are
      proper global parameters. */
  function ReadFile(accepts: string -> bool, c: Contents, input: string): Contents
    decreases |input|
  {
    var l := GetLine(input);
    if l.None? then c
    else if l.value.0 != "network={" then
      ReadFile(accepts, c.(globals := c.globals + [l.value.0], ok := c.ok && accepts(l.value.0)), l.value.1)
    else
      var n := ReadNetwork(l.value.1);
      ReadFile(accepts, if n.0.None? then c.(ok := false) else c.(nets := c.nets + [n.0.value]), n.1)
  }

  const NOTHING := Contents([], [], true)

  /** Reads a whole file; an error does not stop it. */
  method ReadConfig(accepts: string -> bool, f: Stream) returns (c: Contents)
    modifies f
    ensures c == ReadFile(accepts, NOTHING, old(f.rest))
  {
    hide GetLine, ReadNetwork;
    c := NOTHING;
    var done := false;
    while !done
      invariant !done ==> ReadFile(accepts, c, f.rest) == ReadFile(accepts, NOTHING, old(f.rest))
      invariant done ==> c == ReadFile(accepts, NOTHING, old(f.rest))
      decreases !done, |f.rest|
    {
      Shrinks(f.rest);
      var pos := f.NextLine();
      if pos.None? {
        done := true;
      } else if pos.value == "network={" {
        NetworkShrinks(f.rest);
        var net := ReadNetworkFrom(f);
        if net.None? {
          c := c.(ok := false);
        } else {
          c := c.(nets := c.nets + [net.value]);
        }
      } else {
        c := c.(globals := c.globals + [pos.value], ok := c.ok && accepts(pos.value));
      }
    }
  }

  lemma NetworkShrinks(input: string)
    ensures |ReadNetwork(input).1| <= |input|
  {
  }

  /** Global parameters that the line reader takes as they are written. */
  ghost predicate PlainGlobals(gs: seq<string>) {
    forall i :: 0 <= i < |gs| ==> PlainGlobal(gs[i])
  }

  ghost predicate PlainGlobal(g: string) {
    GoodText(g) && Lacks(g, '"') && Lacks(g, '#') && !Blank(g[0]) && |g| < BUF_SIZE - 1 && g != "network={"
  }

  ghost predicate AllAccepted(accepts: string -> bool, gs: seq<string>) {
    forall i :: 0 <= i < |gs| ==> accepts(gs[i])
  }

  function GlobalText(gs: seq<string>): string {
    if gs == [] then "" else gs[0] + "\n" + GlobalText(gs[1..])
  }

  ghost predicate StorableNetworks(nets: seq<Values>) {
    forall i :: 0 <= i < |nets| ==> StorableAll(FIELDS, nets[i])
  }

  ghost function WriteNetworks(nets: seq<Values>): string
    requires StorableNetworks(nets)
  {
    if nets == [] then "" else "\nnetwork={\n" + WriteNetwork(nets[0]) + WriteNetworks(nets[1..])
  }

  /** The networks that NetworkRoundTrip says come back. */
  ghost predicate Survives(vs: Values) {
    StorableAll(FIELDS, vs) && FitsAll(FIELDS, vs) && OnOneLineAll(vs) && KeptAll(vs) && Acceptable(vs)
  }

  lemma HeaderRead(rest: string)
    ensures GetLine("\nnetwork={\n" + rest) == Some(("network={", rest))
  {
    hide GetLine;
    PlainLine("network={", rest);
    NewlineSkipped("network={" + "\n" + rest);
    assert "\n" + ("network={" + "\n" + rest) == "\nnetwork={\n" + rest;
  }

  /** All networks of a written file come back, in order. */
  lemma {:induction false} NetworksRoundTrip(accepts: string -> bool, c: Contents, nets: seq<Values>)
    requires StorableNetworks(nets)
    requires forall i :: 0 <= i < |nets| ==> Survives(nets[i])
    ensures ReadFile(accepts, c, WriteNetworks(nets)) == c.(nets := c.nets + nets)
    decreases |nets|
  {
    hide GetLine, StorableAll, Survives, WriteNetwork, ReadNetwork;
    if nets == [] {
      NothingRead();
      assert c.nets + nets == c.nets;
    } else {
      var rest := WriteNetworks(nets[1..]);
      var more := WriteNetwork(nets[0]) + rest;
      assert WriteNetworks(nets) == "\nnetwork={\n" + more;
      HeaderRead(more);
      NetworkSurvives(nets[0], rest);
      NetworksRoundTrip(accepts, c.(nets := c.nets + [nets[0]]), nets[1..]);
      assert c.nets + [nets[0]] + nets[1..] == c.nets + nets;
    }
  }

  lemma {:induction false} GlobalsRead(accepts: string -> bool, c: Contents, gs: seq<string>, rest: string)
    requires PlainGlobals(gs)
    ensures ReadFile(accepts, c, GlobalText(gs) + rest)
         == ReadFile(accepts, Contents(c.globals + gs, c.nets, c.ok && AllAccepted(accepts, gs)), rest)
    decreases |gs|
  {
    hide GetLine, ReadNetwork, GoodText, Lacks, AllAccepted, ReadFile, GlobalText;
    if gs == [] {
      assert GlobalText(gs) + rest == rest && c.globals + gs == c.globals by {
        NoGlobals(gs);
      }
      NoneRefused(accepts, gs);
    } else {
      var g, more := gs[0], GlobalText(gs[1..]) + rest;
      FirstGlobal(gs, rest);
      PlainLine(g, more);
      var d := c.(globals := c.globals + [g], ok := c.ok && accepts(g));
      GlobalStep(accepts, c, g + "\n" + more, g, more);
      GlobalsRead(accepts, d, gs[1..], rest);
      assert d.globals + gs[1..] == c.globals + gs;
      AcceptsAll(accepts, gs);
    }
  }

  lemma GlobalStep(accepts: string -> bool, c: Contents, input: string, g: string, more: string)
    requires GetLine(input) == Some((g, more)) && g != "network={"
    ensures ReadFile(accepts, c, input)
         == ReadFile(accepts, c.(globals := c.globals + [g], ok := c.ok && accepts(g)), more)
  {
    hide GetLine, ReadNetwork;
  }

  lemma NoGlobals(gs: seq<string>)
    requires gs == []
    ensures GlobalText(gs) == ""
  {
  }

  lemma FirstGlobal(gs: seq<string>, rest: string)
    requires gs != []
    ensures GlobalText(gs) + rest == gs[0] + "\n" + (GlobalText(gs[1..]) + rest)
  {
  }

  lemma NoneRefused(accepts: string -> bool, gs: seq<string>)
    requires gs == []
    ensures AllAccepted(accepts, gs)
  {
  }

  lemma AcceptsAll(accepts: string -> bool, gs: seq<string>)
    requires gs != []
    ensures AllAccepted(accepts, gs) <==> accepts(gs[0]) && AllAccepted(accepts, gs[1..])
  {
    assert forall i :: 1 <= i < |gs| ==> gs[i] == gs[1..][i - 1];
  }

  /** A written file is read back as it was: its global parameters and its
      networks come back in order, and the file is refused exactly when one of
      the global parameters is. */
  lemma FileRoundTrip(accepts: string -> bool, gs: seq<string>, nets: seq<Values>)
    requires PlainGlobals(gs) && StorableNetworks(nets)
    requires forall i :: 0 <= i < |nets| ==> Survives(nets[i])
    ensures ReadFile(accepts, NOTHING, GlobalText(gs) + WriteNetworks(nets))
         == Contents(gs, nets, AllAccepted(accepts, gs))
  {
    hide ReadFile, WriteNetworks, Survives, StorableAll, PlainGlobals, GlobalText, AllAccepted;
    GlobalsRead(accepts, NOTHING, gs, WriteNetworks(nets));
    assert [] + gs == gs && [] + nets == nets;
    NetworksRoundTrip(accepts, Contents(gs, [], AllAccepted(accepts, gs)), nets);
  }

  /** An error stays, and so does every network read. */
  lemma {:induction false} ReadOnlyAdds(accepts: string -> bool, c: Contents, input: string)
    ensures var r := ReadFile(accepts, c, input);
            (r.ok ==> c.ok) && |c.nets| <= |r.nets| && r.nets[..|c.nets|] == c.nets
    decreases |input|
  {
    hide GetLine, ReadNetwork;
    Shrinks(input);
    var l := GetLine(input);
    if l.Some? {
      if l.value.0 != "network={" {
        var next := c.(globals := c.globals + [l.value.0], ok := c.ok && accepts(l.value.0));
        ReadOnlyAdds(accepts, next, l.value.1);
      } else {
        NetworkShrinks(l.value.1);
        var n := ReadNetwork(l.value.1);
        ReadOnlyAdds(accepts, if n.0.None? then c.(ok := false) else c.(nets := c.nets + [n.0.value]), n.1);
      }
    }
  }

  ghost predicate AllSurvive(nets: seq<Values>) {
    forall i :: 0 <= i < |nets| ==> Survives(nets[i])
  }

  /** The networks of a file come back without an error exactly if each of them
      survives: what is left of a network that does not cannot stand in for it. */
  lemma {:induction false} NetworksExact(accepts: string -> bool, c: Contents, nets: seq<Values>)
    requires StorableNetworks(nets) && c.ok
    ensures ReadFile(accepts, c, WriteNetworks(nets)) == c.(nets := c.nets + nets) <==> AllSurvive(nets)
    decreases |nets|
  {
    hide GetLine, StorableAll, Survives, WriteNetwork, ReadNetwork, WriteNetworks, ReadFile, AllSurvive;
    SurviveStep(nets);
    if nets == [] {
      NetworksRoundTrip(accepts, c, nets);
    } else {
      var rest := WriteNetworks(nets[1..]);
      var n := ReadNetwork(WriteNetwork(nets[0]) + rest);
      var next := if n.0.None? then c.(ok := false) else c.(nets := c.nets + [n.0.value]);
      NetworksStep(accepts, c, nets);
      ReadOnlyAdds(accepts, next, n.1);
      SurvivesExact(nets[0], rest);
      if Survives(nets[0]) {
        NetworksExact(accepts, next, nets[1..]);
        assert next.nets + nets[1..] == c.nets + nets;
      } else if n.0.Some? {
        assert next.nets[|c.nets|] != (c.nets + nets)[|c.nets|];
      }
    }
  }

  lemma SurviveStep(nets: seq<Values>)
    ensures AllSurvive(nets) <==> nets == [] || (Survives(nets[0]) && AllSurvive(nets[1..]))
  {
    hide Survives;
    if nets != [] {
      assert forall i :: 1 <= i < |nets| ==> nets[i] == nets[1..][i - 1];
    }
  }

  lemma NetworksStep(accepts: string -> bool, c: Contents, nets: seq<Values>)
    requires StorableNetworks(nets) && nets != []
    ensures var n := ReadNetwork(WriteNetwork(nets[0]) + WriteNetworks(nets[1..]));
            ReadFile(accepts, c, WriteNetworks(nets))
              == ReadFile(accepts, if n.0.None? then c.(ok := false) else c.(nets := c.nets + [n.0.value]), n.1)
  {
    hide GetLine, StorableAll, WriteNetwork, ReadNetwork;
    var more := WriteNetwork(nets[0]) + WriteNetworks(nets[1..]);
    assert WriteNetworks(nets) == "\nnetwork={\n" + more;
    HeaderRead(more);
  }

  lemma SurvivesExact(vs: Values, rest: string)
    requires StorableAll(FIELDS, vs)
    ensures ReadNetwork(WriteNetwork(vs) + rest).0 == Some(vs) <==> Survives(vs)
    ensures Survives(vs) ==> ReadNetwork(WriteNetwork(vs) + rest) == (Some(vs), rest)
  {
    hide StorableAll, FitsAll, ReadNetwork, WriteNetwork, OnOneLineAll, KeptAll;
    NetworkRoundTrip(vs, rest);
    if Survives(vs) {
      NetworkSurvives(vs, rest);
    }
  }

  /** A written file is read back as it was, without an error, exactly if all its
      global parameters are accepted and all its networks survive. */
  lemma FileExact(accepts: string -> bool, gs: seq<string>, nets: seq<Values>)
    requires PlainGlobals(gs) && StorableNetworks(nets)
    ensures ReadFile(accepts, NOTHING, GlobalText(gs) + WriteNetworks(nets)) == Contents(gs, nets, true)
       <==> AllAccepted(accepts, gs) && AllSurvive(nets)
  {
    hide ReadFile, WriteNetworks, AllSurvive, StorableAll, PlainGlobals, GlobalText, AllAccepted;
    GlobalsRead(accepts, NOTHING, gs, WriteNetworks(nets));
    assert [] + gs == gs && [] + nets == nets;
    var c := Contents(gs, [], AllAccepted(accepts, gs));
    ReadOnlyAdds(accepts, c, WriteNetworks(nets));
    if AllAccepted(accepts, gs) {
      NetworksExact(accepts, c, nets);
    }
  }

  lemma NothingRead()
    ensures GetLine("") == None
  {
  }

  lemma NetworkSurvives(vs: Values, rest: string)
    requires Survives(vs)
    ensures ReadNetwork(WriteNetwork(vs) + rest) == (Some(vs), rest)
  {
    hide StorableAll, FitsAll, ReadNetwork, WriteNetwork, OnOneLineAll, KeptAll, WellFormed;
    TableOk();
    NetworkRoundTrip(vs, rest);
    BlockKept(FIELDS, vs);
  }

  /** Reads a block and checks what it holds. */
  method ReadNetworkFrom(f: Stream) returns (net: Option<Values>)
    modifies f
    ensures (net, f.rest) == ReadNetwork(old(f.rest))
  {
    hide ReadFields, And;
    ReadIsShaped(f.rest);
    var values, ok := ReadBlock(FIELDS, f);
    var errors := if ok then 0 else 1;
    if And(values[KEY_MGMT_AT].m, ANY_PSK) != 0 && values[PSK_AT].secret == NoPsk {
      errors := errors + 1;
    }
    if And(values[GROUP_AT].m, CCMP) != 0 && And(values[PAIRWISE_AT].m, CCMP) == 0
       && And(values[PAIRWISE_AT].m, NO_CIPHER) == 0
    {
      values := values[GROUP_AT := Mask(And(values[GROUP_AT].m, !CCMP))];
    }
    return if errors > 0 then None else Some(values);
  }
}
