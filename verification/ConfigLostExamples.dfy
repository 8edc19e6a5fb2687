/** Networks that the program holds and that do not come back from its own file
    although no line is too long (wpa_supplicant/config.c, config_file.c). */
module ConfigLostExamples {
  import opened ConfigBlock
  import opened ConfigFile
  import opened ConfigLine
  import opened ConfigNetwork
  import opened ConfigRead
  import opened ConfigString
  import opened WordList
  import opened Wrappers

  // ----- a passphrase on two lines

  const TWO_LINES := "abcdefgh\nx"

  /** The first line of what is written for it, and the rest of the passphrase. */
  const FIRST_LINE := "\tpsk=\"abcdefgh"

  /** The text sets the passphrase when it comes in one piece. */
  lemma AcceptedWhole()
    ensures PskValue(Quoted(TWO_LINES)) == Some(Psk(Passphrase(TWO_LINES)))
    ensures Storable(PskField, Psk(Passphrase(TWO_LINES))) && !OnOneLine(Psk(Passphrase(TWO_LINES)))
  {
    assert TWO_LINES[8] == '\n';
    PskRoundTrip(Passphrase(TWO_LINES));
  }

  lemma FirstLineRead(more: string)
    ensures GetLine(FIRST_LINE + "\n" + more) == Some(("psk=\"abcdefgh", more))
  {
    hide GetLine, Content, ChunkLen;
    var n := ChunkOf(FIRST_LINE, more);
    var input := FIRST_LINE + "\n" + more;
    assert forall i :: 0 <= i < |FIRST_LINE| ==> input[i] == FIRST_LINE[i];
    ChunkLenExact(input, |FIRST_LINE| + 1);
    FirstLineContent();
    GetLineStep(input);
  }

  lemma FirstLineContent()
    ensures Content(FIRST_LINE + "\n") == Some("psk=\"abcdefgh")
  {
    hide TrimRight, CString, IndexOf, LastIndexOf, DropBlanks;
    var t := "psk=\"abcdefgh";
    var s := t + "\n";
    assert FIRST_LINE + "\n" == "\t" + s;
    WholeCString("\t" + s);
    DropTab(s);
    Characters(s);
    IndexOfExact(s, '"', 0, 4);
    NoLastQuote(s);
    IndexOfExact(s, '#', 0, |s|);
    assert s[..|s|] == s;
    NoTrim(t, "\n");
  }

  lemma Characters(s: string)
    requires s == "psk=\"abcdefgh" + "\n"
    ensures |s| == 14 && s[4] == '"' && forall i :: 0 <= i < |s| ==> s[i] != '#' && (s[i] == '"' ==> i == 4)
  {
  }

  lemma NoLastQuote(s: string)
    requires |s| > 5 && forall i :: 5 <= i < |s| ==> s[i] != '"'
    ensures LastIndexOf(s, '"', 5).None?
  {
  }

  lemma FirstLineRefused(cur: Values)
    requires |cur| == |FIELDS|
    ensures SetLine(FIELDS, cur, "psk=\"abcdefgh") == None
  {
    var l := "psk=\"abcdefgh";
    IndexOfExact(l, '=', 0, 3);
    var text := l[4..];
    assert text == "\"abcdefgh";
    IndexOfExact(text, '"', 1, |text|);
  }

  lemma QuotedOnTwoLines(p: string, q: string)
    ensures FieldLine("psk", Quoted(p + "\n" + q)) + "\n" == "\tpsk=\"" + p + "\n" + (q + "\"\n")
  {
  }

  lemma QuotedSome(s: string)
    ensures Quoted(s) != ""
  {
  }

  lemma TwoLines()
    ensures TWO_LINES == "abcdefgh" + "\n" + "x" && FIRST_LINE == "\tpsk=\"" + "abcdefgh"
  {
  }

  lemma TwoLinesWritten(vs: Values)
    requires StorableAll(FIELDS, vs) && vs[PSK_AT] == Psk(Passphrase(TWO_LINES))
    ensures LineText(FIELDS[PSK_AT], vs[PSK_AT]) == FIRST_LINE + "\n" + "x\"\n"
  {
    hide Quoted, FieldLine, Storable;
    TwoLines();
    QuotedOnTwoLines("abcdefgh", "x");
    QuotedSome(TWO_LINES);
    assert Written(FIELDS[PSK_AT], vs[PSK_AT]) == Some(Quoted(TWO_LINES));
    assert "x" + "\"\n" == "x\"\n";
  }

  lemma BeforePsk(vs: Values)
    requires StorableAll(FIELDS, vs)
    ensures forall j :: 0 <= j < PSK_AT ==> OnOneLine(vs[j])
  {
    hide Bytes, Lacks, And;
    forall j | 0 <= j < PSK_AT
      ensures OnOneLine(vs[j])
    {
      assert Storable(FIELDS[j].kind, vs[j]) && FIELDS[j].kind != PskField;
    }
  }

  /** Any network with this passphrase is lost: its block is read with an error. */
  lemma NewlineLosesNetwork(vs: Values, rest: string)
    requires StorableAll(FIELDS, vs) && vs[PSK_AT] == Psk(Passphrase(TWO_LINES))
    ensures ReadNetwork(WriteNetwork(vs) + rest).0 == None
  {
    hide Storable, ReadFields, WellFormed, Fits, LineText, BlockText, OnOneLine, Restored, GetLine, SetLine;
    TableOk();
    OnlyIdStrCut(vs);
    BeforePsk(vs);
    var tail := "}\n" + rest;
    FieldsReadBack(FIELDS, vs, PSK_AT, tail);
    assert WriteNetwork(vs) + rest == BlockText(FIELDS, vs, 0) + tail;
    TwoLinesWritten(vs);
    var more := "x\"\n" + (BlockText(FIELDS, vs, PSK_AT + 1) + tail);
    PskLines(vs, tail);
    PskRefused(ReadUpTo(FIELDS, vs, PSK_AT), more);
  }

  lemma PskLines(vs: Values, tail: string)
    requires StorableAll(FIELDS, vs) && vs[PSK_AT] == Psk(Passphrase(TWO_LINES))
    ensures BlockText(FIELDS, vs, PSK_AT) + tail
         == FIRST_LINE + "\n" + ("x\"\n" + (BlockText(FIELDS, vs, PSK_AT + 1) + tail))
  {
    hide Storable, LineText, BlockText;
    TwoLinesWritten(vs);
    FirstOfLines(FIELDS, vs, PSK_AT, tail);
    Regroup(FIRST_LINE, "\n", "x\"\n", BlockText(FIELDS, vs, PSK_AT + 1) + tail);
  }

  lemma Regroup(a: string, b: string, c: string, d: string)
    ensures a + b + c + d == a + b + (c + d)
  {
  }

  lemma PskRefused(cur: Values, more: string)
    requires |cur| == |FIELDS|
    ensures !ReadFields(FIELDS, cur, true, FIRST_LINE + "\n" + more).ok
  {
    hide GetLine, SetLine, WellFormed;
    FirstLineRead(more);
    FirstLineRefused(cur);
    ErrorsStay(FIELDS, cur, more);
  }

  // ----- a group cipher list that the checks empty

  /** A network that asks for CCMP as group cipher and TKIP as pairwise cipher comes
      back with no group cipher at all, and that network does not survive in turn. */
  lemma GroupEmptied(vs: Values, rest: string)
    requires StorableAll(FIELDS, vs) && FitsAll(FIELDS, vs) && OnOneLineAll(vs) && KeptAll(vs)
    requires Shaped(vs) && !LacksPsk(vs)
    requires vs[GROUP_AT] == Mask(CCMP) && vs[PAIRWISE_AT] == Mask(8)
    ensures var ws := vs[GROUP_AT := Mask(0)];
            && StorableAll(FIELDS, ws)
            && ReadNetwork(WriteNetwork(vs) + rest).0 == Some(ws)
            && ReadNetwork(WriteNetwork(ws) + rest).0 != Some(ws)
  {
    hide StorableAll, FitsAll, OnOneLineAll, KeptAll, WriteNetwork, ReadNetwork, WellFormed;
    var ws := vs[GROUP_AT := Mask(0)];
    Ciphers();
    TableOk();
    EmptyGroupStored(vs);
    NetworkRoundTrip(vs, rest);
    BlockKept(FIELDS, vs);
    assert KeptAll(vs) ==> ReadUpTo(FIELDS, vs, |FIELDS|) == vs by {
      KeptMeans(vs);
    }
    NetworkRoundTrip(ws, rest);
    KeptFields(ws);
  }

  lemma KeptMeans(vs: Values)
    requires |vs| == |FIELDS|
    ensures KeptAll(vs) <==> forall i :: 0 <= i < |FIELDS| ==> Kept(FIELDS[i], vs[i])
  {
  }

  lemma Ciphers()
    ensures And(CCMP, CCMP) != 0 && And(8, CCMP) == 0 && And(8, NO_CIPHER) == 0 && And(CCMP, !CCMP) == 0
  {
  }

  lemma EmptyGroupStored(vs: Values)
    requires StorableAll(FIELDS, vs)
    ensures StorableAll(FIELDS, vs[GROUP_AT := Mask(0)])
  {
    assert Storable(FIELDS[GROUP_AT].kind, Mask(0)) by {
      assert And(0, GROUP_ALLOWED) == 0;
    }
    hide Storable;
  }
}
