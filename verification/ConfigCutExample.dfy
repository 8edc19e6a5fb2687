/** A network whose id_str is too long for the reader, which takes the end of it
    for a line that sets another field (wpa_supplicant/config_file.c). */
module ConfigCutExample {
  import opened ConfigBlock
  import opened ConfigFile
  import opened ConfigLine
  import opened ConfigNetwork
  import opened ConfigString
  import opened Decimal
  import opened Wrappers

  function Repeat(c: char, n: nat): (r: string)
    ensures |r| == n && forall i :: 0 <= i < n ==> r[i] == c
  {
    seq(n, i => c)
  }

  /** As much of an id_str as just fills the reader's buffer. */
  function Kept(): string { Repeat('A', 245) }

  /** What is read as a line of its own: a field and the quote that ends the string. */
  const LEFT := "disabled=1\""

  function IdStr(): string { Kept() + "\"" + "disabled=1" }

  /** A line without comment that ends in a quote says its text. */
  lemma PieceContent(t: string)
    requires |t| >= 1 && Lacks(t, '\0') && Lacks(t, '#') && t[|t| - 1] == '"' && !Blank(t[0]) && t[0] != '\n'
    ensures Content(t + "\n") == Some(t)
  {
    hide TrimRight, CString, CommentFrom;
    var s := t + "\n";
    LacksConcat(t, "\n", '\0');
    LacksConcat(t, "\n", '#');
    WholeCString(s);
    CommentInside(s);
    IndexOfExact(s, '#', CommentFrom(s), |s|);
    NoTrim(t, "\n");
    assert s[0] == t[0] && s[..|s|] == s;
  }

  lemma PieceLine(t: string, more: string)
    requires 1 <= |t| < BUF_SIZE - 1 && t[|t| - 1] == '"' && !Blank(t[0])
    requires Lacks(t, '\0') && Lacks(t, '#') && Lacks(t, '\n')
    ensures GetLine(t + "\n" + more) == Some((t, more))
  {
    hide Content, ChunkLen, GetLine;
    var n := ChunkOf(t, more);
    var input := t + "\n" + more;
    assert forall i :: 0 <= i < |t| ==> input[i] == t[i];
    ChunkLenExact(input, |t| + 1);
    PieceContent(t);
    GetLineStep(input);
  }

  lemma LeftRead(more: string)
    ensures GetLine(LEFT + "\n" + more) == Some((LEFT, more))
  {
    PieceLine(LEFT, more);
  }

  lemma LeftSplits()
    ensures SplitLine(LEFT) == Some(("disabled", "1\""))
  {
    IndexOfExact(LEFT, '=', 0, 8);
    assert LEFT[..8] == "disabled" && LEFT[9..] == "1\"";
  }

  lemma OneRead()
    ensures Atoi("1\"") == 1
  {
    NumberRoundTrip(1, "\"");
    assert Decimal.Text(1) == "1";
    assert "1" + "\"" == "1\"";
  }

  /** What is left of the line sets the field disabled. */
  lemma LeftSets(cur: Values)
    requires |cur| == |FIELDS|
    ensures SetLine(FIELDS, cur, LEFT) == Some(cur[DISABLED_AT := Number(1)])
  {
    hide SplitLine, FieldIndex, Atoi;
    TableOk();
    LeftSplits();
    OneRead();
    IndexExact(FIELDS, DISABLED_AT);
  }

  lemma KeptGood()
    ensures Bytes(Kept()) && Printable(Kept()) && Lacks(Kept(), '\0')
    ensures GoodText(Quoted(Kept())) && |FieldLine("id_str", Quoted(Kept()))| == BUF_SIZE - 1
  {
    StringTextGood(Kept());
  }

  lemma KeptWritten()
    ensures FIELDS[ID_STR_AT] == Field("id_str", Str, Text(None), true)
    ensures Storable(Str, Text(Some(Kept()))) && Written(FIELDS[ID_STR_AT], Text(Some(Kept()))) == Some(Quoted(Kept()))
    ensures OnOneLine(Text(Some(Kept())))
  {
    hide Printable, Lacks, Bytes, GoodText, Kept;
    BoundedFields();
    KeptGood();
  }

  lemma IdStrGood()
    ensures Bytes(IdStr()) && Printable(IdStr()) && StringText(IdStr()) == Quoted(IdStr())
    ensures FieldLine("id_str", Quoted(IdStr())) == FieldLine("id_str", Quoted(Kept())) + LEFT
  {
  }

  lemma ReadOne(cur: Values, input: string, l: string, more: string, next: Values)
    requires |cur| == |next| == |FIELDS| && GetLine(input) == Some((l, more)) && l != "}"
    requires SetLine(FIELDS, cur, l) == Some(next)
    ensures ReadFields(FIELDS, cur, true, input) == ReadFields(FIELDS, next, true, more)
  {
    hide GetLine, SetLine;
  }

  lemma KeptSets(cur: Values)
    requires |cur| == |FIELDS|
    ensures SetLine(FIELDS, cur, "id_str=" + Quoted(Kept())) == Some(cur[ID_STR_AT := Text(Some(Kept()))])
  {
    hide SetLine, Kept, Storable, Written, WellFormed;
    TableOk();
    KeptWritten();
    SetWritten(FIELDS, cur, ID_STR_AT, Text(Some(Kept())));
    assert "id_str" + "=" + Quoted(Kept()) == "id_str=" + Quoted(Kept());
  }

  lemma KeptRead(more: string)
    ensures GetLine(FieldLine("id_str", Quoted(Kept())) + more) == Some(("id_str=" + Quoted(Kept()), more))
  {
    hide GetLine, Kept, GoodText, Printable, Bytes, Lacks;
    KeptGood();
    IdStrName();
    FullLine("id_str", Quoted(Kept()), more);
    assert "id_str" + "=" + Quoted(Kept()) == "id_str=" + Quoted(Kept());
  }

  lemma Regroup(first: string, left: string, more: string)
    ensures (first + left) + "\n" + more == first + (left + "\n" + more)
  {
  }

  /** The line of this id_str sets two fields. */
  lemma CutIdStr(cur: Values, more: string)
    requires |cur| == |FIELDS|
    ensures ReadFields(FIELDS, cur, true, FieldLine("id_str", Quoted(IdStr())) + "\n" + more)
         == ReadFields(FIELDS, cur[ID_STR_AT := Text(Some(Kept()))][DISABLED_AT := Number(1)], true, more)
  {
    hide GetLine, SetLine, Kept, IdStr, ReadFields, Printable, Bytes, FieldLine, Quoted;
    var first := FieldLine("id_str", Quoted(Kept()));
    var next := cur[ID_STR_AT := Text(Some(Kept()))];
    IdStrGood();
    Regroup(first, LEFT, more);
    KeptRead(LEFT + "\n" + more);
    KeptSets(cur);
    ReadOne(cur, first + (LEFT + "\n" + more), "id_str=" + Quoted(Kept()), LEFT + "\n" + more, next);
    LeftRead(more);
    LeftSets(next);
    ReadOne(next, LEFT + "\n" + more, LEFT, more, next[DISABLED_AT := Number(1)]);
  }

  lemma IdStrName()
    ensures GoodName("id_str")
  {
  }

  /** A network that survives but for its id_str comes back without errors: the
      id_str is cut, and the network is disabled, whatever it was. */
  lemma CutSetsDisabled(vs: Values, rest: string)
    requires StorableAll(FIELDS, vs) && OnOneLineAll(vs) && KeptAll(vs) && Acceptable(vs)
    requires vs[ID_STR_AT] == Text(Some(IdStr()))
    ensures ReadNetwork(WriteNetwork(vs) + rest)
         == (Some(vs[ID_STR_AT := Text(Some(Kept()))][DISABLED_AT := Number(1)]), rest)
  {
    hide StorableAll, ReadFields, WriteNetwork, ReadUpTo, Kept, IdStr, LineText, Acceptable, Validated, BlockText,
         WellFormed;
    hide OnOneLineAll, KeptAll;
    ReadToIdStr(vs, rest);
    var cur := ReadUpTo(FIELDS, vs, ID_STR_AT);
    LinesFromIdStr(vs, rest);
    UpToIdStr(vs);
    CutIdStr(cur, "}\n" + rest);
    IdStrLine(vs);
    var after := cur[ID_STR_AT := Text(Some(Kept()))][DISABLED_AT := Number(1)];
    BlockEnds(FIELDS, after, true, rest);
    assert after == vs[ID_STR_AT := Text(Some(Kept()))][DISABLED_AT := Number(1)] by {
      SameBut(cur, vs, Text(Some(Kept())));
    }
    StillAcceptable(vs, after);
  }

  /** Behind the line of id_str nothing is written. */
  lemma LinesFromIdStr(vs: Values, rest: string)
    requires StorableAll(FIELDS, vs)
    ensures BlockText(FIELDS, vs, ID_STR_AT) + ("}\n" + rest)
         == LineText(FIELDS[ID_STR_AT], vs[ID_STR_AT]) + ("}\n" + rest)
  {
    hide Storable, LineText;
    UnsavedLines(vs, ID_STR_AT + 1);
  }

  lemma {:induction false} UnsavedLines(vs: Values, n: nat)
    requires StorableAll(FIELDS, vs) && ID_STR_AT < n <= |FIELDS|
    ensures BlockText(FIELDS, vs, n) == ""
    decreases |FIELDS| - n
  {
    hide Storable, ValueText;
    if n < |FIELDS| {
      UnsavedLines(vs, n + 1);
    }
  }

  lemma UpToIdStr(vs: Values)
    requires StorableAll(FIELDS, vs) && KeptAll(vs)
    ensures ReadUpTo(FIELDS, vs, ID_STR_AT)[ID_STR_AT := vs[ID_STR_AT]] == vs
  {
    hide Storable, Restored, Kept, GoodDefault, GoodName, KeptAll;
    TableOk();
    var r := ReadUpTo(FIELDS, vs, ID_STR_AT)[ID_STR_AT := vs[ID_STR_AT]];
    forall j | 0 <= j < |FIELDS|
      ensures r[j] == vs[j]
    {
      KeptAt(vs, j);
    }
  }

  lemma KeptAt(vs: Values, j: nat)
    requires StorableAll(FIELDS, vs) && KeptAll(vs) && j < |FIELDS|
    ensures Restored(FIELDS[j], vs[j]) == vs[j]
    ensures j > ID_STR_AT ==> vs[j] == FIELDS[j].def
  {
    hide Storable, Restored, GoodDefault, GoodName;
    TableOk();
    RestoredExact(FIELDS[j], vs[j]);
  }

  lemma SameBut(cur: Values, vs: Values, v: Value)
    requires |cur| == |vs| == |FIELDS| && cur[ID_STR_AT := vs[ID_STR_AT]] == vs
    ensures cur[ID_STR_AT := v][DISABLED_AT := Number(1)] == vs[ID_STR_AT := v][DISABLED_AT := Number(1)]
  {
    assert cur[ID_STR_AT := v] == vs[ID_STR_AT := v];
  }

  /** The checks on a block look at neither field. */
  lemma StillAcceptable(vs: Values, after: Values)
    requires Acceptable(vs) && |after| == |FIELDS|
    requires forall i :: 0 <= i < |FIELDS| && i != ID_STR_AT && i != DISABLED_AT ==> after[i] == vs[i]
    ensures Shaped(after) && Validated(after) == Some(after)
  {
  }

  lemma IdStrLine(vs: Values)
    requires StorableAll(FIELDS, vs) && vs[ID_STR_AT] == Text(Some(IdStr()))
    ensures LineText(FIELDS[ID_STR_AT], vs[ID_STR_AT]) == FieldLine("id_str", Quoted(IdStr())) + "\n"
  {
    hide IdStr;
    IdStrGood();
    BoundedFields();
    assert Storable(FIELDS[ID_STR_AT].kind, vs[ID_STR_AT]);
  }
}
