/** Lines of a network block that are longer than the reader's buffer
    (wpa_supplicant/config_file.c): they are cut into pieces, and every piece is
    read as a line of its own. */
module ConfigCut {
  import opened ConfigBlock
  import opened ConfigLine
  import opened ConfigNetwork
  import opened ConfigString
  import opened Wrappers

  /** A field that holds strings without a limit of their own. */
  predicate StringKind(kind: Kind) {
    kind.StrLen? || kind.Str?
  }

  // ----- texts too short for a string

  /** A proper beginning of the text of a string spells a shorter string. */
  lemma CutShorter(s: string, t: string)
    requires Bytes(s) && s != "" && t < StringText(s)
    ensures StringValue(t).Some? ==> |StringValue(t).value| < |s|
  {
  }

  /** So does any text that is no longer than the string. */
  lemma ShortShorter(s: string, t: string)
    requires s != "" && |t| <= |s|
    ensures StringValue(t).Some? ==> |StringValue(t).value| < |s|
  {
  }

  lemma ShorterDiffers(kind: Kind, t: string, s: string)
    requires StringKind(kind)
    requires StringValue(t).Some? ==> |StringValue(t).value| < |s|
    ensures ParseValue(kind, t) != Some(Text(Some(s)))
  {
    hide StringValue, CString;
  }

  // ----- one piece

  /** A piece of a line that can set no field to a string: it is too short, or it
      has no equals sign. */
  ghost predicate Harmless(p: string, s: string) {
    |p| <= |s| || Lacks(p, '=')
  }

  /** What a harmless piece says leaves a field different from the string. */
  lemma PieceDiffers(table: seq<Field>, cur: Values, i: nat, s: string, l: string)
    requires WellFormed(table) && |cur| == |table| && i < |table| && StringKind(table[i].kind) && s != ""
    requires cur[i] != Text(Some(s)) && (|l| <= |s| + 1 || Lacks(l, '='))
    ensures var n := SetLine(table, cur, l); n.Some? ==> n.value[i] != Text(Some(s))
  {
    hide ParseValue, GoodName, GoodDefault;
    var nv := SplitLine(l);
    if nv.Some? {
      var t := nv.value.1;
      assert |t| < |l|;
      ShortShorter(s, t);
      ShorterDiffers(table[i].kind, t, s);
    }
  }

  /** Whatever has been read before, what follows never makes up for a missing string. */
  ghost predicate Leaves(table: seq<Field>, i: nat, s: string, more: string)
    requires i < |table|
  {
    forall cur: Values, ok: bool :: |cur| == |table| && cur[i] != Text(Some(s)) ==>
      ReadFields(table, cur, ok, more).values[i] != Text(Some(s))
  }

  /** Reading the rest of a line and what follows leaves a field different from a
      string when the rest is harmless and what follows does. */
  lemma {:induction false} RestDiffers(table: seq<Field>, cur: Values, ok: bool, i: nat, s: string, p: string,
                                       more: string)
    requires WellFormed(table) && |cur| == |table| && i < |table| && StringKind(table[i].kind) && s != ""
    requires cur[i] != Text(Some(s)) && Lacks(p, '\n') && Harmless(p, s) && Leaves(table, i, s, more)
    ensures ReadFields(table, cur, ok, p + "\n" + more).values[i] != Text(Some(s))
    decreases |p|, 1
  {
    hide GetLine, SetLine, Content, ChunkLen, WellFormed, Leaves;
    var input := p + "\n" + more;
    var n := ChunkOf(p, more);
    var chunk := input[..n];
    var c := Content(chunk);
    ContentWithin(chunk, '=');
    if c.None? {
      GetLineSkip(input);
      SameLine(table, cur, ok, input, input[n..]);
      PieceEnd(table, cur, ok, i, s, p, more, n);
    } else {
      GetLineStep(input);
      if c.value != "}" {
        ChunkHarmless(p, s, n);
        PieceDiffers(table, cur, i, s, c.value);
        SetKeepsLength(table, cur, c.value);
        var next := SetLine(table, cur, c.value);
        if next.None? {
          PieceEnd(table, cur, false, i, s, p, more, n);
        } else {
          PieceEnd(table, next.value, ok, i, s, p, more, n);
        }
      }
    }
  }

  lemma ChunkHarmless(p: string, s: string, n: nat)
    requires Harmless(p, s) && n <= |p| + 1
    ensures var chunk := (p + "\n")[..n]; |chunk| <= |s| + 1 || Lacks(chunk, '=')
  {
    LacksConcat(p, "\n", '=');
  }

  /** Reading goes on behind one chunk. */
  lemma {:induction false} PieceEnd(table: seq<Field>, cur: Values, ok: bool, i: nat, s: string, p: string,
                                    more: string, n: nat)
    requires WellFormed(table) && |cur| == |table| && i < |table| && StringKind(table[i].kind) && s != ""
    requires cur[i] != Text(Some(s)) && Lacks(p, '\n') && Harmless(p, s) && 0 < n <= |p| + 1
    requires Leaves(table, i, s, more)
    ensures var left := if n <= |p| then p[n..] + "\n" + more else more;
            ReadFields(table, cur, ok, left).values[i] != Text(Some(s))
    decreases |p|, 0
  {
    hide ReadFields, WellFormed;
    if n <= |p| {
      hide Leaves;
      RestDiffers(table, cur, ok, i, s, p[n..], more);
    }
  }

  // ----- a whole line

  /** A line cut short sets no field to the string that was written. */
  lemma CutLineDiffers(table: seq<Field>, cur: Values, i: nat, s: string, l: string)
    requires WellFormed(table) && |cur| == |table| && i < |table| && StringKind(table[i].kind)
    requires cur[i] != Text(Some(s)) && Bytes(s) && s != "" && l < table[i].name + "=" + StringText(s)
    ensures var n := SetLine(table, cur, l); n.Some? ==> n.value[i] != Text(Some(s))
  {
    hide ParseValue, StringText, GoodName, GoodDefault, SplitLine, StringValue;
    CutSplits(table[i].name, s, l);
    var nv := SplitLine(l);
    if nv.Some? {
      CutShorter(s, nv.value.1);
      ShorterDiffers(table[i].kind, nv.value.1, s);
      IndexExact(table, i);
    }
  }

  lemma CutSplits(name: string, s: string, l: string)
    requires GoodName(name) && Bytes(s) && l < name + "=" + StringText(s)
    ensures var nv := SplitLine(l); nv.Some? ==> nv.value.0 == name && nv.value.1 < StringText(s)
  {
    hide StringText, GoodName;
    var whole := name + "=" + StringText(s);
    NoEquals(name);
    assert forall k :: 0 <= k < |l| ==> l[k] == whole[k];
    assert forall k :: 0 <= k < |name| ==> whole[k] == name[k];
    if |l| <= |name| {
      IndexOfExact(l, '=', 0, |l|);
    } else {
      IndexOfExact(l, '=', 0, |name|);
      var t := l[|name| + 1..];
      assert l[..|name|] == name;
      assert t == whole[|name| + 1..][..|t|] && whole[|name| + 1..] == StringText(s);
    }
  }

  /** What is left of a long line is harmless: of a quoted string it is no longer
      than the string, and of a hexadecimal one it has digits only. */
  lemma LeftHarmless(name: string, s: string)
    requires Bytes(s) && |FieldLine(name, StringText(s))| >= BUF_SIZE && |name| <= MAX_NAME
    ensures Harmless(FieldLine(name, StringText(s))[BUF_SIZE - 1..], s) && s != ""
  {
    var line := FieldLine(name, StringText(s));
    if !Printable(s) {
      HexTextDigits(s);
      var left := line[BUF_SIZE - 1..];
      var k := BUF_SIZE - 1 - (|name| + 2);
      assert forall j :: 0 <= j < |left| ==> left[j] == HexText(s)[k + j];
    }
  }

  /** Names in a table are shorter than this. */
  const MAX_NAME := 250

  lemma StringWritten(f: Field, s: string)
    requires StringKind(f.kind) && f.saved && Storable(f.kind, Text(Some(s)))
    ensures Written(f, Text(Some(s))) == Some(StringText(s))
  {
  }

  lemma LongLine(table: seq<Field>, cur: Values, ok: bool, i: nat, s: string, more: string)
    requires WellFormed(table) && |cur| == |table| && i < |table|
    requires StringKind(table[i].kind) && |table[i].name| <= MAX_NAME
    requires Storable(table[i].kind, Text(Some(s))) && cur[i] != Text(Some(s)) && Leaves(table, i, s, more)
    requires |FieldLine(table[i].name, StringText(s))| >= BUF_SIZE
    ensures ReadFields(table, cur, ok, FieldLine(table[i].name, StringText(s)) + "\n" + more).values[i] != Text(Some(s))
  {
    hide GetLine, SetLine, StringText, Harmless, GoodName, GoodDefault, GoodText, Leaves;
    var name := table[i].name;
    var line := FieldLine(name, StringText(s));
    StringTextGood(s);
    LongLineCut(name, StringText(s), more);
    LeftHarmless(name, s);
    OneLine(name, StringText(s));
    var p := line[BUF_SIZE - 1..];
    var l := GetLine(line + "\n" + more).value.0;
    if l != "}" {
      CutLineDiffers(table, cur, i, s, l);
      SetKeepsLength(table, cur, l);
      var n := SetLine(table, cur, l);
      if n.None? {
        RestDiffers(table, cur, false, i, s, p, more);
      } else {
        RestDiffers(table, n.value, ok, i, s, p, more);
      }
    }
  }

  /** The lines of later fields that fit do not set the field. */
  lemma LaterFieldsLeave(table: seq<Field>, vs: Values, n: nat, i: nat, s: string, rest: string)
    requires WellFormed(table) && StorableAll(table, vs) && i < n <= |table|
    requires forall j :: n <= j < |table| ==> Fits(table[j], vs[j]) && OnOneLine(vs[j])
    ensures Leaves(table, i, s, BlockText(table, vs, n) + ("}\n" + rest))
  {
    hide ReadFields, WellFormed, Storable, Fits, OnOneLine;
    var more := BlockText(table, vs, n) + ("}\n" + rest);
    forall cur: Values, ok: bool | |cur| == |table| && cur[i] != Text(Some(s))
      ensures ReadFields(table, cur, ok, more).values[i] != Text(Some(s))
    {
      LaterFieldsKeep(table, vs, n, cur, ok, rest, i);
    }
  }

  /** A string field survives the reading of its line and of all that is written
      behind it exactly when its line fits the reader's buffer: no later piece of
      a longer line makes up for the first one. */
  lemma StringFieldExact(table: seq<Field>, vs: Values, cur: Values, ok: bool, i: nat, rest: string)
    requires WellFormed(table) && StorableAll(table, vs) && |cur| == |table| && i < |table|
    requires StringKind(table[i].kind) && table[i].saved && |table[i].name| <= MAX_NAME
    requires vs[i] != Text(None) && cur[i] != vs[i]
    requires forall j :: i < j < |table| ==> Fits(table[j], vs[j]) && OnOneLine(vs[j])
    ensures ReadFields(table, cur, ok, BlockText(table, vs, i) + ("}\n" + rest)).values[i] == vs[i]
       <==> Fits(table[i], vs[i])
  {
    hide StringText, ReadFields, WellFormed, Storable, Written, OnOneLine, LineText;
    var s := StoredText(table[i].kind, vs[i]);
    var more := BlockText(table, vs, i + 1) + ("}\n" + rest);
    StringWritten(table[i], s);
    StringLine(table[i], s);
    assert BlockText(table, vs, i) + ("}\n" + rest) == LineText(table[i], vs[i]) + more;
    if Fits(table[i], vs[i]) {
      ReadStep(table, cur, ok, i, vs[i], more);
      LaterFieldsKeep(table, vs, i + 1, cur[i := vs[i]], ok, rest, i);
    } else {
      LaterFieldsLeave(table, vs, i + 1, i, s, rest);
      LongLine(table, cur, ok, i, s, more);
    }
  }

  lemma StoredText(kind: Kind, v: Value) returns (s: string)
    requires StringKind(kind) && Storable(kind, v) && v != Text(None)
    ensures v == Text(Some(s)) && OnOneLine(v)
  {
    s := v.text.value;
  }

  lemma StringLine(f: Field, s: string)
    requires StringKind(f.kind) && f.saved && Storable(f.kind, Text(Some(s)))
    ensures LineText(f, Text(Some(s))) == FieldLine(f.name, StringText(s)) + "\n"
  {
    StringWritten(f, s);
  }
}
