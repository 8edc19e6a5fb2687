/** Network blocks of a configuration file for any table of fields
    (wpa_supplicant/config_file.c): written line by line and read back. */
module ConfigBlock {
  import opened ConfigLine
  import opened ConfigNetwork
  import opened ConfigString
  import opened Wrappers

  /** The values of a network, one for each field of the table. */
  type Values = seq<Value>

  // ----- tables

  ghost predicate WellFormed(table: seq<Field>) {
    && (forall i :: 0 <= i < |table| ==> GoodName(table[i].name) && GoodDefault(table[i]))
    && (forall i, j :: 0 <= i < j < |table| ==> table[i].name != table[j].name)
  }

  function Defaults(table: seq<Field>): (vs: Values)
    ensures |vs| == |table| && forall i :: 0 <= i < |table| ==> vs[i] == table[i].def
  {
    seq(|table|, i requires 0 <= i < |table| => table[i].def)
  }

  /** The position of a field, |table| for an unknown one. */
  function FieldIndex(table: seq<Field>, name: string, k: nat): (r: nat)
    requires k <= |table|
    ensures k <= r <= |table|
    ensures r < |table| ==> table[r].name == name
    ensures forall i :: k <= i < r ==> table[i].name != name
    decreases |table| - k
  {
    if k == |table| || table[k].name == name then k else FieldIndex(table, name, k + 1)
  }

  // ----- reading

  /** The name and the text of a line; None for an error. */
  function SplitLine(line: string): Option<(string, string)> {
    var eq := IndexOf(line, '=', 0);
    if eq == |line| then None
    else
      var text := line[eq + 1..];
      if text != "" && text[0] == '"' && IndexOf(text, '"', 1) == |text| then None
      else Some((line[..eq], text))
  }

  function SetLine(table: seq<Field>, cur: Values, line: string): (r: Option<Values>)
    requires |cur| == |table|
    ensures r.Some? ==> |r.value| == |table|
  {
    var nv := SplitLine(line);
    if nv.None? then None
    else
      var i := FieldIndex(table, nv.value.0, 0);
      if i == |table| then None
      else
        var v := ParseValue(table[i].kind, nv.value.1);
        if v.None? then None else Some(cur[i := v.value])
  }

  /** What reading a block came to: the values, whether there was no error, and
      the rest of the file. */
  datatype Block = Block(values: Values, ok: bool, rest: string)

  function ReadFields(table: seq<Field>, cur: Values, ok: bool, input: string): (b: Block)
    requires |cur| == |table|
    ensures |b.values| == |table|
    ensures |b.rest| <= |input|
    decreases |input|
  {
    var l := GetLine(input);
    if l.None? then Block(cur, false, "")
    else if l.value.0 == "}" then Block(cur, ok, l.value.1)
    else
      var n := SetLine(table, cur, l.value.0);
      if n.None? then ReadFields(table, cur, false, l.value.1)
      else ReadFields(table, n.value, ok, l.value.1)
  }

  /** Reads the lines of a block; an error does not stop it. */
  method ReadBlock(table: seq<Field>, f: Stream) returns (values: Values, ok: bool)
    modifies f
    ensures |values| == |table|
    ensures Block(values, ok, f.rest) == ReadFields(table, Defaults(table), true, old(f.rest))
  {
    hide GetLine, SetLine;
    values, ok := Defaults(table), true;
    var end := false;
    ghost var b := ReadFields(table, values, true, f.rest);
    while !end
      invariant |values| == |table|
      invariant !end ==> b == ReadFields(table, values, ok, f.rest)
      invariant end ==> b == Block(values, ok, f.rest)
      decreases !end, |f.rest|
    {
      ghost var before := f.rest;
      Shrinks(before);
      var pos := f.NextLine();
      if pos.None? {
        ok := false;
        return;
      }
      if pos.value == "}" {
        end := true;
      } else {
        var next := SetLine(table, values, pos.value);
        if next.Some? {
          SetKeepsLength(table, values, pos.value);
          values := next.value;
        } else {
          ok := false;
        }
      }
    }
  }

  lemma Shrinks(input: string)
    ensures GetLine(input).Some? ==> |GetLine(input).value.1| < |input|
  {
  }

  lemma SetKeepsLength(table: seq<Field>, cur: Values, line: string)
    requires |cur| == |table|
    ensures SetLine(table, cur, line).Some? ==> |SetLine(table, cur, line).value| == |table|
  {
  }

  // ----- writing

  ghost predicate StorableAll(table: seq<Field>, vs: Values) {
    |vs| == |table| && forall i :: 0 <= i < |table| ==> Storable(table[i].kind, vs[i])
  }

  /** The line for a field, or nothing. */
  ghost function LineText(f: Field, v: Value): string
    requires Storable(f.kind, v)
  {
    var t := Written(f, v);
    if t.None? then "" else FieldLine(f.name, t.value) + "\n"
  }

  /** The lines from field i on. */
  ghost function BlockText(table: seq<Field>, vs: Values, i: nat): string
    requires StorableAll(table, vs) && i <= |table|
    decreases |table| - i
  {
    if i == |table| then "" else LineText(table[i], vs[i]) + BlockText(table, vs, i + 1)
  }

  /** The line of a field, if it has one, fits the reader's buffer. */
  ghost predicate Fits(f: Field, v: Value)
    requires Storable(f.kind, v)
  {
    var t := Written(f, v);
    t.Some? ==> |FieldLine(f.name, t.value)| < BUF_SIZE
  }

  /** No line is longer than the reader's buffer takes. */
  ghost predicate FitsAll(table: seq<Field>, vs: Values)
    requires StorableAll(table, vs)
  {
    forall i :: 0 <= i < |table| ==> Fits(table[i], vs[i])
  }

  // ----- one field

  lemma NoEquals(name: string)
    requires GoodName(name)
    ensures Lacks(name, '=')
  {
    NameLacks(name);
  }

  /** A line that was written splits into what was written. */
  lemma SplitWritten(name: string, text: string)
    requires GoodName(name) && GoodText(text)
    ensures SplitLine(name + "=" + text) == Some((name, text))
  {
    var line := name + "=" + text;
    NoEquals(name);
    assert forall i :: 0 <= i < |name| ==> line[i] == name[i];
    IndexOfExact(line, '=', 0, |name|);
    assert line[..|name|] == name && line[|name| + 1..] == text;
    if text[0] == '"' {
      assert text[|text| - 1] == '"';
      assert IndexOf(text, '"', 1) != |text|;
    }
  }

  lemma IndexExact(table: seq<Field>, i: nat)
    requires WellFormed(table) && i < |table|
    ensures FieldIndex(table, table[i].name, 0) == i
  {
    var r := FieldIndex(table, table[i].name, 0);
    assert r <= i;
  }

  lemma SetWritten(table: seq<Field>, cur: Values, i: nat, v: Value)
    requires WellFormed(table) && |cur| == |table| && i < |table|
    requires Storable(table[i].kind, v) && Written(table[i], v).Some? && OnOneLine(v)
    ensures SetLine(table, cur, table[i].name + "=" + Written(table[i], v).value) == Some(cur[i := v])
  {
    hide Storable, Written, GoodText, GoodName, GoodDefault, SplitLine, ParseValue, FieldIndex;
    FieldRoundTrip(table[i], v);
    SplitWritten(table[i].name, Written(table[i], v).value);
    IndexExact(table, i);
  }

  // ----- whole blocks

  lemma SameLine(table: seq<Field>, cur: Values, ok: bool, a: string, b: string)
    requires |cur| == |table| && GetLine(a) == GetLine(b)
    ensures ReadFields(table, cur, ok, a) == ReadFields(table, cur, ok, b)
  {
    hide GetLine, SetLine;
  }

  lemma BraceRead(rest: string)
    ensures GetLine("}\n" + rest) == Some(("}", rest))
  {
    hide GetLine;
    PlainLine("}", rest);
    assert "}" + "\n" + rest == "}\n" + rest;
  }

  /** Reading a written line sets its field, and reading goes on behind it. */
  lemma ReadStep(table: seq<Field>, cur: Values, ok: bool, i: nat, v: Value, more: string)
    requires WellFormed(table) && |cur| == |table| && i < |table|
    requires Storable(table[i].kind, v) && Written(table[i], v).Some? && OnOneLine(v)
    requires |FieldLine(table[i].name, Written(table[i], v).value)| < BUF_SIZE
    ensures ReadFields(table, cur, ok, LineText(table[i], v) + more) == ReadFields(table, cur[i := v], ok, more)
  {
    hide GetLine, SetLine, Storable, Written, GoodName, GoodDefault, GoodText;
    var f := table[i];
    var t := Written(f, v).value;
    FieldRoundTrip(f, v);
    LineReadBack(f.name, t, more);
    SetWritten(table, cur, i, v);
    NotBrace(f.name, t);
    var l := GetLine(LineText(f, v) + more).value;
    SameLine(table, cur[i := v], ok, l.1, more);
  }

  /** The values when the first n fields have been read. */
  ghost function ReadUpTo(table: seq<Field>, vs: Values, n: nat): (r: Values)
    requires StorableAll(table, vs) && n <= |table|
    ensures |r| == |table|
    ensures forall j :: 0 <= j < |table| ==> r[j] == if j < n then Restored(table[j], vs[j]) else table[j].def
  {
    seq(|table|, j requires 0 <= j < |table| => if j < n then Restored(table[j], vs[j]) else table[j].def)
  }

  /** Reading the line of a field, if it has one, leaves its value as it is restored. */
  lemma FieldStep(table: seq<Field>, vs: Values, n: nat, more: string)
    requires WellFormed(table) && StorableAll(table, vs) && n < |table|
    requires Fits(table[n], vs[n]) && OnOneLine(vs[n])
    ensures ReadFields(table, ReadUpTo(table, vs, n), true, LineText(table[n], vs[n]) + more)
         == ReadFields(table, ReadUpTo(table, vs, n + 1), true, more)
  {
    hide ReadFields, Storable, Written, GoodName, GoodDefault, OnOneLine, WellFormed;
    var cur, next := ReadUpTo(table, vs, n), ReadUpTo(table, vs, n + 1);
    if Written(table[n], vs[n]).None? {
      NoLine(table[n], vs[n]);
      assert next == cur;
      assert "" + more == more;
    } else {
      ReadStep(table, cur, true, n, vs[n], more);
      assert next == cur[n := vs[n]];
    }
  }

  /** Reading the lines of the first n fields restores these fields and leaves the
      rest to be read. */
  lemma {:induction false} FieldsReadBack(table: seq<Field>, vs: Values, n: nat, tail: string)
    requires WellFormed(table) && StorableAll(table, vs) && n <= |table|
    requires forall j :: 0 <= j < n ==> Fits(table[j], vs[j]) && OnOneLine(vs[j])
    ensures ReadFields(table, Defaults(table), true, BlockText(table, vs, 0) + tail)
         == ReadFields(table, ReadUpTo(table, vs, n), true, BlockText(table, vs, n) + tail)
    decreases n
  {
    hide Storable, ReadFields, LineText, WellFormed, Fits, OnOneLine, Restored;
    if n == 0 {
      assert ReadUpTo(table, vs, 0) == Defaults(table);
    } else {
      FieldsReadBack(table, vs, n - 1, tail);
      var more := BlockText(table, vs, n) + tail;
      assert BlockText(table, vs, n - 1) + tail == LineText(table[n - 1], vs[n - 1]) + more;
      FieldStep(table, vs, n - 1, more);
    }
  }

  /** Reading the lines of the fields from n on sets no field before n. */
  lemma {:induction false} LaterFieldsKeep(table: seq<Field>, vs: Values, n: nat, cur: Values, ok: bool, rest: string,
                                           i: nat)
    requires WellFormed(table) && StorableAll(table, vs) && i < n <= |table| == |cur|
    requires forall j :: n <= j < |table| ==> Fits(table[j], vs[j]) && OnOneLine(vs[j])
    ensures ReadFields(table, cur, ok, BlockText(table, vs, n) + ("}\n" + rest)).values[i] == cur[i]
    decreases |table| - n
  {
    hide Storable, ReadFields, WellFormed, Written, OnOneLine, BlockText, LineText;
    var tail := "}\n" + rest;
    if n == |table| {
      NoMoreLines(table, vs, tail);
      BlockEnds(table, cur, ok, rest);
    } else {
      var more := BlockText(table, vs, n + 1) + tail;
      FirstOfLines(table, vs, n, tail);
      if Written(table[n], vs[n]).None? {
        NoLine(table[n], vs[n]);
        assert "" + more == more;
        LaterFieldsKeep(table, vs, n + 1, cur, ok, rest, i);
      } else {
        ReadStep(table, cur, ok, n, vs[n], more);
        LaterFieldsKeep(table, vs, n + 1, cur[n := vs[n]], ok, rest, i);
      }
    }
  }

  lemma NoMoreLines(table: seq<Field>, vs: Values, tail: string)
    requires StorableAll(table, vs)
    ensures BlockText(table, vs, |table|) + tail == tail
  {
  }

  lemma FirstOfLines(table: seq<Field>, vs: Values, n: nat, tail: string)
    requires StorableAll(table, vs) && n < |table|
    ensures BlockText(table, vs, n) + tail == LineText(table[n], vs[n]) + (BlockText(table, vs, n + 1) + tail)
  {
    hide Storable, LineText;
  }

  lemma NoLine(f: Field, v: Value)
    requires Storable(f.kind, v) && Written(f, v).None?
    ensures LineText(f, v) == ""
  {
  }

  lemma BlockEnds(table: seq<Field>, cur: Values, ok: bool, rest: string)
    requires |cur| == |table|
    ensures ReadFields(table, cur, ok, "}\n" + rest) == Block(cur, ok, rest)
  {
    hide GetLine;
    BraceRead(rest);
  }

  lemma NotBrace(name: string, text: string)
    requires GoodName(name)
    ensures name + "=" + text != "}"
  {
    assert (name + "=" + text)[0] == name[0];
    NameLacks(name);
  }

  /** The text of every value is on one line. */
  ghost predicate OnOneLineAll(vs: Values) {
    forall i :: 0 <= i < |vs| ==> OnOneLine(vs[i])
  }

  /** A written block is read back to its end, and each of its values is restored
      or the default of its field. */
  lemma BlockRoundTrip(table: seq<Field>, vs: Values, rest: string)
    requires WellFormed(table) && StorableAll(table, vs) && FitsAll(table, vs) && OnOneLineAll(vs)
    ensures ReadFields(table, Defaults(table), true, BlockText(table, vs, 0) + ("}\n" + rest))
         == Block(ReadUpTo(table, vs, |table|), true, rest)
  {
    hide ReadFields, Fits, Storable, WellFormed, OnOneLine, Restored;
    FieldsReadBack(table, vs, |table|, "}\n" + rest);
    assert BlockText(table, vs, |table|) + ("}\n" + rest) == "}\n" + rest;
    BlockEnds(table, ReadUpTo(table, vs, |table|), true, rest);
  }

  /** So a block survives exactly if all its values are kept. */
  lemma BlockKept(table: seq<Field>, vs: Values)
    requires WellFormed(table) && StorableAll(table, vs)
    ensures ReadUpTo(table, vs, |table|) == vs <==> forall i :: 0 <= i < |table| ==> Kept(table[i], vs[i])
  {
    hide Storable, Restored, Kept, GoodDefault, GoodName;
    forall i | 0 <= i < |table|
      ensures Restored(table[i], vs[i]) == vs[i] <==> Kept(table[i], vs[i])
    {
      RestoredExact(table[i], vs[i]);
    }
    var r := ReadUpTo(table, vs, |table|);
    assert r == vs <==> forall i :: 0 <= i < |table| ==> r[i] == vs[i];
  }
}
