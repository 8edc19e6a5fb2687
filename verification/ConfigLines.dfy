/** A network block as a whole (wpa_supplicant/config_file.c): when it is in error,
    and which of its lines sets a field. */
module ConfigLines {
  import opened ConfigBlock
  import opened ConfigComment
  import opened ConfigFile
  import opened ConfigLine
  import opened ConfigNetwork
  import opened WordList
  import opened Wrappers

  // ----- lines

  /** The lines that say something, as they are read from a file. */
  ghost function Lines(input: string): (ls: seq<string>)
    decreases |input|
  {
    var l := GetLine(input);
    if l.None? then [] else [l.value.0] + Lines(l.value.1)
  }

  /** The lines before the first closing brace. */
  ghost function BlockEnd(ls: seq<string>): (n: nat)
    ensures n <= |ls| && "}" !in ls[..n] && (n < |ls| ==> ls[n] == "}")
  {
    if ls == [] || ls[0] == "}" then 0
    else
      assert forall n: nat :: n < |ls| ==> ls[..n + 1] == [ls[0]] + ls[1..][..n];
      1 + BlockEnd(ls[1..])
  }

  /** The line sets field f to v: it is the name of the field, an equals sign and a
      text that the field takes, and a quote at the front of the text is closed. */
  ghost predicate Sets(f: Field, line: string, v: Value) {
    exists text :: line == f.name + "=" + text && TextSets(f.kind, text, v)
  }

  ghost predicate TextSets(kind: Kind, text: string, v: Value) {
    (text != "" && text[0] == '"' ==> '"' in text[1..]) && ParseValue(kind, text) == Some(v)
  }

  ghost predicate Proper(table: seq<Field>, line: string) {
    exists i: nat, v :: i < |table| && Sets(table[i], line, v)
  }

  // ----- one line

  lemma SetExact(table: seq<Field>, cur: Values, line: string)
    requires WellFormed(table) && |cur| == |table|
    ensures SetLine(table, cur, line).Some? <==> Proper(table, line)
    ensures forall i: nat, v :: i < |table| && Sets(table[i], line, v) ==>
              SetLine(table, cur, line) == Some(cur[i := v])
  {
    hide SetLine, Sets;
    forall i: nat, v | i < |table| && Sets(table[i], line, v)
      ensures SetLine(table, cur, line) == Some(cur[i := v])
    {
      SetBy(table, cur, line, i, v);
    }
    if SetLine(table, cur, line).Some? {
      SetFound(table, cur, line);
    }
  }

  lemma SetBy(table: seq<Field>, cur: Values, line: string, i: nat, v: Value)
    requires WellFormed(table) && |cur| == |table| && i < |table| && Sets(table[i], line, v)
    ensures SetLine(table, cur, line) == Some(cur[i := v])
  {
    hide ParseValue, SplitLine, FieldIndex, GoodName, GoodDefault;
    var text :| line == table[i].name + "=" + text && TextSets(table[i].kind, text, v);
    if text != "" && text[0] == '"' {
      Quote(text);
    }
    SplitName(table[i].name, text);
    NamedAt(table, i);
  }

  lemma Quote(text: string)
    requires text != "" && '"' in text[1..]
    ensures !Lacks(text[1..], '"')
  {
  }

  lemma SetFound(table: seq<Field>, cur: Values, line: string)
    requires |cur| == |table| && SetLine(table, cur, line).Some?
    ensures Proper(table, line)
  {
    hide ParseValue;
    var eq := IndexOf(line, '=', 0);
    var text := line[eq + 1..];
    var i := FieldIndex(table, line[..eq], 0);
    var v := ParseValue(table[i].kind, text).value;
    assert line == line[..eq] + "=" + text;
    if text != "" && text[0] == '"' {
      var q := IndexOf(text, '"', 1);
      assert text[1..][q - 1] == '"';
    }
    assert TextSets(table[i].kind, text, v);
    assert Sets(table[i], line, v);
  }

  // ----- the whole block

  lemma Next(input: string)
    ensures GetLine(input).None? ==> Lines(input) == []
    ensures GetLine(input).Some? ==>
              var (l, rest) := GetLine(input).value;
              && Lines(input) == [l] + Lines(rest)
              && BlockEnd(Lines(input)) == if l == "}" then 0 else 1 + BlockEnd(Lines(rest))
  {
    hide GetLine;
  }

  lemma ReadStep(table: seq<Field>, cur: Values, ok: bool, input: string)
    requires |cur| == |table|
    ensures GetLine(input).None? ==> ReadFields(table, cur, ok, input) == Block(cur, false, "")
    ensures GetLine(input).Some? ==>
              var (l, rest) := GetLine(input).value;
              var n := SetLine(table, cur, l);
              ReadFields(table, cur, ok, input)
              == if l == "}" then Block(cur, ok, rest)
                 else ReadFields(table, if n.Some? then n.value else cur, ok && n.Some?, rest)
  {
    hide GetLine, SetLine;
  }

  /** A block is read without error exactly if it is closed and each of its lines
      sets some field; reading goes on behind the brace that closes it. */
  lemma {:induction false} BlockExact(table: seq<Field>, cur: Values, ok: bool, input: string)
    requires WellFormed(table) && |cur| == |table|
    ensures var ls, b := Lines(input), ReadFields(table, cur, ok, input);
            var n := BlockEnd(ls);
            && (b.ok <==> ok && n < |ls| && forall l :: l in ls[..n] ==> Proper(table, l))
            && (n < |ls| ==> Lines(b.rest) == ls[n + 1..])
    decreases |input|
  {
    hide GetLine, SetLine, ReadFields, Lines, BlockEnd, Proper, Sets, WellFormed;
    var ls := Lines(input);
    Next(input);
    ReadStep(table, cur, ok, input);
    if GetLine(input).Some? {
      var (l, rest) := GetLine(input).value;
      if l != "}" {
        SetExact(table, cur, l);
        var next := SetLine(table, cur, l);
        if next.Some? {
          SetKeepsLength(table, cur, l);
        }
        BlockExact(table, if next.Some? then next.value else cur, ok && next.Some?, rest);
        var n := BlockEnd(Lines(rest));
        assert ls[..n + 1] == [l] + Lines(rest)[..n];
      }
    }
  }

  /** The j-th line sets f to v, and no line between it and the n-th sets f. */
  ghost predicate SetLast(f: Field, ls: seq<string>, n: nat, j: nat, v: Value)
    requires n <= |ls|
  {
    j < n && Sets(f, ls[j], v) && NotSet(f, ls[j + 1..n])
  }

  ghost predicate NotSet(f: Field, ls: seq<string>) {
    forall l, v :: l in ls ==> !Sets(f, l, v)
  }

  /** The last line of a block that sets a field decides its value; what no line
      sets stays as it was. Lines in error change nothing. */
  lemma {:induction false} LastLineDecides(table: seq<Field>, cur: Values, ok: bool, input: string, i: nat)
    requires WellFormed(table) && |cur| == |table| && i < |table|
    ensures var ls, b := Lines(input), ReadFields(table, cur, ok, input);
            var n := BlockEnd(ls);
            && (forall j: nat, v :: SetLast(table[i], ls, n, j, v) ==> b.values[i] == v)
            && (NotSet(table[i], ls[..n]) ==> b.values[i] == cur[i])
    decreases |input|
  {
    hide GetLine, SetLine, ReadFields, Lines, BlockEnd, Sets, WellFormed;
    var ls := Lines(input);
    Next(input);
    ReadStep(table, cur, ok, input);
    if GetLine(input).Some? {
      var (l, rest) := GetLine(input).value;
      if l != "}" {
        LineDecides(table, cur, l, i);
        var next := SetLine(table, cur, l);
        var after := if next.Some? then next.value else cur;
        LastLineDecides(table, after, ok && next.Some?, rest, i);
        var m, e := Lines(rest), BlockEnd(Lines(rest));
        var n := e + 1;
        assert ls[..n] == [l] + m[..e];
        forall j: nat, v | SetLast(table[i], ls, n, j, v)
          ensures ReadFields(table, cur, ok, input).values[i] == v
        {
          if j == 0 {
            assert ls[1..n] == m[..e];
          } else {
            assert ls[j + 1..n] == m[j..e];
            assert SetLast(table[i], m, e, j - 1, v);
          }
        }
      }
    }
  }

  /** One line: the field gets what the line sets it to, and otherwise stays. */
  lemma LineDecides(table: seq<Field>, cur: Values, l: string, i: nat)
    requires WellFormed(table) && |cur| == |table| && i < |table|
    ensures var next := SetLine(table, cur, l);
            && (next.Some? ==> |next.value| == |table|)
            && (forall v :: Sets(table[i], l, v) ==> next.Some? && next.value[i] == v)
            && ((forall v :: !Sets(table[i], l, v)) && next.Some? ==> next.value[i] == cur[i])
  {
    hide SetLine, Sets;
    SetExact(table, cur, l);
    var next := SetLine(table, cur, l);
    if next.Some? {
      SetKeepsLength(table, cur, l);
      var k: nat, v :| k < |table| && Sets(table[k], l, v);
      assert next == Some(cur[k := v]);
    }
  }

  // ----- the network

  /** A network is read exactly if its block is closed, each of its lines sets some
      field, and it has a key if it needs one; and each field but the group ciphers
      is what its last line says, or else the default. */
  lemma NetworkExact(input: string, i: nat)
    requires i < |FIELDS|
    ensures var ls, b, r := Lines(input), ReadFields(FIELDS, Defaults(FIELDS), true, input), ReadNetwork(input).0;
            var n := BlockEnd(ls);
            && Shaped(b.values)
            && (r.Some? <==>
                  && n < |ls| && (forall l :: l in ls[..n] ==> Proper(FIELDS, l))
                  && !(And(b.values[KEY_MGMT_AT].m, 0x142) != 0 && b.values[PSK_AT].secret == NoPsk))
            && (r.Some? && i != GROUP_AT ==>
                  && |r.value| == |FIELDS|
                  && (forall j: nat, v :: SetLast(FIELDS[i], ls, n, j, v) ==> r.value[i] == v)
                  && (NotSet(FIELDS[i], ls[..n]) ==> r.value[i] == FIELDS[i].def))
  {
    hide ReadFields, Lines, BlockEnd, Proper, SetLast, NotSet, Validated, And;
    TableOk();
    ReadIsShaped(input);
    BlockExact(FIELDS, Defaults(FIELDS), true, input);
    LastLineDecides(FIELDS, Defaults(FIELDS), true, input, i);
    ValidatedExact(ReadFields(FIELDS, Defaults(FIELDS), true, input).values);
  }
}
