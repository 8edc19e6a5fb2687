/** What can come out of reading a network block, whatever is in the file
    (wpa_supplicant/config_file.c). */
module ConfigRead {
  import opened ConfigBlock
  import opened ConfigLine
  import opened ConfigNetwork
  import opened ConfigString
  import opened WordList
  import opened Wrappers

  // ----- lines have no newline in them

  lemma ChunkNewline(input: string)
    requires input != ""
    ensures var n := ChunkLen(input); 0 < n <= |input| && Lacks(input[..n - 1], '\n')
  {
  }

  /** Trimming takes a newline off the end of a text; a text that is not trimmed
      away starts with something else. */
  lemma {:induction false} TrimNewline(s: string)
    requires s != "" && s[0] != '\n' && Lacks(s[..|s| - 1], '\n')
    ensures Lacks(TrimRight(s), '\n')
  {
    var last := s[|s| - 1];
    assert s == s[..|s| - 1] + [last];
    if |s| > 1 && (Blank(last) || last == '\n') {
      var init := s[..|s| - 1];
      assert Lacks(init, '\n') && init[0] == s[0];
      assert Lacks(init[..|init| - 1], '\n');
      TrimNewline(init);
    }
  }

  lemma {:induction false} DropBlanksTail(s: string, c: char)
    requires s != "" && Lacks(s[..|s| - 1], c)
    ensures var r := DropBlanks(s); r != "" ==> Lacks(r[..|r| - 1], c)
  {
    if Blank(s[0]) {
      if |s| > 1 {
        assert s[1..][..|s| - 2] == s[..|s| - 1][1..];
        DropBlanksTail(s[1..], c);
      }
    }
  }

  lemma PrefixTail(s: string, r: string, c: char)
    requires r <= s && r != "" && Lacks(s[..|s| - 1], c)
    ensures Lacks(r[..|r| - 1], c)
  {
    assert forall i :: 0 <= i < |r| - 1 ==> r[i] == s[..|s| - 1][i];
  }

  lemma ContentOneLine(chunk: string)
    requires chunk != "" && Lacks(chunk[..|chunk| - 1], '\n')
    ensures Content(chunk).Some? ==> Lacks(Content(chunk).value, '\n')
  {
    hide CString, DropBlanks, StripComment, TrimRight;
    var t := CString(chunk);
    if Content(chunk).Some? {
      TextLeft(t);
      PrefixTail(chunk, t, '\n');
      DropBlanksTail(t, '\n');
      var s := DropBlanks(t);
      SomethingLeft(s);
      PrefixTail(s, StripComment(s), '\n');
      TrimNewline(StripComment(s));
    }
  }

  lemma TextLeft(t: string)
    ensures DropBlanks(t) != "" ==> t != ""
  {
  }

  /** A text that is no comment is not stripped to nothing. */
  lemma SomethingLeft(s: string)
    requires s != "" && s[0] != '#'
    ensures StripComment(s) <= s && StripComment(s) != "" && StripComment(s)[0] == s[0]
  {
  }

  lemma {:induction false} LineOneLine(input: string)
    ensures GetLine(input).Some? ==> Lacks(GetLine(input).value.0, '\n')
    decreases |input|
  {
    hide Content, ChunkLen;
    if input != "" {
      ChunkNewline(input);
      var n := ChunkLen(input);
      assert input[..n][..n - 1] == input[..n - 1];
      ContentOneLine(input[..n]);
      if Content(input[..n]).None? {
        LineOneLine(input[n..]);
      }
    }
  }

  // ----- values

  /** What can be set from a line: no passphrase with a newline, and no mask
      without bits. */
  ghost predicate FromLine(v: Value) {
    OnOneLine(v) && (v.Mask? ==> v.m != 0)
  }

  lemma ParsedFromLine(kind: Kind, t: string)
    requires Lacks(t, '\n')
    ensures ParseValue(kind, t).Some? ==> FromLine(ParseValue(kind, t).value)
  {
    hide MaskOf, Tokens, AllKnown, StringValue, MacValue;
  }

  lemma SetFromLine(table: seq<Field>, cur: Values, l: string, i: nat)
    requires |cur| == |table| && i < |table| && Lacks(l, '\n')
    ensures var n := SetLine(table, cur, l); n.Some? ==> n.value[i] == cur[i] || FromLine(n.value[i])
  {
    hide ParseValue, FromLine, FieldIndex;
    var nv := SplitLine(l);
    if nv.Some? {
      assert Lacks(nv.value.1, '\n');
      FieldIndexAt(table, nv.value.0);
      var k := FieldIndex(table, nv.value.0, 0);
      if k < |table| {
        ParsedFromLine(table[k].kind, nv.value.1);
      }
    }
  }

  lemma FieldIndexAt(table: seq<Field>, name: string)
    ensures FieldIndex(table, name, 0) <= |table|
  {
  }

  /** Whatever the file, a value that has been read is the one there was before or
      one that can be set from a line. */
  lemma {:induction false} ReadFromLines(table: seq<Field>, cur: Values, ok: bool, input: string, i: nat)
    requires |cur| == |table| && i < |table|
    ensures var v := ReadFields(table, cur, ok, input).values[i]; v == cur[i] || FromLine(v)
    decreases |input|
  {
    hide GetLine, SetLine, FromLine;
    Shrinks(input);
    LineOneLine(input);
    var l := GetLine(input);
    if l.Some? && l.value.0 != "}" {
      SetFromLine(table, cur, l.value.0, i);
      SetKeepsLength(table, cur, l.value.0);
      var n := SetLine(table, cur, l.value.0);
      if n.None? {
        ReadFromLines(table, cur, false, l.value.1, i);
      } else {
        ReadFromLines(table, n.value, ok, l.value.1, i);
      }
    }
  }

  /** A line with an error spoils the block: nothing after it makes up for it. */
  lemma {:induction false} ErrorsStay(table: seq<Field>, cur: Values, input: string)
    requires |cur| == |table|
    ensures !ReadFields(table, cur, false, input).ok
    decreases |input|
  {
    hide GetLine, SetLine;
    Shrinks(input);
    var l := GetLine(input);
    if l.Some? && l.value.0 != "}" {
      SetKeepsLength(table, cur, l.value.0);
      var n := SetLine(table, cur, l.value.0);
      ErrorsStay(table, if n.None? then cur else n.value, l.value.1);
    }
  }
}
