/** Reading a configuration file line by line (wpa_supplicant/config_file.c).
    A file is the string of its bytes; the buffer for a line has BUF_SIZE bytes. */
module ConfigLine {
  import opened Wrappers

  const BUF_SIZE := 256

  // ----- what the reader makes of the text

  predicate Blank(c: char) { c == ' ' || c == '\t' || c == '\r' }

  /** How many characters fgets takes: no more than fit, and none after a newline. */
  function ChunkLen(input: string): (r: nat)
    ensures r <= |input| && r < BUF_SIZE
    ensures input != "" ==> r > 0
  {
    var newline := IndexOf(input, '\n', 0);
    var line := if newline < |input| then newline + 1 else newline;
    if line < BUF_SIZE then line else BUF_SIZE - 1
  }

  predicate Lacks(s: string, c: char) {
    forall i :: 0 <= i < |s| ==> s[i] != c
  }

  /** The part of a buffer that string functions see. */
  function CString(s: string): (r: string)
    ensures r <= s && Lacks(r, '\0')
    ensures Lacks(s, '\0') ==> r == s
  {
    if s == "" || s[0] == '\0' then "" else [s[0]] + CString(s[1..])
  }

  function DropBlanks(s: string): (r: string)
    ensures |r| <= |s|
    ensures r != "" ==> !Blank(r[0])
  {
    if s != "" && Blank(s[0]) then DropBlanks(s[1..]) else s
  }

  /** The first position of a character from k on; |s| when there is none. */
  function IndexOf(s: string, c: char, k: nat): (r: nat)
    requires k <= |s|
    ensures k <= r <= |s|
    ensures r < |s| ==> s[r] == c
    ensures forall i :: k <= i < r ==> s[i] != c
    decreases |s| - k
  {
    if k == |s| || s[k] == c then k else IndexOf(s, c, k + 1)
  }

  /** The last position of a character from k on; None when there is none. */
  function LastIndexOf(s: string, c: char, k: nat): (r: Option<nat>)
    requires k <= |s|
    ensures r.Some? ==> k <= r.value < |s| && s[r.value] == c
    ensures forall i :: (if r.Some? then r.value + 1 else k) <= i < |s| ==> s[i] != c
    decreases |s|
  {
    if |s| == k then None
    else if s[|s| - 1] == c then Some(|s| - 1)
    else LastIndexOf(s[..|s| - 1], c, k)
  }

  /** Where the search for a comment starts: at the last of several quotes. */
  function CommentFrom(s: string): (r: nat)
    ensures r <= |s|
  {
    var q := IndexOf(s, '"', 0);
    if q == |s| then 0
    else
      var last := LastIndexOf(s, '"', q + 1);
      if last.Some? then last.value else 0
  }

  function StripComment(s: string): (r: string)
    ensures r <= s
  {
    s[..IndexOf(s, '#', CommentFrom(s))]
  }

  /** Trailing white space is removed, but never the first character. */
  function TrimRight(s: string): (r: string)
    ensures r <= s && (s != "" ==> r != "")
  {
    if |s| > 1 && (Blank(s[|s| - 1]) || s[|s| - 1] == '\n') then TrimRight(s[..|s| - 1]) else s
  }

  /** What a chunk of the file says; None when it is a comment or empty. */
  function Content(chunk: string): Option<string> {
    var s := DropBlanks(CString(chunk));
    if s == "" || s[0] == '#' || s[0] == '\n' then None else Some(TrimRight(StripComment(s)))
  }

  /** The next line that says something, and the rest of the file. */
  function GetLine(input: string): (r: Option<(string, string)>)
    ensures r.Some? ==> |r.value.1| < |input|
    decreases |input|
  {
    if input == "" then None
    else
      var n := ChunkLen(input);
      var c := Content(input[..n]);
      if c.Some? then Some((c.value, input[n..])) else GetLine(input[n..])
  }

  // ----- how the program reads

  class Stream {
    var rest: string
    var line: nat

    constructor (text: string)
      ensures rest == text && line == 0
    {
      rest, line := text, 0;
    }

    method Fgets() returns (chunk: string)
      modifies this`rest
      ensures var n := ChunkLen(old(rest)); chunk == old(rest)[..n] && rest == old(rest)[n..]
    {
      var k := 0;
      while k < |rest| && k < BUF_SIZE - 1 && (k == 0 || rest[k - 1] != '\n')
        invariant k <= |rest| && k < BUF_SIZE && rest == old(rest)
        invariant forall i :: 0 <= i < k - 1 ==> rest[i] != '\n'
      {
        k := k + 1;
      }
      ChunkLenExact(rest, k);
      chunk, rest := rest[..k], rest[k..];
    }

    /** Reads on to the next line that says something. */
    method NextLine() returns (pos: Option<string>)
      modifies this
      ensures pos.Some? <==> GetLine(old(rest)).Some?
      ensures pos.Some? ==> GetLine(old(rest)).value == (pos.value, rest)
      ensures pos.None? ==> rest == ""
    {
      hide Content, ChunkLen;
      while rest != ""
        invariant GetLine(rest) == GetLine(old(rest))
        decreases |rest|
      {
        ChunkNonempty(rest);
        var chunk := Fgets();
        line := line + 1;
        pos := Extract(chunk);
        if pos.Some? {
          return;
        }
      }
      return None;
    }
  }

  lemma ChunkNonempty(input: string)
    requires input != ""
    ensures 0 < ChunkLen(input) <= |input|
  {
  }

  method SkipBlanks(s: string) returns (pos: nat)
    ensures pos <= |s| && s[pos..] == DropBlanks(s)
  {
    pos := 0;
    assert s[0..] == s;
    while pos < |s| && Blank(s[pos])
      invariant 0 <= pos <= |s|
      invariant DropBlanks(s) == DropBlanks(s[pos..])
    {
      pos := pos + 1;
    }
  }

  /** Moves the end of a text back over its trailing white space. */
  method TrimEnd(s: string, last: nat) returns (end: nat)
    requires last < |s|
    ensures end <= last && s[..end + 1] == TrimRight(s[..last + 1])
  {
    end := last;
    while end > 0 && (s[end] == '\n' || Blank(s[end]))
      invariant 0 <= end <= last
      invariant TrimRight(s[..last + 1]) == TrimRight(s[..end + 1])
    {
      assert s[..end + 1][..end] == s[..end];
      end := end - 1;
    }
  }

  /** Cuts blanks, comment and trailing white space off a buffer. */
  method Extract(chunk: string) returns (r: Option<string>)
    ensures r == Content(chunk)
    ensures r.Some? && Lacks(chunk, '"') ==> Lacks(r.value, '#')
    ensures r.Some? ==> r.value != "" && !Blank(r.value[0]) && r.value[0] != '#'
  {
    if Lacks(chunk, '"') {
      NoSignLeft(chunk);
    }
    ContentFront(chunk);
    hide TrimRight, DropBlanks, CommentFrom;
    var s := CString(chunk);
    var pos := SkipBlanks(s);
    if pos == |s| || s[pos] == '#' || s[pos] == '\n' {
      return None;
    }
    s := s[pos..];
    var sstart := CommentFrom(s);
    CommentInside(s);
    var hash := IndexOf(s, '#', sstart);
    if hash == 0 {
      assert false;
    }
    var end := TrimEnd(s, hash - 1);
    return Some(s[..end + 1]);
  }

  /** Of a buffer without quotes nothing is left from the first comment sign on. */
  lemma NoSignLeft(chunk: string)
    requires Lacks(chunk, '"')
    ensures Content(chunk).Some? ==> Lacks(Content(chunk).value, '#')
  {
    hide TrimRight, DropBlanks;
    var s := DropBlanks(CString(chunk));
    DropBlanksLacks(CString(chunk), '"');
    IndexOfExact(s, '"', 0, |s|);
    assert Lacks(StripComment(s), '#');
  }

  lemma ContentFront(chunk: string)
    ensures Content(chunk).Some? ==>
              var r := Content(chunk).value; r != "" && !Blank(r[0]) && r[0] != '#'
  {
    hide TrimRight, DropBlanks, CommentFrom;
    var s := DropBlanks(CString(chunk));
    CommentInside(s);
    assert s != "" && s[0] != '#' ==> StripComment(s) != "" && StripComment(s)[0] == s[0];
  }

  lemma CommentInside(s: string)
    ensures CommentFrom(s) <= |s|
  {
  }

  // ----- reading a written line back

  /** Text that a comment search and trimming leave alone: either it is between
      double quotes, or it has no quote or comment sign and does not end in a blank. */
  ghost predicate GoodText(t: string) {
    && t != "" && Lacks(t, '\0') && Lacks(t, '\n') && !Blank(t[|t| - 1])
    && (|| (|t| >= 2 && t[0] == '"' && t[|t| - 1] == '"')
        || (Lacks(t, '"') && Lacks(t, '#')))
  }

  ghost predicate GoodName(name: string) {
    name != "" && forall i :: 0 <= i < |name| ==> NameChar(name[i])
  }

  predicate NameChar(c: char) { 'a' <= c <= 'z' || '0' <= c <= '9' || c == '_' }

  lemma NameLacks(name: string)
    requires GoodName(name)
    ensures Lacks(name, '"') && Lacks(name, '#') && Lacks(name, '\n') && Lacks(name, '\0') && Lacks(name, '=')
    ensures name != "" && NameChar(name[0])
  {
  }

  lemma LacksConcat(a: string, b: string, c: char)
    ensures Lacks(a + b, c) <==> Lacks(a, c) && Lacks(b, c)
  {
    if Lacks(a + b, c) {
      assert forall i :: 0 <= i < |a| ==> a[i] == (a + b)[i];
      assert forall i :: 0 <= i < |b| ==> b[i] == (a + b)[|a| + i];
    }
  }

  /** The line a writer makes of a field. */
  function FieldLine(name: string, text: string): string {
    "\t" + name + "=" + text
  }

  lemma ChunkLenExact(input: string, n: nat)
    requires n <= |input| && n < BUF_SIZE
    requires forall i :: 0 <= i < n - 1 ==> input[i] != '\n'
    requires n == |input| || n == BUF_SIZE - 1 || (n > 0 && input[n - 1] == '\n')
    ensures ChunkLen(input) == n
  {
    var newline := IndexOf(input, '\n', 0);
    assert newline >= n - 1;
  }

  lemma IndexOfExact(s: string, c: char, k: nat, i: nat)
    requires k <= i <= |s| && (i < |s| ==> s[i] == c)
    requires forall j :: k <= j < i ==> s[j] != c
    ensures IndexOf(s, c, k) == i
  {
  }

  lemma LastIndexOfExact(s: string, c: char, k: nat, i: nat)
    requires k <= i < |s| && s[i] == c && forall j :: i < j < |s| ==> s[j] != c
    ensures LastIndexOf(s, c, k) == Some(i)
  {
    var r := LastIndexOf(s, c, k);
    assert r.Some?;
  }

  /** Neither search finds a comment in the text of a field, whatever ends the line. */
  lemma NoComment(name: string, text: string, tail: string)
    requires GoodName(name) && GoodText(text) && (tail == "" || tail == "\n")
    ensures StripComment(name + "=" + text + tail) == name + "=" + text + tail
  {
    hide GoodName;
    NameLacks(name);
    var s := name + "=" + text + tail;
    var n := |name| + 1;
    if |text| >= 2 && text[0] == '"' && text[|text| - 1] == '"' {
      assert forall i :: 0 <= i < n ==> s[i] == (name + "=")[i];
      LacksConcat(name, "=", '"');
      assert s[n] == text[0] && s[n + |text| - 1] == text[|text| - 1];
      assert forall i :: n + |text| <= i < |s| ==> s[i] == '\n';
      IndexOfExact(s, '"', 0, n);
      LastIndexOfExact(s, '"', n + 1, n + |text| - 1);
      IndexOfExact(s, '#', n + |text| - 1, |s|);
    } else {
      FieldLacks(name, text, tail, '"');
      FieldLacks(name, text, tail, '#');
      IndexOfExact(s, '"', 0, |s|);
      IndexOfExact(s, '#', 0, |s|);
    }
  }

  lemma FieldLacks(name: string, text: string, tail: string, c: char)
    requires Lacks(name, c) && Lacks(text, c) && c != '=' && c != '\n' && (tail == "" || tail == "\n")
    ensures Lacks(name + "=" + text + tail, c)
  {
    LacksConcat(name, "=", c);
    LacksConcat(name + "=", text, c);
    LacksConcat(name + "=" + text, tail, c);
  }

  lemma NoTrim(t: string, tail: string)
    requires t != "" && !Blank(t[|t| - 1]) && t[|t| - 1] != '\n' && (tail == "" || tail == "\n")
    ensures TrimRight(t + tail) == t
  {
    assert (t + "\n")[..|t|] == t;
    assert t + "" == t;
  }

  /** A written line, with or without its newline, says what was written. */
  lemma ContentOfLine(name: string, text: string, tail: string)
    requires GoodName(name) && GoodText(text) && (tail == "" || tail == "\n")
    ensures Content(FieldLine(name, text) + tail) == Some(name + "=" + text)
  {
    hide GoodName, StripComment, TrimRight, CString, DropBlanks;
    NameLacks(name);
    var s := name + "=" + text + tail;
    var c := FieldLine(name, text) + tail;
    assert c == "\t" + s && s[0] == name[0];
    NoNul(name, text, tail);
    WholeCString(c);
    DropTab(s);
    NoComment(name, text, tail);
    NoTrim(name + "=" + text, tail);
  }

  lemma NoNul(name: string, text: string, tail: string)
    requires GoodName(name) && GoodText(text) && (tail == "" || tail == "\n")
    ensures Lacks(FieldLine(name, text) + tail, '\0')
  {
    NameLacks(name);
    FieldLacks(name, text, tail, '\0');
    LacksConcat("\t", name + "=" + text + tail, '\0');
    assert FieldLine(name, text) + tail == "\t" + (name + "=" + text + tail);
  }

  lemma DropTab(s: string)
    requires s != "" && !Blank(s[0])
    ensures DropBlanks("\t" + s) == s
  {
    assert ("\t" + s)[1..] == s;
  }

  lemma WholeCString(s: string)
    requires Lacks(s, '\0')
    ensures CString(s) == s
  {
  }

  lemma NoMarks(s: string)
    requires Lacks(s, '"') && Lacks(s, '#')
    ensures StripComment(s) == s
  {
    IndexOfExact(s, '"', 0, |s|);
    IndexOfExact(s, '#', 0, |s|);
  }

  lemma PlainContent(t: string)
    requires GoodText(t) && Lacks(t, '"') && Lacks(t, '#') && !Blank(t[0])
    ensures Content(t + "\n") == Some(t)
  {
    hide TrimRight, CString, StripComment;
    var line := t + "\n";
    LacksConcat(t, "\n", '\0');
    LacksConcat(t, "\n", '"');
    LacksConcat(t, "\n", '#');
    WholeCString(line);
    assert line[0] == t[0];
    NoMarks(line);
    NoTrim(t, "\n");
  }

  /** A line with neither quotes nor comment says its text. */
  lemma PlainLine(t: string, rest: string)
    requires GoodText(t) && Lacks(t, '"') && Lacks(t, '#') && !Blank(t[0]) && |t| < BUF_SIZE - 1
    ensures GetLine(t + "\n" + rest) == Some((t, rest))
  {
    hide Content, ChunkLen, GetLine;
    var line := t + "\n";
    var input := line + rest;
    assert input == t + "\n" + rest && input[|t|] == '\n';
    assert forall i :: 0 <= i < |t| ==> input[i] == t[i];
    ChunkLenExact(input, |t| + 1);
    assert input[..|t| + 1] == line && input[|t| + 1..] == rest;
    PlainContent(t);
    GetLineStep(input);
  }

  lemma NewlineSkipped(rest: string)
    ensures GetLine("\n" + rest) == GetLine(rest)
  {
    hide ChunkLen, Content;
    var input := "\n" + rest;
    ChunkLenExact(input, 1);
    assert input[..1] == "\n" && input[1..] == rest;
    NothingSaid();
  }

  lemma NothingSaid()
    ensures Content("\n") == None
  {
    hide CString;
    WholeCString("\n");
  }

  /** Up to BUF_SIZE - 1 characters a written line is read back as it was written,
      and reading goes on behind it. */
  lemma LineReadBack(name: string, text: string, rest: string)
    requires GoodName(name) && GoodText(text) && |FieldLine(name, text)| < BUF_SIZE
    ensures var r := GetLine(FieldLine(name, text) + "\n" + rest);
            r.Some? && r.value.0 == name + "=" + text && GetLine(r.value.1) == GetLine(rest)
  {
    hide Content, GetLine, GoodName, GoodText, ChunkLen;
    var line := FieldLine(name, text);
    var input := line + "\n" + rest;
    OneLine(name, text);
    assert input == line + ("\n" + rest);
    var n := if |line| == BUF_SIZE - 1 then |line| else |line| + 1;
    var tail := if |line| == BUF_SIZE - 1 then "" else "\n";
    ChunkLenExact(input, n);
    assert input[..n] == line + tail;
    assert input[n..] == if tail == "" then "\n" + rest else rest;
    ContentOfLine(name, text, tail);
    GetLineStep(input);
    NewlineSkipped(rest);
  }

  lemma GetLineStep(input: string)
    requires input != "" && Content(input[..ChunkLen(input)]).Some?
    ensures var n := ChunkLen(input); GetLine(input) == Some((Content(input[..n]).value, input[n..]))
  {
  }

  lemma OneLine(name: string, text: string)
    requires GoodName(name) && GoodText(text)
    ensures Lacks(FieldLine(name, text), '\n')
  {
    NameLacks(name);
    LacksConcat("\t", name, '\n');
    LacksConcat("\t" + name, "=", '\n');
    LacksConcat("\t" + name + "=", text, '\n');
  }

  /** A longer line is cut: what is read first is a proper beginning of what was written. */
  lemma LongLineCut(name: string, text: string, rest: string)
    requires GoodName(name) && GoodText(text) && |FieldLine(name, text)| >= BUF_SIZE
    ensures var r := GetLine(FieldLine(name, text) + "\n" + rest);
            && r.Some? && r.value.0 < name + "=" + text
            && r.value.1 == FieldLine(name, text)[BUF_SIZE - 1..] + "\n" + rest
  {
    hide TrimRight, StripComment, CString, ChunkLen, GoodName, GetLine, DropBlanks;
    NameLacks(name);
    var line := FieldLine(name, text);
    var input := line + "\n" + rest;
    OneLine(name, text);
    ChunkLenExact(input, BUF_SIZE - 1);
    var chunk := input[..BUF_SIZE - 1];
    assert chunk == line[..BUF_SIZE - 1] && input[BUF_SIZE - 1..] == line[BUF_SIZE - 1..] + "\n" + rest;
    NoNul(name, text, "");
    assert line + "" == line;
    WholeCString(chunk);
    var s := chunk[1..];
    var whole := name + "=" + text;
    assert s == whole[..BUF_SIZE - 2];
    assert chunk[0] == '\t' && s[0] == name[0];
    assert chunk == "\t" + s;
    DropTab(s);
    Shortens(s);
    GetLineStep(input);
  }

  lemma Shortens(s: string)
    ensures TrimRight(StripComment(s)) <= s
  {
  }

  /** When a line fills the buffer exactly, what follows is read as another line. */
  lemma FullLine(name: string, text: string, more: string)
    requires GoodName(name) && GoodText(text) && |FieldLine(name, text)| == BUF_SIZE - 1
    ensures GetLine(FieldLine(name, text) + more) == Some((name + "=" + text, more))
  {
    hide Content, GetLine, GoodName, GoodText, ChunkLen;
    var line := FieldLine(name, text);
    var input := line + more;
    OneLine(name, text);
    assert forall i :: 0 <= i < |line| ==> input[i] == line[i];
    ChunkLenExact(input, |line|);
    assert input[..|line|] == line && input[|line|..] == more && line + "" == line;
    ContentOfLine(name, text, "");
    GetLineStep(input);
  }

  // ----- what is left of a line that was cut

  lemma {:induction false} DropBlanksLacks(s: string, c: char)
    requires Lacks(s, c)
    ensures Lacks(DropBlanks(s), c)
  {
    if s != "" && Blank(s[0]) {
      DropBlanksLacks(s[1..], c);
    }
  }

  /** What a chunk says is no longer than the chunk and has no other characters. */
  lemma ContentWithin(chunk: string, c: char)
    ensures var l := Content(chunk);
            l.Some? ==> |l.value| <= |chunk| && (Lacks(chunk, c) ==> Lacks(l.value, c))
  {
    hide StripComment, TrimRight, DropBlanks;
    var s := DropBlanks(CString(chunk));
    Shortens(s);
    DropBlanksShortens(CString(chunk));
    if Lacks(chunk, c) {
      DropBlanksLacks(CString(chunk), c);
    }
  }

  lemma DropBlanksShortens(s: string)
    ensures |DropBlanks(s)| <= |s|
  {
  }

  /** Where the first chunk of some text and a newline ends, and what it leaves. */
  lemma ChunkOf(p: string, more: string) returns (n: nat)
    requires Lacks(p, '\n')
    ensures var input := p + "\n" + more;
            && 0 < n == ChunkLen(input) <= |input|
            && (if n <= |p| then input[..n] == p[..n] && input[n..] == p[n..] + "\n" + more
                else input[..n] == p + "\n" && input[n..] == more)
  {
    hide ChunkLen;
    var input := p + "\n" + more;
    n := if |p| + 1 < BUF_SIZE then |p| + 1 else BUF_SIZE - 1;
    assert forall i :: 0 <= i < |p| ==> input[i] == p[i];
    ChunkLenExact(input, n);
  }

  lemma GetLineSkip(input: string)
    requires input != "" && Content(input[..ChunkLen(input)]).None?
    ensures GetLine(input) == GetLine(input[ChunkLen(input)..])
  {
  }
}
