/** Comments, blanks and empty lines in a configuration file, and lines in error
    (wpa_supplicant/config_file.c): what a person may write around the fields. */
module ConfigComment {
  import opened ConfigBlock
  import opened ConfigLine
  import opened ConfigNetwork
  import opened ConfigRead
  import opened ConfigString
  import opened Wrappers

  ghost predicate Blanks(s: string) {
    forall i :: 0 <= i < |s| ==> s[i] == ' ' || s[i] == '\t' || s[i] == '\r'
  }

  /** What a line may say: no blank at either end, and nothing that ends a line
      or makes it a comment. */
  ghost predicate LineText(t: string) {
    && t != "" && Lacks(t, '\n') && Lacks(t, '\0')
    && !Blank(t[0]) && t[0] != '#' && !Blank(t[|t| - 1])
  }

  /** Some text, blanks, and a comment. */
  function Commented(t: string, gap: string, c: string): string {
    t + gap + "#" + c
  }

  // ----- trimming

  lemma {:induction false} BlanksDropped(lead: string, s: string)
    requires Blanks(lead) && (s == "" || !Blank(s[0]))
    ensures DropBlanks(lead + s) == s
  {
    if lead == "" {
      assert lead + s == s;
    } else {
      assert (lead + s)[0] == lead[0] && (lead + s)[1..] == lead[1..] + s;
      BlanksDropped(lead[1..], s);
    }
  }

  lemma {:induction false} BlanksTrimmed(t: string, gap: string)
    requires t != "" && !Blank(t[|t| - 1]) && t[|t| - 1] != '\n'
    requires forall i :: 0 <= i < |gap| ==> Blank(gap[i]) || gap[i] == '\n'
    ensures TrimRight(t + gap) == t
    decreases |gap|
  {
    var s := t + gap;
    if gap == "" {
      assert s == t;
    } else {
      assert s[..|s| - 1] == t + gap[..|gap| - 1];
      BlanksTrimmed(t, gap[..|gap| - 1]);
    }
  }

  /** Trimming stops at a character that is neither blank nor a newline. */
  lemma {:induction false} TrimKeeps(s: string, k: nat)
    requires k < |s| && !Blank(s[k]) && s[k] != '\n'
    ensures |TrimRight(s)| > k
    decreases |s|
  {
    if |s| > 1 && (Blank(s[|s| - 1]) || s[|s| - 1] == '\n') {
      TrimKeeps(s[..|s| - 1], k);
    }
  }

  // ----- where a comment starts

  /** How many quotes there are. */
  function Quotes(s: string): nat {
    if s == "" then 0 else Quotes(s[..|s| - 1]) + if s[|s| - 1] == '"' then 1 else 0
  }

  lemma {:induction false} QuotesConcat(a: string, b: string)
    ensures Quotes(a + b) == Quotes(a) + Quotes(b)
    decreases |b|
  {
    if b == "" {
      assert a + b == a;
    } else {
      assert (a + b)[..|a + b| - 1] == a + b[..|b| - 1];
      QuotesConcat(a, b[..|b| - 1]);
    }
  }

  lemma {:induction false} NoQuotes(s: string)
    ensures Quotes(s) == 0 <==> Lacks(s, '"')
  {
    if s != "" {
      NoQuotes(s[..|s| - 1]);
    }
  }

  lemma FirstQuote(s: string)
    ensures var q := IndexOf(s, '"', 0);
            q <= |s| && Lacks(s[..q], '"') && (q < |s| ==> s[q] == '"')
  {
  }

  lemma LastQuote(s: string, k: nat)
    requires k <= |s|
    ensures var r := LastIndexOf(s, '"', k);
            && (r.None? ==> Lacks(s[k..], '"'))
            && (r.Some? ==> k <= r.value < |s| && s[r.value] == '"' && Lacks(s[r.value + 1..], '"')
                            && !Lacks(s[k..], '"'))
  {
    var r := LastIndexOf(s, '"', k);
    assert r.Some? ==> s[k..][r.value - k] == s[r.value];
  }

  lemma QuotesFrom(s: string, q: nat)
    requires q < |s| && s[q] == '"' && Lacks(s[..q], '"')
    ensures Quotes(s) == 1 + Quotes(s[q + 1..])
  {
    var a, b := s[..q + 1], s[q + 1..];
    assert s == a + b && a[..|a| - 1] == s[..q];
    NoQuotes(s[..q]);
    QuotesConcat(a, b);
  }

  /** With fewer than two quotes the search starts at the front, and otherwise at
      the last of them. */
  lemma CommentFromExact(s: string)
    ensures Quotes(s) < 2 ==> CommentFrom(s) == 0
    ensures Quotes(s) >= 2 ==>
              var k := CommentFrom(s);
              k < |s| && s[k] == '"' && Lacks(s[k + 1..], '"')
  {
    FirstQuote(s);
    var q := IndexOf(s, '"', 0);
    if q < |s| {
      LastQuote(s, q + 1);
    }
    hide Quotes, IndexOf, LastIndexOf, Lacks;
    if q == |s| {
      assert s[..q] == s;
      NoQuotes(s);
    } else {
      QuotesFrom(s, q);
      NoQuotes(s[q + 1..]);
    }
  }

  // ----- comments behind a text

  /** The comment sign that comes first behind a text in which none is looked for. */
  lemma StrippedAt(s: string, n: nat)
    requires CommentFrom(s) <= n < |s| && s[n] == '#'
    requires forall i :: CommentFrom(s) <= i < n ==> s[i] != '#'
    ensures StripComment(s) == s[..n]
  {
    hide CommentFrom;
    IndexOfExact(s, '#', CommentFrom(s), n);
  }

  /** A search that starts behind the comment sign leaves it in the line. */
  lemma NotStripped(s: string, n: nat)
    requires n < CommentFrom(s) <= |s| && s[n] == '#'
    ensures StripComment(s) <= s && |StripComment(s)| > n && |TrimRight(StripComment(s))| > n
  {
    hide CommentFrom, TrimRight;
    TrimKeeps(StripComment(s), n);
  }

  lemma CommentedAt(t: string, gap: string, c: string, tail: string)
    ensures var s := Commented(t, gap, c) + tail;
            && s[..|t| + |gap|] == t + gap && s[|t| + |gap|] == '#'
            && |s| == |t| + |gap| + 1 + |c| + |tail|
            && s == t + (gap + "#") + (c + tail)
            && forall i :: 0 <= i < |t| ==> s[i] == t[i]
  {
    var s := Commented(t, gap, c) + tail;
    assert s == t + (gap + "#") + (c + tail);
  }

  lemma CommentedQuotes(t: string, gap: string, c: string, tail: string)
    requires Blanks(gap) && (tail == "" || tail == "\n")
    ensures Quotes(Commented(t, gap, c) + tail) == Quotes(t) + Quotes(c)
  {
    CommentedAt(t, gap, c, tail);
    QuotesConcat(t + (gap + "#"), c + tail);
    QuotesConcat(t, gap + "#");
    NoQuotes(gap + "#");
    QuotesConcat(c, tail);
    NoQuotes(tail);
  }

  /** A comment behind a text without quotes is cut off exactly if the comment has
      at most one quote; otherwise its sign is left in the line. */
  lemma PlainStripped(t: string, gap: string, c: string, tail: string)
    requires LineText(t) && Lacks(t, '"') && Lacks(t, '#') && Blanks(gap) && (tail == "" || tail == "\n")
    ensures TrimRight(StripComment(Commented(t, gap, c) + tail)) == t <==> Quotes(c) <= 1
  {
    hide TrimRight, StripComment, CommentFrom, Quotes;
    var s, n := Commented(t, gap, c) + tail, |t| + |gap|;
    CommentedAt(t, gap, c, tail);
    CommentedQuotes(t, gap, c, tail);
    NoQuotes(t);
    CommentFromExact(s);
    if Quotes(c) <= 1 {
      assert forall i :: 0 <= i < n ==> s[i] == (t + gap)[i];
      StrippedAt(s, n);
      BlanksTrimmed(t, gap);
    } else {
      assert forall i :: 0 <= i < n ==> s[i] == (t + gap)[i];
      NotStripped(s, n);
    }
  }

  /** A comment behind a text that ends in a second or later quote is cut off exactly
      if the comment has no quote; comment signs between the quotes stay. */
  lemma QuotedStripped(t: string, gap: string, c: string, tail: string)
    requires LineText(t) && Quotes(t) >= 2 && t[|t| - 1] == '"' && Blanks(gap) && (tail == "" || tail == "\n")
    ensures TrimRight(StripComment(Commented(t, gap, c) + tail)) == t <==> Quotes(c) == 0
  {
    hide TrimRight, StripComment, CommentFrom, Quotes;
    var s, n := Commented(t, gap, c) + tail, |t| + |gap|;
    CommentedAt(t, gap, c, tail);
    CommentedQuotes(t, gap, c, tail);
    CommentFromExact(s);
    NoQuotes(c);
    var k := CommentFrom(s);
    assert forall i :: |t| <= i < n ==> s[i] == gap[i - |t|];
    if Quotes(c) == 0 {
      QuoteBefore(t, gap, c, tail, k);
      StrippedAt(s, n);
      BlanksTrimmed(t, gap);
    } else {
      QuoteBehind(t, gap, c, tail, k);
      NotStripped(s, n);
    }
  }

  lemma QuoteBefore(t: string, gap: string, c: string, tail: string, k: nat)
    requires t != "" && t[|t| - 1] == '"' && Blanks(gap) && Lacks(c, '"') && (tail == "" || tail == "\n")
    requires var s := Commented(t, gap, c) + tail; k < |s| && s[k] == '"' && Lacks(s[k + 1..], '"')
    ensures k == |t| - 1
  {
    var s := Commented(t, gap, c) + tail;
    CommentedAt(t, gap, c, tail);
    assert forall i :: k < i < |s| ==> s[i] == s[k + 1..][i - k - 1];
  }

  lemma QuoteBehind(t: string, gap: string, c: string, tail: string, k: nat)
    requires !Lacks(c, '"')
    requires var s := Commented(t, gap, c) + tail; k < |s| && s[k] == '"' && Lacks(s[k + 1..], '"')
    ensures k > |t| + |gap|
  {
    var s, n := Commented(t, gap, c) + tail, |t| + |gap|;
    CommentedAt(t, gap, c, tail);
    var i :| 0 <= i < |c| && c[i] == '"';
    assert s[n + 1 + i] == '"';
    if k < n + 1 + i {
      assert s[k + 1..][n + i - k] == s[n + 1 + i];
    }
  }

  // ----- what a line says

  /** The text of a line with blanks in front of it. */
  lemma SaidBy(lead: string, s: string)
    requires Blanks(lead) && Lacks(lead + s, '\0') && s != "" && !Blank(s[0])
    ensures Content(lead + s)
         == if s[0] == '#' || s[0] == '\n' then None else Some(TrimRight(StripComment(s)))
  {
    hide TrimRight, StripComment, CString;
    WholeCString(lead + s);
    BlanksDropped(lead, s);
  }

  lemma LineLacks(lead: string, t: string, gap: string, c: string, tail: string, x: char)
    requires Lacks(lead, x) && Lacks(t, x) && Lacks(gap, x) && Lacks(c, x) && Lacks(tail, x) && x != '#'
    ensures Lacks(lead + (Commented(t, gap, c) + tail), x)
  {
    CommentedAt(t, gap, c, tail);
    LacksConcat(lead, Commented(t, gap, c) + tail, x);
    LacksConcat(t + (gap + "#"), c + tail, x);
    LacksConcat(t, gap + "#", x);
    LacksConcat(gap, "#", x);
    LacksConcat(c, tail, x);
  }

  /** A text without quotes, or one that ends in a quote other than its first. */
  ghost predicate Closed(t: string) {
    (Lacks(t, '"') && Lacks(t, '#')) || (Quotes(t) >= 2 && t[|t| - 1] == '"')
  }

  /** With blanks in front and a comment behind, a line says its text exactly if the
      comment has no quote, or a single one and the text has none. */
  lemma CommentCut(lead: string, t: string, gap: string, c: string, tail: string)
    requires Blanks(lead) && Blanks(gap) && LineText(t) && Closed(t)
    requires Lacks(c, '\n') && Lacks(c, '\0') && (tail == "" || tail == "\n")
    ensures Content(lead + (Commented(t, gap, c) + tail)) == Some(t)
       <==> Quotes(c) == 0 || (Quotes(c) == 1 && Quotes(t) == 0)
  {
    hide TrimRight, StripComment, Content, Quotes;
    var s := Commented(t, gap, c) + tail;
    CommentedAt(t, gap, c, tail);
    LineLacks(lead, t, gap, c, tail, '\0');
    SaidBy(lead, s);
    if Lacks(t, '"') && Lacks(t, '#') {
      NoQuotes(t);
      PlainStripped(t, gap, c, tail);
    } else {
      QuotedStripped(t, gap, c, tail);
    }
  }

  /** Without a comment it says its text. */
  lemma NothingCut(lead: string, t: string, gap: string, tail: string)
    requires Blanks(lead) && Blanks(gap) && LineText(t) && Closed(t) && (tail == "" || tail == "\n")
    ensures Content(lead + (t + (gap + tail))) == Some(t)
  {
    hide TrimRight, StripComment, Content, Quotes, CommentFrom;
    var s := t + (gap + tail);
    assert s[0] == t[0] && forall i :: 0 <= i < |t| ==> s[i] == t[i];
    LacksConcat(gap, tail, '\0');
    LacksConcat(t, gap + tail, '\0');
    LacksConcat(lead, s, '\0');
    SaidBy(lead, s);
    QuotesConcat(t, gap + tail);
    NoQuotes(gap + tail);
    NoQuotes(t);
    CommentFromExact(s);
    NoSignBehind(t, gap, tail);
    BlanksTrimmed(t, gap + tail);
  }

  lemma NoSignBehind(t: string, gap: string, tail: string)
    requires Blanks(gap) && Closed(t) && t != "" && (tail == "" || tail == "\n")
    ensures StripComment(t + (gap + tail)) == t + (gap + tail)
  {
    hide CommentFrom, Quotes;
    var s := t + (gap + tail);
    CommentFromExact(s);
    QuotesConcat(t, gap + tail);
    NoQuotes(gap + tail);
    NoQuotes(t);
    var k := CommentFrom(s);
    CommentInside(s);
    assert forall i :: k < i < |s| ==> s[i] == s[k + 1..][i - k - 1];
    assert forall i :: 0 <= i < |t| ==> s[i] == t[i];
    assert forall i :: |t| <= i < |s| ==> s[i] == (gap + tail)[i - |t|] && s[i] != '#';
    assert Lacks(t, '#') || (s[|t| - 1] == '"' && k >= |t| - 1);
    IndexOfExact(s, '#', k, |s|);
  }

  /** A line that is a comment, or has nothing but blanks, says nothing. */
  lemma SaysNothing(lead: string, c: string, tail: string)
    requires Blanks(lead) && Lacks(c, '\0') && (tail == "" || tail == "\n")
    ensures Content(lead + ("#" + c + tail)) == None
    ensures Content(lead + tail) == None
  {
    hide TrimRight, StripComment, CString;
    var s := "#" + c + tail;
    LacksConcat("#" + c, tail, '\0');
    LacksConcat("#", c, '\0');
    LacksConcat(lead, s, '\0');
    SaidBy(lead, s);
    LacksConcat(lead, tail, '\0');
    WholeCString(lead + tail);
    BlanksDropped(lead, tail);
  }

  // ----- reading on

  /** A line that fits the buffer is taken whole. */
  lemma TakenWhole(line: string, rest: string)
    requires Lacks(line, '\n') && |line| < BUF_SIZE - 1
    ensures var input := line + "\n" + rest;
            && ChunkLen(input) == |line| + 1 && input[..|line| + 1] == line + "\n" && input[|line| + 1..] == rest
  {
    var input := line + "\n" + rest;
    assert forall i :: 0 <= i < |line| ==> input[i] == line[i];
    ChunkLenExact(input, |line| + 1);
  }

  /** The next line of a file that starts with a text, blanks and a comment is the text. */
  lemma CommentedLine(lead: string, t: string, gap: string, c: string, rest: string)
    requires Blanks(lead) && Blanks(gap) && LineText(t) && Closed(t)
    requires Lacks(c, '\n') && Lacks(c, '\0') && (Quotes(c) == 0 || (Quotes(c) == 1 && Quotes(t) == 0))
    requires |lead + Commented(t, gap, c)| < BUF_SIZE - 1
    ensures GetLine(lead + Commented(t, gap, c) + "\n" + rest) == Some((t, rest))
  {
    hide GetLine, Content, ChunkLen, Closed, Quotes;
    var line := lead + Commented(t, gap, c);
    LineLacks(lead, t, gap, c, "", '\n');
    assert Commented(t, gap, c) + "" == Commented(t, gap, c);
    TakenWhole(line, rest);
    CommentCut(lead, t, gap, c, "\n");
    assert line + "\n" == lead + (Commented(t, gap, c) + "\n");
    GetLineStep(line + "\n" + rest);
  }

  /** Comment lines and empty lines are passed over. */
  lemma SkippedLine(lead: string, c: string, rest: string)
    requires Blanks(lead) && Lacks(c, '\n') && Lacks(c, '\0') && |lead| + |c| < BUF_SIZE - 2
    ensures GetLine(lead + "#" + c + "\n" + rest) == GetLine(rest)
    ensures GetLine(lead + "\n" + rest) == GetLine(rest)
  {
    hide GetLine, Content, ChunkLen;
    var line := lead + "#" + c;
    LacksConcat(lead + "#", c, '\n');
    LacksConcat(lead, "#", '\n');
    TakenWhole(line, rest);
    TakenWhole(lead, rest);
    SaysNothing(lead, c, "\n");
    assert line + "\n" == lead + ("#" + c + "\n");
    GetLineSkip(line + "\n" + rest);
    GetLineSkip(lead + "\n" + rest);
  }

  // ----- blocks

  /** A block is read as if the comment lines in front of the next line were not there. */
  lemma SkippedInBlock(table: seq<Field>, cur: Values, ok: bool, lead: string, c: string, rest: string)
    requires |cur| == |table|
    requires Blanks(lead) && Lacks(c, '\n') && Lacks(c, '\0') && |lead| + |c| < BUF_SIZE - 2
    ensures ReadFields(table, cur, ok, lead + "#" + c + "\n" + rest) == ReadFields(table, cur, ok, rest)
    ensures ReadFields(table, cur, ok, lead + "\n" + rest) == ReadFields(table, cur, ok, rest)
  {
    hide GetLine, SetLine;
    SkippedLine(lead, c, rest);
  }

  /** The names of a table. */
  ghost predicate Known(table: seq<Field>, name: string) {
    exists i :: 0 <= i < |table| && table[i].name == name
  }

  /** A line that sets a field by its name: the block goes on with the value that the
      text sets, and is in error exactly if it sets none. */
  lemma FieldLineRead(table: seq<Field>, cur: Values, ok: bool, i: nat, text: string,
                      lead: string, gap: string, c: string, rest: string)
    requires WellFormed(table) && |cur| == |table| && i < |table|
    requires var t := table[i].name + "=" + text;
             && LineText(t) && Closed(t)
             && Blanks(lead) && Blanks(gap) && Lacks(c, '\n') && Lacks(c, '\0')
             && (Quotes(c) == 0 || (Quotes(c) == 1 && Quotes(t) == 0))
             && |lead + Commented(t, gap, c)| < BUF_SIZE - 1
    requires text != "" && text[0] == '"' ==> !Lacks(text[1..], '"')
    ensures var t, v := table[i].name + "=" + text, ParseValue(table[i].kind, text);
            ReadFields(table, cur, ok, lead + Commented(t, gap, c) + "\n" + rest)
              == if v.Some? then ReadFields(table, cur[i := v.value], ok, rest)
                 else ReadFields(table, cur, false, rest)
  {
    hide GetLine, ParseValue, GoodName, GoodDefault, Closed, LineText, Commented;
    var name := table[i].name;
    var t := name + "=" + text;
    CommentedLine(lead, t, gap, c, rest);
    SplitName(name, text);
    NamedAt(table, i);
    NotBrace(name, text);
  }

  lemma SplitName(name: string, text: string)
    requires GoodName(name) && (text != "" && text[0] == '"' ==> !Lacks(text[1..], '"'))
    ensures SplitLine(name + "=" + text) == Some((name, text))
  {
    var t := name + "=" + text;
    NameLacks(name);
    assert forall i :: 0 <= i < |name| ==> t[i] == name[i];
    IndexOfExact(t, '=', 0, |name|);
    assert t[..|name|] == name && t[|name| + 1..] == text;
    if text != "" && text[0] == '"' {
      var k :| 0 <= k < |text| - 1 && text[1..][k] == '"';
      assert text[k + 1] == '"';
    }
  }

  lemma NamedAt(table: seq<Field>, i: nat)
    requires WellFormed(table) && i < |table|
    ensures FieldIndex(table, table[i].name, 0) == i && GoodName(table[i].name)
  {
    hide GoodName, GoodDefault;
    var k := FieldIndex(table, table[i].name, 0);
    assert k <= i;
  }

  /** A line without an equals sign, with a name that is not in the table, or with a
      quote that is not closed puts its block in error, whatever else is in it. */
  lemma BadLineRefused(table: seq<Field>, cur: Values, ok: bool, l: string, rest: string)
    requires |cur| == |table| && LineText(l) && Lacks(l, '#') && l != "}" && |l| < BUF_SIZE - 1
    requires || Lacks(l, '=')
             || (exists name, text :: l == name + "=" + text && Lacks(name, '=') && !Known(table, name))
             || (exists name, text :: l == name + "=\"" + text && Lacks(name, '=') && Lacks(text, '"'))
    ensures !ReadFields(table, cur, ok, l + "\n" + rest).ok
  {
    hide GetLine, ReadFields;
    LineTaken(l, rest);
    BadLine(table, cur, l);
    ErrorsStay(table, cur, rest);
    BadStep(table, cur, ok, l, rest);
  }

  lemma BadStep(table: seq<Field>, cur: Values, ok: bool, l: string, rest: string)
    requires |cur| == |table| && GetLine(l + "\n" + rest) == Some((l, rest)) && l != "}"
    requires SetLine(table, cur, l).None?
    ensures ReadFields(table, cur, ok, l + "\n" + rest) == ReadFields(table, cur, false, rest)
  {
    hide GetLine, SetLine;
  }

  lemma BadLine(table: seq<Field>, cur: Values, l: string)
    requires |cur| == |table|
    requires || Lacks(l, '=')
             || (exists name, text :: l == name + "=" + text && Lacks(name, '=') && !Known(table, name))
             || (exists name, text :: l == name + "=\"" + text && Lacks(name, '=') && Lacks(text, '"'))
    ensures SetLine(table, cur, l).None?
  {
    hide SetLine;
    if Lacks(l, '=') {
      NoEqualsSign(table, cur, l);
    } else if name, text :| l == name + "=" + text && Lacks(name, '=') && !Known(table, name) {
      UnknownName(table, cur, name, text);
    } else {
      var name, text :| l == name + "=\"" + text && Lacks(name, '=') && Lacks(text, '"');
      OpenQuote(table, cur, name, text);
    }
  }

  lemma NoEqualsSign(table: seq<Field>, cur: Values, l: string)
    requires |cur| == |table| && Lacks(l, '=')
    ensures SetLine(table, cur, l).None?
  {
    IndexOfExact(l, '=', 0, |l|);
  }

  lemma UnknownName(table: seq<Field>, cur: Values, name: string, text: string)
    requires |cur| == |table| && Lacks(name, '=') && !Known(table, name)
    ensures SetLine(table, cur, name + "=" + text).None?
  {
    hide ParseValue;
    var l := name + "=" + text;
    assert forall i :: 0 <= i < |name| ==> l[i] == name[i];
    IndexOfExact(l, '=', 0, |name|);
    assert l[..|name|] == name;
    assert FieldIndex(table, name, 0) == |table|;
  }

  lemma OpenQuote(table: seq<Field>, cur: Values, name: string, text: string)
    requires |cur| == |table| && Lacks(name, '=') && Lacks(text, '"')
    ensures SetLine(table, cur, name + "=\"" + text).None?
  {
    hide ParseValue, FieldIndex;
    var l := name + "=\"" + text;
    assert forall i :: 0 <= i < |name| ==> l[i] == name[i];
    IndexOfExact(l, '=', 0, |name|);
    var q := l[|name| + 1..];
    assert q == "\"" + text;
    assert forall i :: 0 <= i < |text| ==> q[i + 1] == text[i];
    IndexOfExact(q, '"', 1, |q|);
  }

  /** A line without a comment sign is taken as it is. */
  lemma LineTaken(l: string, rest: string)
    requires LineText(l) && Lacks(l, '#') && |l| < BUF_SIZE - 1
    ensures GetLine(l + "\n" + rest) == Some((l, rest))
  {
    hide GetLine, Content, ChunkLen, CommentFrom, TrimRight;
    TakenWhole(l, rest);
    LacksConcat(l, "\n", '\0');
    LacksConcat(l, "\n", '#');
    assert "" + (l + "\n") == l + "\n";
    SaidBy("", l + "\n");
    var s := l + "\n";
    CommentInside(s);
    IndexOfExact(s, '#', CommentFrom(s), |s|);
    assert s[..|s|] == s && s[0] == l[0];
    BlanksTrimmed(l, "\n");
    GetLineStep(l + "\n" + rest);
  }

  // ----- a comment that becomes part of a key

  /** A comment in quotes behind a passphrase is taken for a part of it. */
  lemma CommentJoinsKey(p: string, c: string, rest: string)
    requires Bytes(p) && Bytes(c) && Lacks(p, '\0') && Lacks(c, '\0') && Lacks(p, '\n') && Lacks(c, '\n')
    requires 8 <= |p| + 5 + |c| <= 63
    ensures var line := "psk=" + Quoted(p) + " # " + Quoted(c);
            && GetLine(line + "\n" + rest) == Some((line, rest))
            && SplitLine(line) == Some(("psk", Quoted(p) + " # " + Quoted(c)))
            && ParseValue(PskField, Quoted(p) + " # " + Quoted(c)) == Some(Psk(Passphrase(p + "\" # \"" + c)))
  {
    hide GetLine, Content, PskValue, LineText, Quotes;
    var secret := p + "\" # \"" + c;
    var text := Quoted(p) + " # " + Quoted(c);
    assert text == Quoted(secret);
    SecretStorable(p, c);
    PskRoundTrip(Passphrase(secret));
    var line := "psk=" + text;
    assert line == "psk=" + Quoted(p) + " # " + Quoted(c);
    assert "psk" + "=" + text == line;
    KeyLineText(secret);
    KeyLineClosed(secret);
    TakenWhole(line, rest);
    NothingCut("", line, "", "\n");
    assert "" + (line + ("" + "\n")) == line + "\n";
    GetLineStep(line + "\n" + rest);
    assert GoodName("psk");
    assert text[1..][|text| - 2] == '"';
    SplitName("psk", text);
  }

  lemma SecretStorable(p: string, c: string)
    requires Bytes(p) && Bytes(c) && Lacks(p, '\0') && Lacks(c, '\0') && Lacks(p, '\n') && Lacks(c, '\n')
    ensures var s := p + "\" # \"" + c; Bytes(s) && Lacks(s, '\0') && Lacks(s, '\n')
  {
    LacksConcat(p, "\" # \"", '\0');
    LacksConcat(p + "\" # \"", c, '\0');
    LacksConcat(p, "\" # \"", '\n');
    LacksConcat(p + "\" # \"", c, '\n');
  }

  lemma KeyLineText(secret: string)
    requires Lacks(secret, '\0') && Lacks(secret, '\n')
    ensures LineText("psk=" + Quoted(secret)) && Lacks("psk=" + Quoted(secret), '\n')
  {
    QuotedLacks(secret, '\0');
    QuotedLacks(secret, '\n');
  }

  lemma QuotedLacks(secret: string, x: char)
    requires Lacks(secret, x) && (x == '\0' || x == '\n')
    ensures Lacks("psk=" + Quoted(secret), x)
  {
    LacksConcat("\"", secret, x);
    LacksConcat("\"" + secret, "\"", x);
    LacksConcat("psk=", Quoted(secret), x);
  }

  lemma KeyLineClosed(secret: string)
    ensures Closed("psk=" + Quoted(secret))
  {
    hide Quotes;
    var line := "psk=" + Quoted(secret);
    assert line == "psk=\"" + secret + "\"";
    QuotesConcat("psk=\"" + secret, "\"");
    QuotesConcat("psk=\"", secret);
    QuotesConcat("psk=", "\"");
    assert "psk=" + "\"" == "psk=\"";
    OneQuote();
    assert line[|line| - 1] == '"';
  }

  lemma OneQuote()
    ensures Quotes("\"") == 1
  {
    assert "\""[..0] == "";
  }
}
