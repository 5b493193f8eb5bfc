/**
 `CSV`: the reader, an automaton over the characters of a line, and the writer. Exactly which rows come back as they
 were written.
 */
module Csv {
  import opened Wrappers

  type Row = seq<string>

  /** What the reader has so far: `last` is the character looked at last. */
  datatype Scan = Scan(quotes: bool, escape: bool, sb: string, row: Row, last: char)

  const START := Scan(false, false, "", [], '\0')

  /** One character, other than a quote that is doubled. */
  function Char(s: Scan, c: char, delimiter: char): Scan {
    if c == '"' then s.(quotes := !s.quotes, last := c)
    else if c == '\\' then
      if s.escape then s.(sb := s.sb + [c], escape := false, last := c) else s.(escape := true, last := c)
    else if c == 'n' then
      if s.escape then s.(sb := s.sb + "\\n", escape := false, last := c) else s.(sb := s.sb + [c], last := c)
    else if c == delimiter && !s.quotes then s.(row := s.row + [s.sb], sb := "", last := c)
    else s.(sb := s.sb + [c], last := c)
  }

  predicate DoubledQuote(s: Scan, t: string) {
    s.quotes && |t| > 1 && t[0] == '"' && t[1] == '"'
  }

  function Scanned(s: Scan, t: string, delimiter: char): Scan
    decreases |t|
  {
    if t == "" then s
    else if DoubledQuote(s, t) then Scanned(s.(sb := s.sb + ['"'], last := '"'), t[2..], delimiter)
    else Scanned(Char(s, t[0], delimiter), t[1..], delimiter)
  }

  /** The last cell is there if it is not empty, or if a comma comes before it, whatever the delimiter. */
  function Finished(s: Scan): Row {
    if |s.sb| > 0 || s.last == ',' then s.row + [s.sb] else s.row
  }

  function Parsed(line: string, delimiter: char): Row {
    Finished(Scanned(START, line, delimiter))
  }

  /** The loop of the reader over one line. */
  method ParseLine(line: string, delimiter: char) returns (row: Row)
    ensures row == Parsed(line, delimiter)
  {
    var quotes, escape, sb, c := false, false, "", '\0';
    row := [];
    var i := 0;
    while i < |line|
      invariant 0 <= i <= |line|
      invariant Scanned(Scan(quotes, escape, sb, row, c), line[i..], delimiter) == Scanned(START, line, delimiter)
    {
      c := line[i];
      if c == '"' {
        if quotes {
          if i < |line| - 1 {
            if '"' == line[i + 1] {
              sb := sb + [c];
              i := i + 1;
            } else {
              quotes := false;
            }
          } else {
            quotes := false;
          }
        } else {
          quotes := true;
        }
      } else if c == '\\' {
        if escape {
          sb := sb + [c];
          escape := false;
        } else {
          escape := true;
        }
      } else if c == 'n' {
        if escape {
          sb := sb + "\\n";
          escape := false;
        } else {
          sb := sb + [c];
        }
      } else if delimiter == c {
        if quotes {
          sb := sb + [c];
        } else {
          row := row + [sb];
          sb := "";
        }
      } else {
        sb := sb + [c];
      }
      i := i + 1;
    }
    if |sb| > 0 || c == ',' {
      row := row + [sb];
    }
  }

  /** The characters that `.` of a regular expression does not match. */
  predicate LineTerminator(c: char) {
    c in {'\n', '\r', '\U{0085}', '\U{2028}', '\U{2029}'}
  }

  predicate Special(c: char) {
    c == ',' || c == '|' || c == '"'
  }

  predicate NeedsQuotes(s: string) {
    (exists i :: 0 <= i < |s| && Special(s[i])) && forall i :: 0 <= i < |s| ==> !LineTerminator(s[i])
  }

  function Pair(c: char): string {
    if c in {'"', '\'', '\\'} then [c, c] else [c]
  }

  /** Quotes, apostrophes and backslashes doubled. */
  function Doubled(s: string): string {
    if s == "" then "" else Pair(s[0]) + Doubled(s[1..])
  }

  function Printed(s: string): string {
    if NeedsQuotes(s) then "\"" + Doubled(s) + "\"" else s
  }

  /**
   Which cells are quoted, by their characters: those with a comma, a bar or a quote, unless they hold a character that
   ends a line.
   */
  lemma QuotedIff(s: string)
    ensures var quoted := (',' in s || '|' in s || '"' in s)
                          && '\n' !in s && '\r' !in s && '\U{85}' !in s && '\U{2028}' !in s && '\U{2029}' !in s;
            && (quoted ==> |Printed(s)| >= |s| + 2 && Printed(s)[0] == '"' && Printed(s)[|Printed(s)| - 1] == '"')
            && (!quoted ==> Printed(s) == s)
            && (NeedsQuotes(s) <==> quoted)
  {
    if NeedsQuotes(s) {
      var i :| 0 <= i < |s| && Special(s[i]);
      assert s[i] in s;
    }
    if c :| c in s && c in {',', '|', '"'} {
      var i :| 0 <= i < |s| && s[i] == c;
      assert Special(s[i]);
    }
    if c :| c in s && c in {'\n', '\r', '\U{85}', '\U{2028}', '\U{2029}'} {
      var i :| 0 <= i < |s| && s[i] == c;
      assert LineTerminator(s[i]);
    }
    DoubledLonger(s);
  }

  lemma {:induction false} DoubledLonger(s: string)
    ensures |Doubled(s)| >= |s|
  {
    if s != "" {
      DoubledLonger(s[1..]);
    }
  }

  /** An object given to the writer: none, one whose text counts, or an array of strings. */
  datatype Content = Null | Text(text: string) | Texts(texts: seq<string>)

  function PrintedAll(texts: seq<string>): string {
    if texts == [] then "" else PrintedAll(texts[..|texts| - 1]) + Printed(texts[|texts| - 1])
  }

  /** Nothing for a null, and the strings of an array one after the other, with nothing in between. */
  function Piece(c: Content): string {
    match c
    case Null => ""
    case Text(text) => Printed(text)
    case Texts(texts) => PrintedAll(texts)
  }

  /** The elements of an array run together, whatever the delimiter. */
  lemma {:induction false} RunTogether(a: seq<string>, b: seq<string>)
    ensures PrintedAll(a + b) == PrintedAll(a) + PrintedAll(b)
    ensures PrintedAll([]) == "" && forall s :: PrintedAll([s]) == Printed(s)
    decreases b
  {
    hide Printed;
    assert forall s: string :: [s][..0] == [];
    if b == [] {
      assert a + b == a;
    } else {
      assert (a + b)[..|a + b| - 1] == a + b[..|b| - 1];
      RunTogether(a, b[..|b| - 1]);
    }
  }

  function Separated(contents: seq<Content>, delimiter: char): string {
    if contents == [] then ""
    else if |contents| == 1 then Piece(contents[0])
    else Separated(contents[..|contents| - 1], delimiter) + [delimiter] + Piece(contents[|contents| - 1])
  }

  /** One object after the other: the delimiter comes between them, and only there. */
  lemma SeparatedGrows(contents: seq<Content>, c: Content, delimiter: char)
    ensures Separated(contents + [c], delimiter) ==
            (if contents == [] then "" else Separated(contents, delimiter) + [delimiter])
            + match c
              case Null => ""
              case Text(text) => Printed(text)
              case Texts(texts) => PrintedAll(texts)
  {
    hide Printed, PrintedAll;
    var all := contents + [c];
    assert all[..|all| - 1] == contents;
    var piece := Piece(c);
    assert "" + piece == piece;
  }

  /** The cell a null or a text is. */
  function CellOf(c: Content): string
    requires !c.Texts?
  {
    if c.Null? then "" else c.text
  }

  function CellsOf(contents: seq<Content>): Row
    requires forall c :: c in contents ==> !c.Texts?
  {
    seq(|contents|, i requires 0 <= i < |contents| => assert contents[i] in contents; CellOf(contents[i]))
  }

  function Line(row: Row, delimiter: char): string {
    if row == [] then ""
    else if |row| == 1 then Printed(row[0])
    else Printed(row[0]) + [delimiter] + Line(row[1..], delimiter)
  }

  function Shown(c: char): string {
    if c == '\'' then "''" else [c]
  }

  /** The apostrophes come back doubled. */
  function Apostrophes(s: string): string {
    if s == "" then "" else Shown(s[0]) + Apostrophes(s[1..])
  }

  lemma ScannedChar(s: Scan, c: char, rest: string, d: char)
    requires c == '"' && s.quotes ==> rest == "" || rest[0] != '"'
    ensures Scanned(s, [c] + rest, d) == Scanned(Char(s, c, d), rest, d)
  {
    assert ([c] + rest)[1..] == rest;
  }

  lemma ScannedQuotes(s: Scan, rest: string, d: char)
    requires s.quotes
    ensures Scanned(s, "\"\"" + rest, d) == Scanned(s.(sb := s.sb + ['"'], last := '"'), rest, d)
  {
    assert ("\"\"" + rest)[2..] == rest;
  }

  /** A character of quoted text as it was written. */
  lemma DoubledIsRead(st: Scan, c: char, rest: string, d: char)
    requires st.quotes && !st.escape
    ensures Scanned(st, Pair(c) + rest, d) == Scanned(st.(sb := st.sb + Shown(c), last := c), rest, d)
  {
    hide Scanned;
    if c == '"' {
      ScannedQuotes(st, rest, d);
    } else if c in {'\'', '\\'} {
      assert [c, c] + rest == [c] + ([c] + rest);
      ScannedChar(st, c, [c] + rest, d);
      ScannedChar(Char(st, c, d), c, rest, d);
      assert st.sb + ['\''] + ['\''] == st.sb + "''";
    } else {
      ScannedChar(st, c, rest, d);
    }
  }

  lemma QuoteCloses(st: Scan, rest: string, d: char)
    requires st.quotes && !st.escape && (rest == "" || rest[0] != '"')
    ensures Scanned(st, Doubled("") + "\"" + rest, d) ==
              Scanned(st.(quotes := false, sb := st.sb + Apostrophes(""), last := '"'), rest, d)
  {
    assert Doubled("") + "\"" + rest == ['"'] + rest && st.sb + "" == st.sb;
    ScannedChar(st, '"', rest, d);
  }

  lemma DoubledHead(s: string, rest: string)
    requires s != ""
    ensures Doubled(s) + "\"" + rest == Pair(s[0]) + (Doubled(s[1..]) + "\"" + rest)
  {
  }

  /** Quoted text is read back but for the apostrophes, and leaves no escape open. */
  lemma {:induction false} QuotedIsRead(st: Scan, s: string, rest: string, d: char)
    requires st.quotes && !st.escape && (rest == "" || rest[0] != '"')
    ensures Scanned(st, Doubled(s) + "\"" + rest, d) ==
              Scanned(st.(quotes := false, sb := st.sb + Apostrophes(s), last := '"'), rest, d)
    decreases |s|
  {
    hide Scanned;
    hide Pair;
    hide Shown;
    if s == "" {
      QuoteCloses(st, rest, d);
    } else {
      var tail := Doubled(s[1..]) + "\"" + rest;
      var next := st.(sb := st.sb + Shown(s[0]), last := s[0]);
      DoubledHead(s, rest);
      DoubledIsRead(st, s[0], tail, d);
      QuotedIsRead(next, s[1..], rest, d);
      assert next.sb + Apostrophes(s[1..]) == st.sb + Apostrophes(s);
    }
  }

  /** What the reader adds for a character, other than a quote or delimiter, with or without an escape open. */
  function Out(c: char, escape: bool): string {
    if c == '\\' then (if escape then "\\" else "")
    else if c == 'n' && escape then "\\n"
    else [c]
  }

  /** Whether an escape is open after the character. */
  predicate Opens(c: char, escape: bool) {
    if c == '\\' then !escape else escape && c != 'n'
  }

  /** What the reader makes of text without quotes and delimiters, with or without an escape open before it. */
  function Unescaped(s: string, escape: bool): string {
    if s == "" then "" else Out(s[0], escape) + Unescaped(s[1..], Opens(s[0], escape))
  }

  /** Whether an escape is open after it. */
  predicate Open(s: string, escape: bool) {
    if s == "" then escape else Open(s[1..], Opens(s[0], escape))
  }

  /** Text that the writer does not quote: no comma, bar or quote, or a line terminator besides. */
  predicate Plain(s: string) {
    !NeedsQuotes(s)
  }

  /** The reader takes it for a delimiter at all: it looks for quotes, backslashes and the letter n first. */
  predicate Splits(d: char) {
    d !in {'"', '\\', 'n'}
  }

  /** Plain text that is not torn apart at a delimiter. */
  predicate Whole(s: string, d: char) {
    Splits(d) ==> d !in s
  }

  lemma PlainChar(st: Scan, c: char, d: char)
    requires !st.quotes && c != '"' && (Splits(d) ==> c != d)
    ensures Char(st, c, d) == st.(sb := st.sb + Out(c, st.escape), escape := Opens(c, st.escape), last := c)
  {
    assert st.sb + "" == st.sb;
  }

  lemma {:induction false} PlainIsRead(st: Scan, s: string, rest: string, d: char)
    requires !st.quotes && '"' !in s && Whole(s, d)
    ensures Scanned(st, s + rest, d) ==
              Scanned(st.(escape := Open(s, st.escape), sb := st.sb + Unescaped(s, st.escape),
                          last := if s == "" then st.last else s[|s| - 1]), rest, d)
    decreases |s|
  {
    hide Scanned;
    hide Char;
    hide Out;
    hide Opens;
    if s == "" {
      assert s + rest == rest && st.sb + "" == st.sb;
    } else {
      var next := Char(st, s[0], d);
      PlainTail(s, d);
      PlainChar(st, s[0], d);
      assert s + rest == [s[0]] + (s[1..] + rest);
      ScannedChar(st, s[0], s[1..] + rest, d);
      PlainIsRead(next, s[1..], rest, d);
      assert next.sb + Unescaped(s[1..], next.escape) == st.sb + Unescaped(s, st.escape);
    }
  }

  lemma InQuotesChar(st: Scan, c: char, d: char)
    requires st.quotes && c != '"'
    ensures Char(st, c, d) == st.(sb := st.sb + Out(c, st.escape), escape := Opens(c, st.escape), last := c)
  {
    assert st.sb + "" == st.sb;
  }

  lemma {:induction false} InQuotes(st: Scan, s: string, rest: string, d: char)
    requires st.quotes && '"' !in s
    ensures Scanned(st, s + rest, d) ==
              Scanned(st.(escape := Open(s, st.escape), sb := st.sb + Unescaped(s, st.escape),
                          last := if s == "" then st.last else s[|s| - 1]), rest, d)
    decreases |s|
  {
    hide Scanned, Char, Out, Opens;
    if s == "" {
      assert s + rest == rest && st.sb + "" == st.sb;
    } else {
      var next := Char(st, s[0], d);
      assert s == [s[0]] + s[1..] && s + rest == [s[0]] + (s[1..] + rest);
      InQuotesChar(st, s[0], d);
      ScannedChar(st, s[0], s[1..] + rest, d);
      InQuotes(next, s[1..], rest, d);
      assert next.sb + Unescaped(s[1..], next.escape) == st.sb + Unescaped(s, st.escape);
    }
  }

  /**
   Quotes may open and close anywhere in a cell: what is between them belongs to it, delimiters included, and escapes
   work there as they do outside.
   */
  lemma QuotedSection(st: Scan, s: string, rest: string, d: char)
    requires !st.quotes && '"' !in s && (rest == "" || rest[0] != '"')
    ensures Scanned(st, "\"" + s + "\"" + rest, d) ==
              Scanned(st.(escape := Open(s, st.escape), sb := st.sb + Unescaped(s, st.escape), last := '"'), rest, d)
  {
    hide Scanned, Unescaped, Open;
    var tail := s + "\"" + rest;
    assert "\"" + s + "\"" + rest == ['"'] + tail && tail == s + (['"'] + rest);
    ScannedChar(st, '"', tail, d);
    var open := Char(st, '"', d);
    InQuotes(open, s, ['"'] + rest, d);
    var last := if s == "" then open.last else s[|s| - 1];
    ScannedChar(open.(escape := Open(s, st.escape), sb := st.sb + Unescaped(s, st.escape), last := last), '"', rest, d);
  }

  /** A delimiter outside quotes ends the cell, and a doubled quote within them is one of its characters. */
  lemma CellEnds(st: Scan, rest: string, d: char)
    ensures !st.quotes && Splits(d) ==>
              Scanned(st, [d] + rest, d) == Scanned(st.(row := st.row + [st.sb], sb := "", last := d), rest, d)
    ensures st.quotes ==> Scanned(st, "\"\"" + rest, d) == Scanned(st.(sb := st.sb + "\"", last := '"'), rest, d)
  {
    if !st.quotes && Splits(d) {
      ScannedChar(st, d, rest, d);
    }
    if st.quotes {
      ScannedQuotes(st, rest, d);
    }
  }

  lemma PlainTail(s: string, d: char)
    requires s != "" && '"' !in s && Whole(s, d)
    ensures '"' !in s[1..] && Whole(s[1..], d) && s[0] != '"' && (Splits(d) ==> s[0] != d)
  {
    assert s == [s[0]] + s[1..];
  }

  /** The cell stays on its line, and no quote of it is written unquoted. */
  predicate Clean(s: string) {
    '\n' !in s && '\r' !in s && (Plain(s) ==> '"' !in s)
  }

  /** Every backslash comes right before an `n`. */
  predicate OnlyNewlineEscapes(s: string) {
    forall i :: 0 <= i < |s| && s[i] == '\\' ==> i + 1 < |s| && s[i + 1] == 'n'
  }

  /** Text that has to be quoted must not contain an apostrophe, other text no backslash but before an `n`. */
  predicate CellOk(s: string) {
    if Plain(s) then OnlyNewlineEscapes(s) else '\'' !in s
  }

  /** A cell that the delimiter does not tear apart. */
  predicate Fit(s: string, d: char) {
    CellOk(s) && (Plain(s) ==> Whole(s, d))
  }

  /** A cell as it is read back. */
  function Cell(s: string): string {
    if Plain(s) then Unescaped(s, false) else Apostrophes(s)
  }

  lemma {:induction false} UnescapedIsShort(s: string, escape: bool)
    ensures |Unescaped(s, escape)| <= |s| + if escape then 1 else 0
    decreases |s|
  {
    if s != "" {
      UnescapedIsShort(s[1..], Opens(s[0], escape));
    }
  }

  lemma {:induction false} UnescapedSame(s: string)
    ensures Unescaped(s, false) == s <==> OnlyNewlineEscapes(s)
    ensures OnlyNewlineEscapes(s) ==> !Open(s, false)
    decreases |s|
  {
    if s == "" {
    } else if s[0] != '\\' {
      UnescapedSame(s[1..]);
      assert OnlyNewlineEscapes(s) <==> OnlyNewlineEscapes(s[1..]) by { OneOn(s); }
      assert Unescaped(s, false)[1..] == Unescaped(s[1..], false);
    } else if |s| == 1 {
    } else if s[1] == 'n' {
      UnescapedSame(s[2..]);
      assert s[1..][1..] == s[2..] && s[1..][0] == 'n';
      assert OnlyNewlineEscapes(s) <==> OnlyNewlineEscapes(s[2..]) by { OneOn(s[1..]); OneOn(s); }
      assert Unescaped(s, false) == "\\n" + Unescaped(s[2..], false) && s == "\\n" + s[2..];
    } else if s[1] == '\\' {
      UnescapedIsShort(s[2..], false);
      assert s[1..][1..] == s[2..] && s[1..][0] == '\\';
      assert Unescaped(s, false) == "\\" + Unescaped(s[2..], false);
    } else {
      assert Unescaped(s, false)[0] == s[1];
    }
  }

  lemma OneOn(s: string)
    requires s != ""
    ensures OnlyNewlineEscapes(s) ==> OnlyNewlineEscapes(s[1..])
    ensures OnlyNewlineEscapes(s[1..]) && (s[0] == '\\' ==> |s| > 1 && s[1] == 'n') ==> OnlyNewlineEscapes(s)
  {
    if OnlyNewlineEscapes(s) {
      forall i | 0 <= i < |s[1..]| && s[1..][i] == '\\' ensures i + 1 < |s[1..]| && s[1..][i + 1] == 'n' {
        assert s[i + 1] == '\\';
      }
    }
    if OnlyNewlineEscapes(s[1..]) && (s[0] == '\\' ==> |s| > 1 && s[1] == 'n') {
      forall i | 0 <= i < |s| && s[i] == '\\' ensures i + 1 < |s| && s[i + 1] == 'n' {
        if i > 0 {
          assert s[1..][i - 1] == '\\';
        }
      }
    }
  }

  lemma {:induction false} ApostrophesSame(s: string)
    ensures if '\'' in s then |Apostrophes(s)| > |s| else Apostrophes(s) == s
    decreases |s|
  {
    if s != "" {
      assert s == [s[0]] + s[1..];
      ApostrophesSame(s[1..]);
    }
  }

  lemma CellSame(s: string)
    ensures Cell(s) == s <==> CellOk(s)
    ensures Plain(s) && CellOk(s) ==> !Open(s, false)
    ensures Plain(s) ==> |Cell(s)| <= |s|
    ensures !Plain(s) ==> |Cell(s)| > 0
  {
    UnescapedSame(s);
    UnescapedIsShort(s, false);
    ApostrophesSame(s);
  }

  /** The scan after a cell. */
  function Past(st: Scan, s: string): Scan {
    st.(sb := Cell(s), escape := Plain(s) && Open(s, false),
        last := if s == "" then st.last else if Plain(s) then s[|s| - 1] else '"')
  }

  /** One cell, up to the next delimiter. */
  lemma PrintedIsRead(st: Scan, s: string, rest: string, d: char)
    requires !st.quotes && !st.escape && st.sb == "" && Clean(s) && (rest == "" || (rest[0] == d && Splits(d)))
    requires Plain(s) ==> Whole(s, d)
    ensures Scanned(st, Printed(s) + rest, d) == Scanned(Past(st, s), rest, d)
  {
    if Plain(s) {
      assert Printed(s) == s;
      PlainIsRead(st, s, rest, d);
      assert st.sb + Unescaped(s, false) == Unescaped(s, false);
    } else {
      QuotedCell(st, s, rest, d);
    }
  }

  lemma QuotedCell(st: Scan, s: string, rest: string, d: char)
    requires !st.quotes && !st.escape && st.sb == "" && (rest == "" || rest[0] != '"') && !Plain(s) && Clean(s)
    ensures Scanned(st, Printed(s) + rest, d) == Scanned(Past(st, s), rest, d)
  {
    hide Scanned;
    var open := Char(st, '"', d);
    var tail := Doubled(s) + "\"" + rest;
    assert Printed(s) + rest == ['"'] + tail;
    ScannedChar(st, '"', tail, d);
    QuotedIsRead(open, s, rest, d);
    assert open.sb + Apostrophes(s) == Apostrophes(s);
    assert Past(st, s) == open.(quotes := false, sb := open.sb + Apostrophes(s), last := '"');
  }

  /** Cells that were complete stay as they are. */
  lemma {:induction false} RowGrows(s: Scan, t: string, d: char)
    ensures s.row <= Scanned(s, t, d).row
    decreases |t|
  {
    if t == "" {
    } else if DoubledQuote(s, t) {
      RowGrows(s.(sb := s.sb + ['"'], last := '"'), t[2..], d);
    } else {
      RowGrows(Char(s, t[0], d), t[1..], d);
    }
  }

  predicate AllFit(row: Row, d: char) {
    forall i :: 0 <= i < |row| ==> Fit(row[i], d)
  }

  /** A delimiter that is never taken for one gives one cell. */
  lemma {:induction false} NeverSplits(s: Scan, t: string, d: char)
    requires !Splits(d)
    ensures Scanned(s, t, d).row == s.row
    decreases |t|
  {
    if t == "" {
    } else if DoubledQuote(s, t) {
      NeverSplits(s.(sb := s.sb + ['"'], last := '"'), t[2..], d);
    } else {
      NeverSplits(Char(s, t[0], d), t[1..], d);
    }
  }

  /** A plain cell with the delimiter in it is read as two, the first of them shorter. */
  lemma TornCell(st: Scan, s: string, rest: string, d: char) returns (piece: string)
    requires !st.quotes && !st.escape && st.sb == "" && '"' !in s && Splits(d) && d in s
    ensures |piece| < |s| && st.row + [piece] <= Scanned(st, s + rest, d).row
  {
    hide Scanned;
    var i: nat := FirstIn(s, d);
    var front, back := s[..i], s[i + 1..] + rest;
    assert s + rest == front + ([d] + back);
    PlainIsRead(st, front, [d] + back, d);
    piece := st.sb + Unescaped(front, false);
    UnescapedIsShort(front, false);
    var mid := st.(escape := Open(front, false), sb := piece,
                   last := if front == "" then st.last else front[|front| - 1]);
    ScannedChar(mid, d, back, d);
    RowGrows(Char(mid, d, d), back, d);
  }

  lemma FirstIn(s: string, d: char) returns (i: nat)
    requires d in s
    ensures i < |s| && s[i] == d && d !in s[..i]
  {
    var some :| 0 <= some < |s| && s[some] == d;
    i := 0;
    while s[i] != d
      invariant i <= some && forall k :: 0 <= k < i ==> s[k] != d
      decreases some - i
    {
      i := i + 1;
    }
  }

  predicate AllClean(row: Row) {
    forall i :: 0 <= i < |row| ==> Clean(row[i])
  }

  lemma EndOfLine(s: Scan, d: char)
    ensures Scanned(s, "", d) == s
  {
  }

  /** The same cells, or plain ones shorter than those. */
  ghost predicate Shortened(row: Row, target: Row) {
    && |row| == |target|
    && forall i :: 0 <= i < |row| ==> row[i] == target[i] || (Plain(row[i]) && |row[i]| < |target[i]|)
  }

  /** The line of a row reads as `target` only when that is the row, and as has to be. */
  lemma {:induction false} LineIsRead(st: Scan, row: Row, target: Row, d: char)
    requires !st.quotes && !st.escape && st.sb == "" && row != [] && AllClean(row) && Shortened(row, target)
    requires |row| > 1 ==> Splits(d)
    ensures Finished(Scanned(st, Line(row, d), d)) == st.row + target <==>
            row == target && AllFit(row, d)
                && (row[|row| - 1] == "" ==> if |row| == 1 then st.last == ',' else d == ',')
    decreases |row|
  {
    hide Scanned;
    var first := row[0];
    if Plain(first) && !Whole(first, d) {
      TornLine(st, row, target, d);
    } else if |row| == 1 {
      CellIsRead(st, row, target, d);
    } else {
      CellSame(first);
      FirstIsRead(st, row, d);
      AfterFirst(st, Char(Past(st, first), d, d), Line(row[1..], d), row, target, d);
    }
  }

  lemma FirstIsRead(st: Scan, row: Row, d: char)
    requires !st.quotes && !st.escape && st.sb == "" && |row| > 1 && Clean(row[0]) && Splits(d)
    requires Plain(row[0]) ==> Whole(row[0], d)
    ensures Scanned(st, Line(row, d), d) == Scanned(Char(Past(st, row[0]), d, d), Line(row[1..], d), d)
  {
    hide Scanned, Past, Char, Clean, Plain, Whole;
    var rest := [d] + Line(row[1..], d);
    LineHead(row, d);
    PrintedIsRead(st, row[0], rest, d);
    PastCell(st, row[0]);
    ScannedChar(Past(st, row[0]), d, Line(row[1..], d), d);
  }

  lemma PastCell(st: Scan, s: string)
    requires !st.quotes
    ensures !Past(st, s).quotes
  {
  }

  lemma {:induction false} CommaStays(s: string, escape: bool)
    ensures s != "" && s[|s| - 1] == ',' ==> Unescaped(s, escape) != ""
    decreases |s|
  {
    if |s| > 1 {
      CommaStays(s[1..], Opens(s[0], escape));
    }
  }

  lemma CellIsRead(st: Scan, row: Row, target: Row, d: char)
    requires !st.quotes && !st.escape && st.sb == "" && |row| == 1 && AllClean(row) && Shortened(row, target)
    requires Plain(row[0]) ==> Whole(row[0], d)
    ensures Finished(Scanned(st, Line(row, d), d)) == st.row + target <==>
            row == target && AllFit(row, d) && (row[0] == "" ==> st.last == ',')
  {
    hide Scanned;
    var first := row[0];
    CellSame(first);
    var mid := Past(st, first);
    PrintedIsRead(st, first, "", d);
    assert Printed(first) + "" == Printed(first) && row == [first] && target == [target[0]];
    CommaStays(first, false);
    assert Cell(first) == "" && first != "" ==> mid.last != ',';
    EndOfLine(mid, d);
    LastCell(st.row, target[0], Cell(first));
  }

  lemma TornLine(st: Scan, row: Row, target: Row, d: char)
    requires !st.quotes && !st.escape && st.sb == "" && row != [] && AllClean(row) && Shortened(row, target)
    requires Plain(row[0]) && !Whole(row[0], d)
    ensures Finished(Scanned(st, Line(row, d), d)) != st.row + target
  {
    hide Scanned;
    var first := row[0];
    var rest := if |row| == 1 then "" else [d] + Line(row[1..], d);
    assert Line(row, d) == first + rest;
    var piece := TornCell(st, first, rest, d);
    var read := Finished(Scanned(st, Line(row, d), d));
    assert (st.row + [piece])[|st.row|] == piece && st.row + [piece] <= read;
    assert (st.row + target)[|st.row|] == target[0] && read[|st.row|] == piece;
  }

  lemma AfterFirst(st: Scan, next: Scan, tail: string, row: Row, target: Row, d: char)
    requires !next.quotes && next.sb == "" && next.last == d && |row| > 1 && AllClean(row) && Shortened(row, target)
             && Splits(d)
    requires next.row == st.row + [Cell(row[0])] && tail == Line(row[1..], d) && (CellOk(row[0]) ==> !next.escape)
    requires Plain(row[0]) ==> Whole(row[0], d)
    requires Cell(row[0]) == target[0] <==> row[0] == target[0] && CellOk(row[0])
    ensures Finished(Scanned(next, tail, d)) == st.row + target <==>
            row == target && AllFit(row, d) && (row[|row| - 1] == "" ==> d == ',')
    decreases |row|, 0
  {
    hide Scanned;
    hide Line;
    hide Cell;
    hide CellOk;
    assert row == [row[0]] + row[1..] && target == [target[0]] + target[1..];
    if Cell(row[0]) == target[0] {
      LineIsRead(next, row[1..], target[1..], d);
      assert st.row + target == next.row + target[1..];
      AllFitTail(row, d);
    } else {
      RowGrows(next, tail, d);
      assert next.row[|st.row|] == Cell(row[0]) && (st.row + target)[|st.row|] == target[0];
      assert next.row <= Finished(Scanned(next, tail, d));
    }
  }

  lemma AllFitTail(row: Row, d: char)
    requires row != []
    ensures AllFit(row, d) <==> Fit(row[0], d) && AllFit(row[1..], d)
  {
    assert row == [row[0]] + row[1..];
  }

  lemma LastCell(before: Row, first: string, cell: string)
    ensures before + [cell] == before + [first] <==> cell == first
    ensures before != before + [first]
  {
    assert (before + [cell])[|before|] == cell && (before + [first])[|before|] == first;
  }

  /**
   The cells are as they have to be, the delimiter separates them, and the last one is not empty but after a comma.
   */
  predicate ReadsBack(row: Row, d: char)
    requires row != []
  {
    AllFit(row, d) && (|row| > 1 ==> Splits(d)) && (row[|row| - 1] == "" ==> d == ',' && |row| > 1)
  }

  /** Any row of cells that keep to their line, with any delimiter: exactly when it is read back from its line. */
  lemma ReadBackIff(row: Row, d: char)
    requires row != [] && AllClean(row)
    ensures Parsed(Line(row, d), d) == row <==> ReadsBack(row, d)
  {
    assert START.row + row == row;
    if |row| > 1 && !Splits(d) {
      NeverSplits(START, Line(row, d), d);
    } else {
      LineIsRead(START, row, row, d);
    }
  }

  predicate Blank(c: char) {
    c <= ' '
  }

  function TrimLeft(s: string): string {
    if s != "" && Blank(s[0]) then TrimLeft(s[1..]) else s
  }

  function TrimRight(s: string): string {
    if s != "" && Blank(s[|s| - 1]) then TrimRight(s[..|s| - 1]) else s
  }

  function Trim(s: string): string {
    TrimRight(TrimLeft(s))
  }

  /** What the visitor is given for a line: nothing for comments and empty lines. */
  function Visited(line: string, delimiter: char): Option<Row> {
    var t := Trim(line);
    if t != "" && t[0] != '#' then Some(Parsed(t, delimiter)) else None
  }

  function AllVisited(lines: seq<string>, delimiter: char): seq<Row> {
    if lines == [] then []
    else
      (match Visited(lines[0], delimiter)
       case Some(row) => [row]
       case None => [])
      + AllVisited(lines[1..], delimiter)
  }

  /** What a visitor does with a row: it may ask to stop, and it may throw. */
  datatype Reaction = Reaction(stop: bool, thrown: Thrown)

  datatype Thrown = Nothing | Cadi | Other

  /** The visitor's reaction to the `n`-th row it is given. */
  type Visitor = (nat, Row) -> Reaction

  /** The rows the visitor was given, whether the reader goes on, and whether an exception came out. */
  datatype Reading = Reading(rows: seq<Row>, go: bool, failed: bool)

  predicate Fails(r: Reaction, processAll: bool) {
    r.thrown.Other? || (r.thrown.Cadi? && !processAll)
  }

  function ReadFrom(lines: seq<string>, n: nat, delimiter: char, processAll: bool, visitor: Visitor): Reading {
    if lines == [] then Reading([], true, false)
    else
      match Visited(lines[0], delimiter)
      case None => ReadFrom(lines[1..], n, delimiter, processAll, visitor)
      case Some(row) =>
        var r := visitor(n, row);
        if r.stop || Fails(r, processAll) then Reading([row], !r.stop, Fails(r, processAll))
        else
          var rest := ReadFrom(lines[1..], n + 1, delimiter, processAll, visitor);
          rest.(rows := [row] + rest.rows)
  }

  /** The visitor is given the rows of the lines in order: all of them, or those up to one where it stops or fails. */
  lemma {:induction false} RowsInOrder(lines: seq<string>, n: nat, delimiter: char, processAll: bool, visitor: Visitor)
    ensures var r := ReadFrom(lines, n, delimiter, processAll, visitor);
            && r.rows <= AllVisited(lines, delimiter)
            && (r.go && !r.failed ==> r.rows == AllVisited(lines, delimiter))
            && (!r.go || r.failed ==> r.rows != [])
  {
    if lines != [] {
      match Visited(lines[0], delimiter)
      case None =>
        RowsInOrder(lines[1..], n, delimiter, processAll, visitor);
        assert [] + AllVisited(lines[1..], delimiter) == AllVisited(lines[1..], delimiter);
      case Some(row) =>
        RowsInOrder(lines[1..], n + 1, delimiter, processAll, visitor);
        assert [row] <= [row] + AllVisited(lines[1..], delimiter);
    }
  }

  /** The visitor lets the reader go on: it does not ask to stop, nor throw, but for what is passed over. */
  predicate GoesOn(r: Reaction, processAll: bool) {
    !r.stop && (r.thrown.Nothing? || (r.thrown.Cadi? && processAll))
  }

  /**
   When the reading ends: the visitor lets the reader go on at each row but the last, and there, too, unless it asks to
   stop, or throws what is not passed over.
   */
  ghost predicate UpTo(r: Reading, n: nat, processAll: bool, visitor: Visitor) {
    var last := |r.rows| - 1;
    && (forall i :: 0 <= i < last ==> GoesOn(visitor(n + i, r.rows[i]), processAll))
    && if r.go && !r.failed then last >= 0 ==> GoesOn(visitor(n + last, r.rows[last]), processAll)
       else
         && last >= 0
         && var reaction := visitor(n + last, r.rows[last]);
            && r.go == !reaction.stop
            && (r.failed <==> reaction.thrown.Other? || (reaction.thrown.Cadi? && !processAll))
  }

  lemma UpToLater(row: Row, rest: Reading, n: nat, processAll: bool, visitor: Visitor)
    requires UpTo(rest, n + 1, processAll, visitor) && GoesOn(visitor(n, row), processAll)
    ensures UpTo(rest.(rows := [row] + rest.rows), n, processAll, visitor)
  {
    assert forall i :: 0 < i < |rest.rows| + 1 ==> ([row] + rest.rows)[i] == rest.rows[i - 1];
  }

  lemma {:induction false} ReadUpTo(lines: seq<string>, n: nat, delimiter: char, processAll: bool, visitor: Visitor)
    ensures UpTo(ReadFrom(lines, n, delimiter, processAll, visitor), n, processAll, visitor)
    decreases |lines|
  {
    if lines != [] {
      match Visited(lines[0], delimiter)
      case None => ReadUpTo(lines[1..], n, delimiter, processAll, visitor);
      case Some(row) =>
        var r := visitor(n, row);
        if !(r.stop || Fails(r, processAll)) {
          hide UpTo;
          ReadUpTo(lines[1..], n + 1, delimiter, processAll, visitor);
          UpToLater(row, ReadFrom(lines[1..], n + 1, delimiter, processAll, visitor), n, processAll, visitor);
        }
    }
  }

  /** A line is passed over exactly if it holds nothing but blanks, or begins with a number sign after them. */
  lemma PassedOverIff(line: string, delimiter: char)
    ensures Visited(line, delimiter).None? <==>
            (forall c :: c in line ==> c <= ' ')
            || exists i :: 0 <= i < |line| && line[i] == '#' && forall k :: 0 <= k < i ==> line[k] <= ' '
  {
    LeftIsSuffix(line);
    var left := TrimLeft(line);
    var k := |line| - |left|;
    TrimmedBlanks(line);
    assert forall i :: 0 <= i < |left| ==> left[i] == line[k + i];
    if left != "" {
      assert line[k] == left[0] && line[k] in line;
      KeepsFirst(left);
    }
  }

  /** The characters trimmed in front are blanks, and the first that is left is none. */
  lemma {:induction false} TrimmedBlanks(line: string)
    ensures |TrimLeft(line)| <= |line|
    ensures forall i :: 0 <= i < |line| - |TrimLeft(line)| ==> line[i] <= ' '
    ensures TrimLeft(line) != "" ==> TrimLeft(line)[0] > ' '
    decreases |line|
  {
    if line != "" && Blank(line[0]) {
      TrimmedBlanks(line[1..]);
      assert forall i :: 0 < i < |line| ==> line[i] == line[1..][i - 1];
    }
  }

  lemma {:induction false} KeepsFirst(s: string)
    requires s != "" && s[0] > ' '
    ensures TrimRight(s) != "" && TrimRight(s)[0] == s[0]
    decreases |s|
  {
    if Blank(s[|s| - 1]) {
      KeepsFirst(s[..|s| - 1]);
    }
  }

  class CSV {
    var delimiter: char
    var processAll: bool
    var go: bool

    constructor ()
      ensures delimiter == ',' && !processAll && go
    {
      delimiter, processAll, go := ',', false, true;
    }

    /** The reading loop; once stopped, the reader does not start again. */
    method Visit(lines: seq<string>, visitor: Visitor) returns (rows: seq<Row>, failed: bool)
      modifies this`go
      ensures Reading(rows, go, failed) ==
                if old(go) then ReadFrom(lines, 0, delimiter, processAll, visitor) else Reading([], false, false)
    {
      hide ReadFrom;
      hide Visited;
      ReadNone(delimiter, processAll, visitor);
      rows, failed := [], false;
      ghost var all := ReadFrom(lines, 0, delimiter, processAll, visitor);
      var i := 0;
      while go && i < |lines|
        invariant 0 <= i <= |lines| && (!old(go) ==> !go && rows == [])
        invariant old(go) ==> all == if !go then Reading(rows, false, false) else Prepended(rows,
                              ReadFrom(lines[i..], |rows|, delimiter, processAll, visitor))
        decreases |lines| - i
      {
        ReadOne(lines, i, rows, delimiter, processAll, visitor);
        var line := Trim(lines[i]);
        i := i + 1;
        if line != "" && line[0] != '#' {
          var row := ParseLine(line, delimiter);
          var reaction := visitor(|rows|, row);
          rows := rows + [row];
          if reaction.stop {
            go := false;
          }
          if Fails(reaction, processAll) {
            return rows, true;
          }
        }
      }
      assert lines[|lines|..] == [] && rows + [] == rows;
    }
  }

  lemma ReadNone(delimiter: char, processAll: bool, visitor: Visitor)
    ensures forall n: nat :: ReadFrom([], n, delimiter, processAll, visitor) == Reading([], true, false)
  {
  }

  lemma ReadOne(lines: seq<string>, i: nat, rows: seq<Row>, delimiter: char, processAll: bool, visitor: Visitor)
    requires i < |lines|
    ensures var t := Trim(lines[i]);
            var r, row := visitor(|rows|, Parsed(t, delimiter)), Parsed(t, delimiter);
            Prepended(rows, ReadFrom(lines[i..], |rows|, delimiter, processAll, visitor)) ==
              if t == "" || t[0] == '#'
                  then Prepended(rows, ReadFrom(lines[i + 1..], |rows|, delimiter, processAll, visitor))
              else if r.stop || Fails(r, processAll) then Reading(rows + [row], !r.stop, Fails(r, processAll))
              else Prepended(rows + [row], ReadFrom(lines[i + 1..], |rows| + 1, delimiter, processAll, visitor))
  {
    assert lines[i..][1..] == lines[i + 1..];
    var row := Parsed(Trim(lines[i]), delimiter);
    var rest := ReadFrom(lines[i + 1..], |rows| + 1, delimiter, processAll, visitor);
    assert rows + ([row] + rest.rows) == rows + [row] + rest.rows;
  }

  function Prepended(rows: seq<Row>, r: Reading): Reading {
    r.(rows := rows + r.rows)
  }

  /** A blank taken off at either end is none of the terminators that keep a cell unquoted. */
  lemma PlainWithout(blank: string, a: string)
    requires |blank| == 1 && Blank(blank[0])
    ensures Plain(blank + a) && Clean(blank + a) ==> Plain(a) && Clean(a)
    ensures Plain(a + blank) && Clean(a + blank) ==> Plain(a) && Clean(a)
  {
    var x, y := blank + a, a + blank;
    assert x[0] == blank[0] && y[|a|] == blank[0];
    if NeedsQuotes(a) {
      var i :| 0 <= i < |a| && Special(a[i]);
      assert x[i + 1] == a[i] && y[i] == a[i];
    }
    assert forall c :: c in a ==> c in x && c in y;
  }

  /** `a` without blanks in front of `b`, which does not begin with one. */
  lemma {:induction false} TrimLeftFirst(a: string, b: string)
    requires b == "" || !Blank(b[0])
    ensures TrimLeft(a + b) == TrimLeft(a) + b
    ensures |TrimLeft(a)| <= |a| && (TrimLeft(a) == a || |TrimLeft(a)| < |a|)
    ensures Plain(a) && Clean(a) ==> Plain(TrimLeft(a)) && Clean(TrimLeft(a))
    decreases |a|
  {
    if a == "" {
      assert a + b == b;
    } else if Blank(a[0]) {
      assert (a + b)[1..] == a[1..] + b;
      PlainWithout(a[..1], a[1..]);
      assert a == a[..1] + a[1..];
      TrimLeftFirst(a[1..], b);
    }
  }

  lemma {:induction false} TrimRightLast(b: string, a: string)
    requires b == "" || !Blank(b[|b| - 1])
    ensures TrimRight(b + a) == b + TrimRight(a)
    ensures |TrimRight(a)| <= |a| && (TrimRight(a) == a || |TrimRight(a)| < |a|)
    ensures Plain(a) && Clean(a) ==> Plain(TrimRight(a)) && Clean(TrimRight(a))
    decreases |a|
  {
    if a == "" {
      assert b + a == b;
    } else if Blank(a[|a| - 1]) {
      assert (b + a)[..|b + a| - 1] == b + a[..|a| - 1];
      PlainWithout(a[|a| - 1..], a[..|a| - 1]);
      assert a == a[..|a| - 1] + a[|a| - 1..];
      TrimRightLast(b, a[..|a| - 1]);
    } else {
      assert (b + a)[|b + a| - 1] == a[|a| - 1];
    }
  }

  /** A row with the blanks in front of its line taken off, and where the delimiter is blank the cells they fill. */
  function ShavedLeft(row: Row, d: char): (r: Row)
    ensures |r| <= |row| && (row != [] ==> r != [])
    decreases |row|
  {
    if row == [] || !Plain(row[0]) then row
    else
      var first := TrimLeft(row[0]);
      if first == "" && Blank(d) && |row| > 1 then ShavedLeft(row[1..], d) else row[0 := first]
  }

  function ShavedRight(row: Row, d: char): (r: Row)
    ensures |r| <= |row| && (row != [] ==> r != [])
    decreases |row|
  {
    if row == [] || !Plain(row[|row| - 1]) then row
    else
      var last := TrimRight(row[|row| - 1]);
      if last == "" && Blank(d) && |row| > 1 then ShavedRight(row[..|row| - 1], d) else row[|row| - 1 := last]
  }

  lemma PrintedPlain(s: string)
    requires Plain(s)
    ensures Printed(s) == s
  {
  }

  lemma LineHead(row: Row, d: char)
    requires row != []
    ensures Line(row, d) == Printed(row[0]) + if |row| == 1 then "" else [d] + Line(row[1..], d)
    ensures !Plain(row[0]) ==> Line(row, d)[0] == '"'
  {
  }

  /** What is left at either end stays clean, and is torn only where the whole was. */
  lemma Shaved(a: string, b: string, d: char)
    requires Clean(a) && Plain(a) && (b == TrimLeft(a) || b == TrimRight(a))
    ensures Clean(b) && Plain(b) && |b| <= |a| && (b == a || |b| < |a|) && (Whole(a, d) ==> Whole(b, d))
  {
    TrimLeftFirst(a, "");
    TrimRightLast("", a);
    TrimmedIn(a);
  }

  lemma {:induction false} LeftIsSuffix(a: string)
    ensures |TrimLeft(a)| <= |a| && TrimLeft(a) == a[|a| - |TrimLeft(a)|..]
    decreases |a|
  {
    if a != "" && Blank(a[0]) {
      LeftIsSuffix(a[1..]);
    }
  }

  lemma {:induction false} RightIsPrefix(a: string)
    ensures |TrimRight(a)| <= |a| && TrimRight(a) == a[..|TrimRight(a)|]
    decreases |a|
  {
    if a != "" && Blank(a[|a| - 1]) {
      RightIsPrefix(a[..|a| - 1]);
    }
  }

  lemma TrimmedIn(a: string)
    ensures forall c :: c in TrimLeft(a) || c in TrimRight(a) ==> c in a
  {
    hide TrimLeft, TrimRight;
    LeftIsSuffix(a);
    RightIsPrefix(a);
    forall c | c in TrimLeft(a) ensures c in a {
      var i :| 0 <= i < |TrimLeft(a)| && TrimLeft(a)[i] == c;
      assert a[|a| - |TrimLeft(a)| + i] == c;
    }
    forall c | c in TrimRight(a) ensures c in a {
      var i :| 0 <= i < |TrimRight(a)| && TrimRight(a)[i] == c;
      assert a[i] == c;
    }
  }

  /** The cells of `r` come from those of `row`: clean, and whole where those were; as many of them are no longer. */
  ghost predicate ShavedFrom(r: Row, row: Row, d: char) {
    && AllClean(r) && (AllWhole(row, d) ==> AllWhole(r, d)) && |r| <= |row|
    && (|r| == |row| ==> Shortened(r, row))
  }

  /** No cell is torn at a delimiter. */
  predicate AllWhole(row: Row, d: char) {
    forall i :: 0 <= i < |row| && Plain(row[i]) ==> Whole(row[i], d)
  }

  /** A blank cell and a blank delimiter in front. */
  lemma {:induction false} BlankBefore(a: string, d: char, tail: string)
    requires TrimLeft(a) == "" && Blank(d)
    ensures TrimLeft(a + ([d] + tail)) == TrimLeft(tail)
    decreases |a|
  {
    if a == "" {
      assert a + ([d] + tail) == [d] + tail && ([d] + tail)[1..] == tail;
    } else {
      assert (a + ([d] + tail))[1..] == a[1..] + ([d] + tail);
      BlankBefore(a[1..], d, tail);
    }
  }

  lemma {:induction false} FirstShaved(a: string, rest: string, d: char, alone: bool)
    requires if alone then rest == "" else rest != "" && rest[0] == d
    requires TrimLeft(a) != "" || !Blank(d) || alone
    ensures TrimLeft(a + rest) == TrimLeft(a) + rest
    decreases |a|
  {
    if a == "" {
      assert a + rest == rest && TrimLeft(a) + rest == rest;
    } else if Blank(a[0]) {
      assert (a + rest)[1..] == a[1..] + rest;
      FirstShaved(a[1..], rest, d, alone);
    } else {
      assert (a + rest)[0] == a[0];
    }
  }

  lemma {:induction false} LineGrows(row: Row, cell: string, delimiter: char)
    ensures Line(row + [cell], delimiter) ==
              if row == [] then Printed(cell) else Line(row, delimiter) + [delimiter] + Printed(cell)
    decreases |row|
  {
    if |row| == 1 {
      assert (row + [cell])[1..] == [cell];
    } else if row != [] {
      assert (row + [cell])[1..] == row[1..] + [cell];
      LineGrows(row[1..], cell, delimiter);
    }
  }

  lemma LineLast(row: Row, d: char)
    requires row != []
    ensures var n := |row| - 1;
            Line(row, d) == if n == 0 then Printed(row[n]) else Line(row[..n], d) + [d] + Printed(row[n])
  {
    hide Line, Printed;
    var n := |row| - 1;
    assert row == row[..n] + [row[n]];
    LineGrows(row[..n], row[n], d);
  }

  /** Fewer cells than there were. */
  lemma FewerShaved(r: Row, row: Row, part: Row, d: char)
    requires ShavedFrom(r, part, d) && |part| < |row| && forall i :: 0 <= i < |part| ==> part[i] in row
    ensures ShavedFrom(r, row, d)
  {
    if AllWhole(row, d) {
      assert AllWhole(part, d);
    }
  }

  /** One plain cell without its blanks. */
  lemma OneShaved(row: Row, i: nat, shaved: string, d: char)
    requires i < |row| && AllClean(row) && Plain(row[i]) && Clean(shaved) && Plain(shaved)
    requires (shaved == row[i] || |shaved| < |row[i]|) && (Whole(row[i], d) ==> Whole(shaved, d))
    ensures ShavedFrom(row[i := shaved], row, d)
  {
  }

  lemma NothingShaved(row: Row, d: char)
    requires AllClean(row)
    ensures ShavedFrom(row, row, d)
  {
  }

  lemma {:induction false} LeftIsShaved(row: Row, d: char)
    requires row != [] && AllClean(row)
    ensures TrimLeft(Line(row, d)) == Line(ShavedLeft(row, d), d)
    ensures ShavedFrom(ShavedLeft(row, d), row, d)
    decreases |row|
  {
    hide Plain, Clean, Whole, Line, TrimLeft, Printed, ShavedFrom;
    var first := row[0];
    var rest := if |row| == 1 then "" else [d] + Line(row[1..], d);
    LineHead(row, d);
    if Plain(first) {
      var shaved := TrimLeft(first);
      PrintedPlain(first);
      Shaved(first, shaved, d);
      PrintedPlain(shaved);
      if shaved == "" && Blank(d) && |row| > 1 {
        BlankBefore(first, d, Line(row[1..], d));
        LeftIsShaved(row[1..], d);
        FewerShaved(ShavedLeft(row[1..], d), row, row[1..], d);
      } else {
        FirstShaved(first, rest, d, |row| == 1);
        assert row[0 := shaved][1..] == row[1..];
        LineHead(row[0 := shaved], d);
        OneShaved(row, 0, shaved, d);
      }
    } else {
      QuotedStart(first, rest);
      NothingShaved(row, d);
    }
  }

  lemma QuotedStart(first: string, rest: string)
    requires !Plain(first)
    ensures TrimLeft(Printed(first) + rest) == Printed(first) + rest
  {
  }

  lemma LastReplaced(row: Row, cell: string, d: char)
    requires row != []
    ensures var n := |row| - 1;
            Line(row[n := cell], d) == (if n == 0 then "" else Line(row[..n], d) + [d]) + Printed(cell)
  {
    hide Line, Printed;
    var n := |row| - 1;
    assert row[n := cell][..n] == row[..n];
    LineLast(row[n := cell], d);
    Nothing(Printed(cell));
  }

  lemma {:induction false} RightIsShaved(row: Row, d: char)
    requires row != [] && AllClean(row)
    ensures TrimRight(Line(row, d)) == Line(ShavedRight(row, d), d)
    ensures ShavedFrom(ShavedRight(row, d), row, d)
    decreases |row|
  {
    hide Plain, Clean, Whole, Line, TrimRight, Printed, ShavedFrom;
    var n := |row| - 1;
    var last := row[n];
    var front := if n == 0 then "" else Line(row[..n], d) + [d];
    LineLast(row, d);
    Nothing(Printed(last));
    if Plain(last) {
      var shaved := TrimRight(last);
      PrintedPlain(last);
      Shaved(last, shaved, d);
      PrintedPlain(shaved);
      Nothing(shaved);
      if shaved == "" && Blank(d) && n > 0 {
        BlankAfter(Line(row[..n], d), d, last);
        RightIsShaved(row[..n], d);
        FewerShaved(ShavedRight(row[..n], d), row, row[..n], d);
      } else {
        LastShaved(front, last, d, n == 0);
        LastReplaced(row, shaved, d);
        OneShaved(row, n, shaved, d);
      }
    } else {
      QuotedEnd(front, last);
      NothingShaved(row, d);
    }
  }

  lemma Nothing(s: string)
    ensures "" + s == s && s + "" == s
  {
  }

  lemma QuotedEnd(front: string, last: string)
    requires !Plain(last)
    ensures TrimRight(front + Printed(last)) == front + Printed(last)
  {
    var t := front + Printed(last);
    assert t[|t| - 1] == '"';
  }

  lemma {:induction false} BlankAfter(head: string, d: char, a: string)
    requires TrimRight(a) == "" && Blank(d)
    ensures TrimRight(head + [d] + a) == TrimRight(head)
    decreases |a|
  {
    var t := head + [d] + a;
    if a == "" {
      assert t == head + [d] && t[..|t| - 1] == head;
    } else {
      assert t[..|t| - 1] == head + [d] + a[..|a| - 1];
      BlankAfter(head, d, a[..|a| - 1]);
    }
  }

  lemma {:induction false} LastShaved(front: string, a: string, d: char, alone: bool)
    requires if alone then front == "" else front != "" && front[|front| - 1] == d
    requires TrimRight(a) != "" || !Blank(d) || alone
    ensures TrimRight(front + a) == front + TrimRight(a)
    decreases |a|
  {
    var t := front + a;
    if a == "" {
      assert t == front && front + TrimRight(a) == front;
    } else if Blank(a[|a| - 1]) {
      assert t[..|t| - 1] == front + a[..|a| - 1];
      LastShaved(front, a[..|a| - 1], d, alone);
    } else {
      assert t[|t| - 1] == a[|a| - 1];
    }
  }

  /** With the blanks taken off at both ends. */
  function ShavedBoth(row: Row, d: char): (r: Row)
    ensures |r| <= |row| && (row != [] ==> r != [])
  {
    ShavedRight(ShavedLeft(row, d), d)
  }

  lemma BothShaved(row: Row, d: char)
    requires row != [] && AllClean(row)
    ensures Trim(Line(row, d)) == Line(ShavedBoth(row, d), d)
    ensures ShavedFrom(ShavedBoth(row, d), row, d)
  {
    hide Line, Plain, Clean, Whole;
    var left := ShavedLeft(row, d);
    LeftIsShaved(row, d);
    RightIsShaved(left, d);
    if |ShavedRight(left, d)| == |row| {
      assert Shortened(left, row);
      BothShortened(ShavedRight(left, d), left, row);
    }
  }

  lemma BothShortened(both: Row, left: Row, row: Row)
    requires Shortened(both, left) && Shortened(left, row)
    ensures Shortened(both, row)
  {
  }

  // ---------------------------------------------------------------- what any line of cells is read as

  /** Without the delimiter in it, or such that the writer would quote it. */
  predicate Readable(e: string, d: char) {
    d !in e || NeedsQuotes(e)
  }

  predicate AllReadable(row: Row, d: char) {
    forall i :: 0 <= i < |row| ==> Readable(row[i], d)
  }

  /** Unquoted text, whatever escape is open before it. */
  lemma {:induction false} PlainPieces(st: Scan, s: string, rest: string, d: char) returns (next: Scan)
    requires !st.quotes && '"' !in s && Splits(d) && AllReadable(st.row, d) && d !in st.sb
    ensures Scanned(st, s + rest, d) == Scanned(next, rest, d)
    ensures !next.quotes && AllReadable(next.row, d) && d !in next.sb && (Whole(s, d) ==> next.row == st.row)
    decreases |s|
  {
    hide Scanned;
    if s == "" {
      next := st;
      assert s + rest == rest;
    } else {
      assert s == [s[0]] + s[1..] && s + rest == [s[0]] + (s[1..] + rest);
      ScannedChar(st, s[0], s[1..] + rest, d);
      next := PlainPieces(Char(st, s[0], d), s[1..], rest, d);
    }
  }

  predicate HasSpecial(s: string) {
    exists i :: 0 <= i < |s| && Special(s[i])
  }

  predicate NoTerminator(s: string) {
    forall i :: 0 <= i < |s| ==> !LineTerminator(s[i])
  }

  lemma SpecialStays(a: string, b: string)
    ensures HasSpecial(a + b) <==> HasSpecial(a) || HasSpecial(b)
    ensures NoTerminator(a + b) <==> NoTerminator(a) && NoTerminator(b)
  {
    if HasSpecial(a) {
      var i :| 0 <= i < |a| && Special(a[i]);
      assert (a + b)[i] == a[i];
    }
    if HasSpecial(b) {
      var i :| 0 <= i < |b| && Special(b[i]);
      assert (a + b)[|a| + i] == b[i];
    }
    if NoTerminator(a + b) {
      assert forall i :: 0 <= i < |a| ==> (a + b)[i] == a[i];
      assert forall i :: 0 <= i < |b| ==> (a + b)[|a| + i] == b[i];
    }
  }

  /** What a quoted character adds, whatever escape is open before it. */
  lemma QuotedChar(st: Scan, c: char, rest: string, d: char) returns (next: Scan, part: string)
    requires st.quotes && Splits(d)
    ensures Scanned(st, Pair(c) + rest, d) == Scanned(next, rest, d)
    ensures next.quotes && next.row == st.row && next.sb == st.sb + part
    ensures (Special(c) ==> HasSpecial(part)) && (!LineTerminator(c) ==> NoTerminator(part))
  {
    hide Scanned;
    if c == '"' {
      ScannedQuotes(st, rest, d);
      next, part := st.(sb := st.sb + ['"'], last := '"'), ['"'];
    } else if c in {'\'', '\\'} {
      assert [c, c] + rest == [c] + ([c] + rest);
      ScannedChar(st, c, [c] + rest, d);
      ScannedChar(Char(st, c, d), c, rest, d);
      next := Char(Char(st, c, d), c, d);
      part := if c == '\'' then "''" else "\\";
    } else {
      ScannedChar(st, c, rest, d);
      next := Char(st, c, d);
      part := if c == 'n' && st.escape then "\\n" else [c];
    }
    assert Special(c) ==> part[0] == c;
  }

  lemma {:induction false} QuotedPieces(st: Scan, s: string, rest: string, d: char) returns (next: Scan)
    requires st.quotes && Splits(d) && (rest == "" || rest[0] != '"')
    ensures Scanned(st, Doubled(s) + "\"" + rest, d) == Scanned(next, rest, d)
    ensures !next.quotes && next.row == st.row
    ensures HasSpecial(st.sb) || HasSpecial(s) ==> HasSpecial(next.sb)
    ensures NoTerminator(st.sb) && NoTerminator(s) ==> NoTerminator(next.sb)
    decreases |s|
  {
    hide Scanned, Pair, HasSpecial, NoTerminator;
    if s == "" {
      assert Doubled(s) + "\"" + rest == ['"'] + rest;
      ScannedChar(st, '"', rest, d);
      next := Char(st, '"', d);
      NothingSpecial();
    } else {
      var part;
      DoubledHead(s, rest);
      next, part := QuotedChar(st, s[0], Doubled(s[1..]) + "\"" + rest, d);
      SpecialStays(st.sb, part);
      assert s == [s[0]] + s[1..];
      SpecialStays([s[0]], s[1..]);
      OneChar(s[0]);
      next := QuotedPieces(next, s[1..], rest, d);
    }
  }

  lemma NothingSpecial()
    ensures !HasSpecial("") && NoTerminator("")
  {
  }

  lemma OneChar(c: char)
    ensures (HasSpecial([c]) <==> Special(c)) && (NoTerminator([c]) <==> !LineTerminator(c))
  {
    assert [c][0] == c;
  }

  /** One cell, whatever escape is open before it. */
  lemma CellPieces(st: Scan, s: string, rest: string, d: char) returns (next: Scan)
    requires !st.quotes && st.sb == "" && Clean(s) && Splits(d) && AllReadable(st.row, d)
    requires rest == "" || rest[0] != '"'
    ensures Scanned(st, Printed(s) + rest, d) == Scanned(next, rest, d)
    ensures !next.quotes && AllReadable(next.row, d) && Readable(next.sb, d)
    ensures (Plain(s) ==> Whole(s, d)) ==> next.row == st.row
  {
    hide Scanned;
    if Plain(s) {
      next := PlainPieces(st, s, rest, d);
    } else {
      var tail := Doubled(s) + "\"" + rest;
      assert Printed(s) + rest == ['"'] + tail;
      ScannedChar(st, '"', tail, d);
      next := QuotedPieces(Char(st, '"', d), s, rest, d);
    }
  }

  /**
   Whatever a line of clean cells is read as, no element is a torn cell, and whole cells give no more than there are.
   */
  lemma {:induction false} LinePieces(st: Scan, row: Row, d: char)
    requires !st.quotes && st.sb == "" && row != [] && AllClean(row) && Splits(d) && AllReadable(st.row, d)
    ensures var read := Finished(Scanned(st, Line(row, d), d));
            AllReadable(read, d) && (AllWhole(row, d) ==> |read| <= |st.row| + |row|)
    decreases |row|
  {
    hide Scanned, Clean, Plain, Readable;
    LineHead(row, d);
    if |row| == 1 {
      var next := CellPieces(st, row[0], "", d);
      EndOfLine(next, d);
    } else {
      var tail := Line(row[1..], d);
      var next := CellPieces(st, row[0], [d] + tail, d);
      ScannedChar(next, d, tail, d);
      LinePieces(Char(next, d, d), row[1..], d);
      if AllWhole(row, d) {
        assert AllWhole(row[1..], d);
      }
    }
  }

  // ---------------------------------------------------------------- from the writer to the visitor

  lemma ShorterIsNotRead(both: Row, row: Row, d: char)
    requires both != [] && AllClean(both) && Shortened(both, row) && both != row
    ensures Parsed(Line(both, d), d) != row
  {
    assert START.row + row == row;
    if |row| > 1 && !Splits(d) {
      NeverSplits(START, Line(both, d), d);
    } else {
      LineIsRead(START, both, row, d);
    }
  }

  /** Nor is a row read that lost cells. */
  lemma FewerIsNotRead(both: Row, row: Row, d: char)
    requires both != [] && AllClean(both) && |both| < |row|
    requires AllClean(row) && (AllWhole(row, d) ==> AllWhole(both, d))
    ensures Parsed(Line(both, d), d) != row
  {
    if !Splits(d) {
      NeverSplits(START, Line(both, d), d);
    } else {
      LinePieces(START, both, d);
      if !AllWhole(row, d) {
        var i :| 0 <= i < |row| && Plain(row[i]) && !Whole(row[i], d);
        assert !Readable(row[i], d);
      }
    }
  }

  /** Taking off blanks never makes a row read right that was not. */
  lemma TrimmedIsRead(row: Row, d: char)
    requires row != [] && AllClean(row)
    ensures Parsed(Trim(Line(row, d)), d) == row <==> Trim(Line(row, d)) == Line(row, d) && ReadsBack(row, d)
  {
    hide Line, ReadsBack, Shortened, AllWhole, AllClean;
    var both := ShavedBoth(row, d);
    BothShaved(row, d);
    if Line(both, d) == Line(row, d) {
      ReadBackIff(row, d);
    } else if |both| == |row| {
      ShorterIsNotRead(both, row, d);
    } else {
      FewerIsNotRead(both, row, d);
    }
  }

  /**
   From the writer to the visitor, with any delimiter, a row of cells that keep to their line arrives as it is exactly
   when it is read back from its line, and the line has no blanks at its ends and is no comment.
   */
  lemma RoundTripIff(row: Row, d: char)
    requires row != [] && AllClean(row)
    ensures var line := Line(row, d);
            Visited(line, d) == Some(row) <==> line != "" && ReadsBack(row, d) && Trim(line) == line && line[0] != '#'
  {
    hide Line, ReadsBack, Parsed;
    TrimmedIsRead(row, d);
    EmptyLine(row, d);
    NotEmptied(row, d);
  }

  /** A row whose line is trimmed away does not read back. */
  lemma NotEmptied(row: Row, d: char)
    requires row != []
    ensures Parsed("", d) != row
  {
  }

  lemma EmptyLine(row: Row, d: char)
    requires row != []
    ensures Line(row, d) == "" <==> row == [""]
  {
    if |row| == 1 {
      assert row == [row[0]];
    }
  }

  /** Rows that arrive one by one arrive together. */
  lemma {:induction false} FileRoundTrip(rows: seq<Row>, lines: seq<string>, d: char)
    requires |rows| == |lines|
    requires forall i :: 0 <= i < |rows| ==> lines[i] == Line(rows[i], d) && Visited(lines[i], d) == Some(rows[i])
    ensures AllVisited(lines, d) == rows
  {
    if rows != [] {
      FileRoundTrip(rows[1..], lines[1..], d);
      assert rows == [rows[0]] + rows[1..];
    }
  }

  /** The writer; `lines` is the file, line by line. */
  class Writer {
    const delimiter: char
    var lines: seq<string>
    var ps: string

    constructor (delimiter: char, lines: seq<string>)
      ensures this.delimiter == delimiter && this.lines == lines && ps == ""
    {
      this.delimiter := delimiter;
      this.lines := lines;
      ps := "";
    }

    method Print(s: string)
      modifies this`ps
      ensures ps == old(ps) + Printed(s)
    {
      if NeedsQuotes(s) {
        ps := ps + "\"";
        ps := ps + Doubled(s);
        ps := ps + "\"";
      } else {
        ps := ps + s;
      }
    }

    method PrintAll(texts: seq<string>)
      modifies this`ps
      ensures ps == old(ps) + PrintedAll(texts)
    {
      for i := 0 to |texts|
        invariant ps == old(ps) + PrintedAll(texts[..i])
      {
        assert texts[..i + 1][..i] == texts[..i];
        Print(texts[i]);
      }
      assert texts[..|texts|] == texts;
    }

    method Row(objs: seq<Content>)
      requires ps == ""
      modifies this`ps, this`lines
      ensures ps == ""
      ensures lines == if objs == [] then old(lines) else old(lines) + [Separated(objs, delimiter)]
    {
      if |objs| > 0 {
        var first := true;
        for i := 0 to |objs|
          invariant (first <==> i == 0) && lines == old(lines)
          invariant ps == Separated(objs[..i], delimiter)
        {
          assert objs[..i + 1][..i] == objs[..i];
          if first {
            first := false;
          } else {
            ps := ps + [delimiter];
          }
          match objs[i] {
            case Null =>
            case Text(text) => Print(text);
            case Texts(texts) => PrintAll(texts);
          }
        }
        assert objs[..|objs|] == objs;
        lines := lines + [ps];
        ps := "";
      }
    }
  }

  /** Without arrays, what is written is the line of the row of cells. */
  lemma {:induction false} SeparatedIsLine(contents: seq<Content>, delimiter: char)
    requires forall c :: c in contents ==> !c.Texts?
    ensures Separated(contents, delimiter) == Line(CellsOf(contents), delimiter)
    decreases |contents|
  {
    hide Printed;
    if |contents| > 1 {
      var front, last := contents[..|contents| - 1], contents[|contents| - 1];
      SeparatedIsLine(front, delimiter);
      assert CellsOf(contents) == CellsOf(front) + [CellOf(last)];
      LineGrows(CellsOf(front), CellOf(last), delimiter);
    }
    NullIsEmpty();
  }

  lemma NullIsEmpty()
    ensures Printed("") == ""
  {
  }
}
