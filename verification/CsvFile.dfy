/** Rows written to a file and read back from its text: exactly when they all arrive. */
module CsvFile {
  import opened Wrappers
  import opened Csv

  predicate Break(c: char) {
    c == '\n' || c == '\r'
  }

  predicate Unbroken(s: string) {
    forall i :: 0 <= i < |s| ==> !Break(s[i])
  }

  /** Where the first line ends. */
  function LineEnd(text: string): (i: nat)
    ensures i <= |text| && Unbroken(text[..i]) && (i < |text| ==> Break(text[i]))
  {
    if text == "" || Break(text[0]) then 0
    else
      var i := LineEnd(text[1..]) + 1;
      assert text[..i] == [text[0]] + text[1..][..i - 1];
      i
  }

  /** The lines that `BufferedReader.readLine` delivers: up to a line feed, a carriage return, or one and the other. */
  function FileLines(text: string): seq<string>
    decreases |text|
  {
    if text == "" then []
    else
      var i := LineEnd(text);
      if i == |text| then [text]
      else [text[..i]] + FileLines(text[if "\r\n" <= text[i..] then i + 2 else i + 1..])
  }

  /** What `println` may end a line with. */
  predicate Ends(eol: string) {
    eol in {"\n", "\r", "\r\n"}
  }

  /** The text of a file with these rows. */
  function Written(rows: seq<Row>, d: char, eol: string): string {
    if rows == [] then "" else Line(rows[0], d) + eol + Written(rows[1..], d, eol)
  }

  function LinesOf(rows: seq<Row>, d: char): (r: seq<string>)
    ensures |r| == |rows| && forall i :: 0 <= i < |rows| ==> r[i] == Line(rows[i], d)
  {
    seq(|rows|, i requires 0 <= i < |rows| => Line(rows[i], d))
  }

  // ---------------------------------------------------------------- the lines of a file

  lemma {:induction false} EndsThere(line: string, rest: string)
    requires Unbroken(line) && rest != "" && Break(rest[0])
    ensures LineEnd(line + rest) == |line|
    decreases |line|
  {
    var text := line + rest;
    if line == "" {
      assert text == rest;
    } else {
      assert text[1..] == line[1..] + rest && text[0] == line[0];
      EndsThere(line[1..], rest);
    }
  }

  lemma OneLine(line: string, eol: string, rest: string)
    requires Unbroken(line) && Ends(eol) && (eol == "\r" ==> rest == "" || rest[0] != '\n')
    ensures FileLines(line + eol + rest) == [line] + FileLines(rest)
  {
    var text := line + eol + rest;
    var i := |line|;
    assert text == line + (eol + rest) && text[i..] == eol + rest && text[..i] == line;
    EndsThere(line, eol + rest);
    assert (eol + rest)[0] == eol[0];
    if eol == "\r\n" {
      assert "\r\n" <= text[i..] && text[i + 2..] == rest;
    } else {
      assert text[i + 1..] == rest && (rest != "" ==> (eol + rest)[1] == rest[0]);
    }
  }

  predicate AllUnbroken(lines: seq<string>) {
    forall i :: 0 <= i < |lines| ==> Unbroken(lines[i])
  }

  /** What is written line by line is read line by line. */
  lemma {:induction false} LinesOfFile(rows: seq<Row>, d: char, eol: string)
    requires AllUnbroken(LinesOf(rows, d)) && Ends(eol)
    ensures FileLines(Written(rows, d, eol)) == LinesOf(rows, d)
    decreases |rows|
  {
    if rows != [] {
      var line, rest := Line(rows[0], d), Written(rows[1..], d, eol);
      assert LinesOf(rows, d) == [line] + LinesOf(rows[1..], d);
      assert forall i :: 0 <= i < |rows| - 1 ==> LinesOf(rows[1..], d)[i] == LinesOf(rows, d)[i + 1];
      LinesOfFile(rows[1..], d, eol);
      assert Unbroken(LinesOf(rows, d)[0]);
      if eol == "\r" && |rows| > 1 {
        NoLineFeed(LinesOf(rows, d)[1], eol);
        assert rest == Line(rows[1], d) + eol + Written(rows[1..][1..], d, eol);
      }
      OneLine(line, eol, rest);
    }
  }

  lemma NoLineFeed(line: string, eol: string)
    requires Unbroken(line) && eol == "\r"
    ensures forall rest: string :: (line + eol + rest)[0] != '\n'
  {
    assert forall rest: string :: (line + eol + rest)[0] == if line == "" then '\r' else line[0];
  }

  lemma {:induction false} LinesAreUnbroken(text: string)
    ensures AllUnbroken(FileLines(text))
    decreases |text|
  {
    if text != "" {
      var i := LineEnd(text);
      if i == |text| {
        assert text[..i] == text;
      } else {
        LinesAreUnbroken(text[if "\r\n" <= text[i..] then i + 2 else i + 1..]);
      }
    }
  }

  // ---------------------------------------------------------------- what a line can be read as

  lemma {:induction false} ScannedUnbroken(st: Scan, t: string, d: char)
    requires Unbroken(t) && Unbroken(st.sb) && AllUnbroken(st.row)
    ensures Unbroken(Scanned(st, t, d).sb) && AllUnbroken(Scanned(st, t, d).row)
    decreases |t|
  {
    if t == "" {
    } else if DoubledQuote(st, t) {
      ScannedUnbroken(st.(sb := st.sb + ['"'], last := '"'), t[2..], d);
    } else {
      ScannedUnbroken(Char(st, t[0], d), t[1..], d);
    }
  }

  lemma {:induction false} ScannedWhole(st: Scan, t: string, d: char)
    requires d !in t
    ensures Scanned(st, t, d).row == st.row
    decreases |t|
  {
    if t == "" {
    } else if DoubledQuote(st, t) {
      assert forall c :: c in t[2..] ==> c in t;
      ScannedWhole(st.(sb := st.sb + ['"'], last := '"'), t[2..], d);
    } else {
      assert t == [t[0]] + t[1..];
      ScannedWhole(Char(st, t[0], d), t[1..], d);
    }
  }

  /** No cell has a break in it, and no row is cut at one. */
  ghost predicate Keeps(row: Row, d: char) {
    AllUnbroken(row) && (Break(d) ==> |row| <= 1)
  }

  lemma VisitedKeeps(line: string, d: char)
    requires Unbroken(line)
    ensures Visited(line, d).Some? ==> Keeps(Visited(line, d).value, d)
  {
    var t := Trim(line);
    TrimmedIn(line);
    TrimmedIn(TrimLeft(line));
    assert forall c :: c in t ==> c in line;
    assert forall c :: c in line ==> !Break(c);
    assert Unbroken(t);
    ScannedUnbroken(START, t, d);
    if Break(d) {
      ScannedWhole(START, t, d);
    }
  }

  lemma {:induction false} AllKeep(lines: seq<string>, d: char)
    requires AllUnbroken(lines)
    ensures forall row :: row in AllVisited(lines, d) ==> Keeps(row, d)
    decreases |lines|
  {
    hide Keeps, Visited;
    if lines != [] {
      assert forall i :: 0 <= i < |lines| - 1 ==> lines[1..][i] == lines[i + 1];
      VisitedKeeps(lines[0], d);
      AllKeep(lines[1..], d);
    }
  }

  // ---------------------------------------------------------------- exactly when all arrive

  /** The row comes back from a file in which it stands alone. */
  predicate Arrives(row: Row, d: char)
    requires row != []
  {
    var line := Line(row, d);
    && AllUnbroken(row) && (|row| > 1 ==> !Break(d))
    && ReadsBack(row, d) && line != "" && Trim(line) == line && line[0] != '#'
  }

  /** No quote is written bare on a line, as next to a terminator that keeps a cell unquoted without being a break. */
  predicate NoBareQuotes(row: Row) {
    forall i :: 0 <= i < |row| && Plain(row[i]) && Unbroken(row[i]) ==> '"' !in row[i]
  }

  lemma {:induction false} DoubledUnbroken(s: string)
    requires Unbroken(s)
    ensures Unbroken(Doubled(s))
    decreases |s|
  {
    if s != "" {
      DoubledUnbroken(s[1..]);
    }
  }

  lemma {:induction false} LineUnbroken(row: Row, d: char)
    requires AllUnbroken(row) && (|row| > 1 ==> !Break(d))
    ensures Unbroken(Line(row, d))
    decreases |row|
  {
    hide Printed;
    if row != [] {
      PrintedUnbroken(row[0]);
      if |row| > 1 {
        assert forall i :: 0 <= i < |row| - 1 ==> row[1..][i] == row[i + 1];
        LineUnbroken(row[1..], d);
      }
    }
  }

  lemma PrintedUnbroken(s: string)
    requires Unbroken(s)
    ensures Unbroken(Printed(s))
  {
    DoubledUnbroken(s);
  }

  lemma CleanRow(row: Row)
    requires AllUnbroken(row) && NoBareQuotes(row)
    ensures AllClean(row)
  {
    forall i | 0 <= i < |row| ensures Clean(row[i]) {
      assert Unbroken(row[i]);
    }
  }

  /** As many rows as lines means that every line gave its own. */
  lemma {:induction false} EachItsOwn(lines: seq<string>, rows: seq<Row>, d: char)
    requires AllVisited(lines, d) == rows
    ensures |rows| <= |lines|
    ensures |rows| == |lines| ==> forall i :: 0 <= i < |rows| ==> Visited(lines[i], d) == Some(rows[i])
    decreases |lines|
  {
    hide Visited;
    if lines != [] {
      var rest := AllVisited(lines[1..], d);
      EachItsOwn(lines[1..], rest, d);
      match Visited(lines[0], d) {
        case None =>
          assert rows == [] + rest == rest;
        case Some(row) =>
          assert rows == [row] + rest;
          forall i | 0 <= i < |rows| && |rows| == |lines| ensures Visited(lines[i], d) == Some(rows[i]) {
            if i > 0 {
              assert lines[i] == lines[1..][i - 1] && rows[i] == rest[i - 1];
            }
          }
      }
    }
  }

  predicate AllRows(rows: seq<Row>) {
    forall i :: 0 <= i < |rows| ==> rows[i] != [] && NoBareQuotes(rows[i])
  }

  /** Exactly the rows written are read from the text of the file if and only if each of them arrives alone. */
  lemma FileRoundTripIff(rows: seq<Row>, d: char, eol: string)
    requires AllRows(rows) && Ends(eol)
    ensures AllVisited(FileLines(Written(rows, d, eol)), d) == rows
            <==> forall i :: 0 <= i < |rows| ==> Arrives(rows[i], d)
  {
    hide FileLines, Written, Line, ReadsBack, Visited, AllVisited, NoBareQuotes;
    var lines := FileLines(Written(rows, d, eol));
    if AllVisited(lines, d) == rows {
      LinesAreUnbroken(Written(rows, d, eol));
      AllKeep(lines, d);
      forall i | 0 <= i < |rows| ensures Keeps(rows[i], d) {
        assert rows[i] in AllVisited(lines, d);
      }
      OwnLines(rows, d, eol);
      EachItsOwn(LinesOf(rows, d), rows, d);
      forall i | 0 <= i < |rows| ensures Arrives(rows[i], d) {
        assert LinesOf(rows, d)[i] == Line(rows[i], d) && Keeps(rows[i], d);
        CleanRow(rows[i]);
        RoundTripIff(rows[i], d);
      }
    } else if forall i :: 0 <= i < |rows| ==> Arrives(rows[i], d) {
      forall i | 0 <= i < |rows| ensures Keeps(rows[i], d) {
        assert Arrives(rows[i], d);
      }
      OwnLines(rows, d, eol);
      forall i | 0 <= i < |rows| ensures Visited(LinesOf(rows, d)[i], d) == Some(rows[i]) {
        assert Arrives(rows[i], d);
        CleanRow(rows[i]);
        RoundTripIff(rows[i], d);
      }
      FileRoundTrip(rows, LinesOf(rows, d), d);
    }
  }

  /** Rows without breaks are on a line each. */
  lemma OwnLines(rows: seq<Row>, d: char, eol: string)
    requires Ends(eol) && forall i :: 0 <= i < |rows| ==> Keeps(rows[i], d)
    ensures FileLines(Written(rows, d, eol)) == LinesOf(rows, d)
  {
    hide Line, Written, FileLines;
    forall i | 0 <= i < |rows| ensures Unbroken(LinesOf(rows, d)[i]) {
      assert Keeps(rows[i], d);
      LineUnbroken(rows[i], d);
    }
    LinesOfFile(rows, d, eol);
  }
}
