/**
 * The viewer's CSV reader (`parseCSV`, viewer/script.js): the text is
 * trimmed, split into lines at `\r?\n`, and every line is split into cells
 * by a character scan in which `"` toggles an in-quotes flag (and is
 * dropped) and a comma outside quotes ends a cell. A leading byte-order
 * mark is removed from the first cell of the first row.
 */
module Csv {
  import opened JsValues

  // ---------------------------------------------------------------------------
  // Lines

  /** Drops the `\r` that the pattern `\r?\n` consumes before a line feed. */
  function DropCr(piece: string): (r: string)
    ensures '\n' in r ==> '\n' in piece
  {
    if |piece| > 0 && piece[|piece| - 1] == '\r' then piece[..|piece| - 1] else piece
  }

  /** `t.split(/\r?\n/)`: one line per line feed, plus one. */
  function SplitLines(t: string): (lines: seq<string>)
    ensures |lines| == 1 + multiset(t)['\n']
    ensures forall i :: 0 <= i < |lines| ==> '\n' !in lines[i]
    decreases |t|
  {
    var k := IndexOf(t, '\n');
    if k < 0 then [t]
    else
      assert t == t[..k] + [t[k]] + t[k + 1..];
      assert multiset(t[..k])['\n'] == 0;
      [DropCr(t[..k])] + SplitLines(t[k + 1..])
  }

  /** The lines `parseCSV` scans: those of the trimmed text. */
  function Lines(text: string): (lines: seq<string>)
    ensures |lines| >= 1
  {
    SplitLines(Trim(text))
  }

  /** `lines.join("\n")`. */
  function JoinLf(lines: seq<string>): string {
    if lines == [] then ""
    else if |lines| == 1 then lines[0]
    else lines[0] + "\n" + JoinLf(lines[1..])
  }

  /** The text with every `\r\n` replaced by `\n`: what `\r?\n` leaves once its matches become `\n`. */
  function NoCrLf(t: string): string
    decreases |t|
  {
    if t == [] then ""
    else if |t| >= 2 && t[0] == '\r' && t[1] == '\n' then NoCrLf(t[1..])
    else [t[0]] + NoCrLf(t[1..])
  }

  /** A text without line feeds has no `\r\n` to replace. */
  lemma {:induction false} NoCrLfWithoutLf(t: string)
    requires '\n' !in t
    ensures NoCrLf(t) == t
    decreases |t|
  {
    if t != [] {
      assert '\n' !in t[1..];
      NoCrLfWithoutLf(t[1..]);
    }
  }

  /** `DropCr` only ever looks at the last character. */
  lemma DropCrCons(a: string)
    requires |a| >= 2 || (|a| == 1 && a[0] != '\r')
    ensures DropCr(a) == [a[0]] + DropCr(a[1..])
  {
    if |a| >= 2 {
      assert a[1..][|a| - 2] == a[|a| - 1];
      assert a[..|a| - 1] == [a[0]] + a[1..][..|a| - 2];
    }
  }

  /** A character that does not start a `\r\n` is kept. */
  lemma NoCrLfCons(x: char, rest: string)
    requires !(x == '\r' && |rest| > 0 && rest[0] == '\n')
    ensures NoCrLf([x] + rest) == [x] + NoCrLf(rest)
  {
    assert ([x] + rest)[1..] == rest;
  }

  /** Up to its first line feed, a text loses at most the `\r` right before it. */
  lemma {:induction false} NoCrLfFirstLf(a: string, b: string)
    requires '\n' !in a
    ensures NoCrLf(a + "\n" + b) == DropCr(a) + "\n" + NoCrLf(b)
    decreases |a|
  {
    var t := a + "\n" + b;
    if a == [] {
      assert t == "\n" + b;
      assert t[1..] == b;
    } else if a == "\r" {
      assert t[1..] == "\n" + b;
      assert (("\n" + b)[1..]) == b;
    } else {
      var rest := a[1..] + "\n" + b;
      assert t == [a[0]] + rest;
      assert '\n' !in a[1..];
      if a[0] == '\r' {
        assert rest[0] == a[1];
      }
      calc {
        NoCrLf(t);
        { NoCrLfCons(a[0], rest); }
        [a[0]] + NoCrLf(rest);
        { NoCrLfFirstLf(a[1..], b); }
        [a[0]] + (DropCr(a[1..]) + "\n" + NoCrLf(b));
        ([a[0]] + DropCr(a[1..])) + "\n" + NoCrLf(b);
        { DropCrCons(a); }
        DropCr(a) + "\n" + NoCrLf(b);
      }
    }
  }

  /** Joining the lines with `\n` gives back the text with each `\r\n` turned into `\n`. */
  lemma {:induction false} SplitLinesRoundTrip(t: string)
    ensures JoinLf(SplitLines(t)) == NoCrLf(t)
    decreases |t|
  {
    var k := IndexOf(t, '\n');
    if k < 0 {
      NoCrLfWithoutLf(t);
    } else {
      var rest := t[k + 1..];
      assert t == t[..k] + "\n" + rest;
      assert '\n' !in t[..k];
      SplitLinesRoundTrip(rest);
      NoCrLfFirstLf(t[..k], rest);
      assert SplitLines(t) == [DropCr(t[..k])] + SplitLines(rest);
      assert |SplitLines(rest)| >= 1;
      assert (([DropCr(t[..k])] + SplitLines(rest))[1..]) == SplitLines(rest);
    }
  }

  // ---------------------------------------------------------------------------
  // Cells of one line

  /** The variables of the character loop: finished cells, the open cell, the quote flag. */
  datatype ScanState = ScanState(done: seq<string>, current: string, inQuotes: bool)

  /** One iteration of the character loop. */
  function Step(st: ScanState, ch: char): ScanState {
    if ch == '"' then st.(inQuotes := !st.inQuotes)
    else if ch == ',' && !st.inQuotes then ScanState(st.done + [st.current], "", st.inQuotes)
    else st.(current := st.current + [ch])
  }

  /** The loop's state after the characters of `s`. */
  function Scan(s: string): ScanState
    decreases |s|
  {
    if s == [] then ScanState([], "", false)
    else Step(Scan(s[..|s| - 1]), s[|s| - 1])
  }

  /** The cells of one line: the finished cells and the open one. */
  function Cells(line: string): (cells: seq<string>)
    ensures |cells| >= 1
  {
    var st := Scan(line);
    st.done + [st.current]
  }

  /** The number of commas of `s` that stand outside quotes (after an even number of `"`). */
  function CommasOutsideQuotes(s: string): nat
    decreases |s|
  {
    if s == [] then 0
    else
      var init := s[..|s| - 1];
      CommasOutsideQuotes(init)
      + (if s[|s| - 1] == ',' && multiset(init)['"'] % 2 == 0 then 1 else 0)
  }

  /** `s` with every double quote removed. */
  function Unquoted(s: string): (r: string)
    ensures '"' !in r
    decreases |s|
  {
    if s == [] then []
    else if s[|s| - 1] == '"' then Unquoted(s[..|s| - 1])
    else Unquoted(s[..|s| - 1]) + [s[|s| - 1]]
  }

  /** `cells.join(",")`. */
  function JoinCommas(cells: seq<string>): string
    requires |cells| > 0
    decreases |cells|
  {
    if |cells| == 1 then cells[0]
    else JoinCommas(cells[..|cells| - 1]) + [','] + cells[|cells| - 1]
  }

  lemma JoinAppendChar(p: seq<string>, x: string, ch: char)
    ensures JoinCommas(p + [x + [ch]]) == JoinCommas(p + [x]) + [ch]
  {
    if p != [] {
      assert (p + [x + [ch]])[..|p|] == p;
      assert (p + [x])[..|p|] == p;
    }
  }

  lemma JoinAppendCell(p: seq<string>, x: string)
    ensures JoinCommas(p + [x] + [""]) == JoinCommas(p + [x]) + [',']
  {
    assert (p + [x] + [""])[..|p| + 1] == p + [x];
  }

  /**
   * What the character loop maintains, counting: the quote flag is the
   * parity of the quotes seen, and one cell is finished per comma outside
   * quotes.
   */
  lemma {:induction false} ScanCounts(s: string)
    ensures Scan(s).inQuotes == (multiset(s)['"'] % 2 == 1)
    ensures |Scan(s).done| == CommasOutsideQuotes(s)
    decreases |s|
  {
    if s != [] {
      var init := s[..|s| - 1];
      var ch := s[|s| - 1];
      assert s == init + [ch];
      ScanCounts(init);
      assert multiset(s)['"'] == multiset(init)['"'] + (if ch == '"' then 1 else 0);
    }
  }

  /**
   * What the character loop maintains, contents: no cell holds a quote, and
   * the cells joined with commas give back the text without its quotes.
   */
  lemma {:induction false} ScanContents(s: string)
    ensures forall i :: 0 <= i < |Scan(s).done| ==> '"' !in Scan(s).done[i]
    ensures '"' !in Scan(s).current
    ensures JoinCommas(Scan(s).done + [Scan(s).current]) == Unquoted(s)
    decreases |s|
  {
    if s != [] {
      var init := s[..|s| - 1];
      var ch := s[|s| - 1];
      ScanContents(init);
      var st := Scan(init);
      if ch == '"' {
      } else if ch == ',' && !st.inQuotes {
        JoinAppendCell(st.done, st.current);
      } else {
        JoinAppendChar(st.done, st.current, ch);
      }
    }
  }

  /**
   * A line splits into one cell more than it has commas outside quotes; no
   * cell contains `"`; commas inside quotes stay inside the cells, since
   * joining the cells with commas restores the line less its quotes.
   */
  lemma CellsFacts(line: string)
    ensures |Cells(line)| == 1 + CommasOutsideQuotes(line)
    ensures forall i :: 0 <= i < |Cells(line)| ==> '"' !in Cells(line)[i]
    ensures JoinCommas(Cells(line)) == Unquoted(line)
  {
    ScanCounts(line);
    ScanContents(line);
  }

  lemma ScanSnoc(p: string, ch: char)
    ensures Scan(p + [ch]) == Step(Scan(p), ch)
  {
    assert (p + [ch])[..|p|] == p;
  }

  /**
   * After a comma outside quotes the loop starts afresh: the cells of the
   * prefix are finished, and the rest is scanned as if it began the line.
   */
  lemma {:induction false} ScanAfterComma(a: string, b: string)
    requires multiset(a)['"'] % 2 == 0
    ensures Scan(a + [','] + b) ==
              ScanState(Cells(a) + Scan(b).done, Scan(b).current, Scan(b).inQuotes)
    decreases |b|
  {
    if b == [] {
      ScanCounts(a);
      ScanSnoc(a, ',');
      assert a + [','] + b == a + [','];
    } else {
      var init, ch := b[..|b| - 1], b[|b| - 1];
      ScanAfterComma(a, init);
      assert a + [','] + b == (a + [','] + init) + [ch];
      assert b == init + [ch];
      ScanSnoc(a + [','] + init, ch);
      ScanSnoc(init, ch);
      var st := Scan(init);
      if ch == ',' && !st.inQuotes {
        assert Cells(a) + st.done + [st.current] == Cells(a) + (st.done + [st.current]);
      }
    }
  }

  /** Without a comma outside quotes the line is one cell: the line without its quotes, commas included. */
  lemma CellsWithoutOutsideComma(line: string)
    requires CommasOutsideQuotes(line) == 0
    ensures Cells(line) == [Unquoted(line)]
  {
    CellsFacts(line);
  }

  /** A comma outside quotes ends a cell: the line's cells are those before it followed by those after it. */
  lemma CellsSplitAtOutsideComma(a: string, b: string)
    requires multiset(a)['"'] % 2 == 0
    ensures Cells(a + [','] + b) == Cells(a) + Cells(b)
  {
    ScanAfterComma(a, b);
    var st := Scan(b);
    assert Cells(a) + st.done + [st.current] == Cells(a) + (st.done + [st.current]);
  }

  /** The scan of `x,"1`: one cell closed, inside quotes. */
  lemma QuotedCommaPrefix()
    ensures Scan("x,\"1") == ScanState(["x"], "1", true)
  {
    ScanSnoc("", 'x');
    assert "" + ['x'] == "x";
    assert Scan("x") == ScanState([], "x", false);
    ScanSnoc("x", ',');
    assert "x" + [','] == "x,";
    assert Scan("x,") == ScanState(["x"], "", false);
    ScanSnoc("x,", '"');
    assert "x," + ['"'] == "x,\"";
    assert Scan("x,\"") == ScanState(["x"], "", true);
    ScanSnoc("x,\"", '1');
    assert "x,\"" + ['1'] == "x,\"1";
    assert Scan("x,\"1") == ScanState(["x"], "1", true);
  }

  /** The quoted comma of `x,"1,2",y` stays inside the middle cell. */
  lemma QuotedCommaExample()
    ensures Cells("x,\"1,2\",y") == ["x", "1,2", "y"]
  {
    QuotedCommaPrefix();
    ScanSnoc("x,\"1", ',');
    assert "x,\"1" + [','] == "x,\"1,";
    assert Scan("x,\"1,") == ScanState(["x"], "1,", true);
    ScanSnoc("x,\"1,", '2');
    assert "x,\"1," + ['2'] == "x,\"1,2";
    assert Scan("x,\"1,2") == ScanState(["x"], "1,2", true);
    ScanSnoc("x,\"1,2", '"');
    assert "x,\"1,2" + ['"'] == "x,\"1,2\"";
    assert Scan("x,\"1,2\"") == ScanState(["x"], "1,2", false);
    ScanSnoc("x,\"1,2\"", ',');
    assert "x,\"1,2\"" + [','] == "x,\"1,2\",";
    assert Scan("x,\"1,2\",") == ScanState(["x", "1,2"], "", false);
    ScanSnoc("x,\"1,2\",", 'y');
    assert "x,\"1,2\"," + ['y'] == "x,\"1,2\",y";
    assert Scan("x,\"1,2\",y") == ScanState(["x", "1,2"], "y", false);
  }

  /** The character loop of `parseCSV` for one line. */
  method SplitLine(line: string) returns (cells: seq<string>)
    ensures cells == Cells(line)
    ensures |cells| == 1 + CommasOutsideQuotes(line)
    ensures forall i :: 0 <= i < |cells| ==> '"' !in cells[i]
    ensures JoinCommas(cells) == Unquoted(line)
  {
    var result: seq<string> := [];
    var current := "";
    var inQuotes := false;
    var i := 0;
    while i < |line|
      invariant 0 <= i <= |line|
      invariant Scan(line[..i]) == ScanState(result, current, inQuotes)
    {
      var ch := line[i];
      if ch == '"' {
        inQuotes := !inQuotes;
      } else if ch == ',' && !inQuotes {
        result := result + [current];
        current := "";
      } else {
        current := current + [ch];
      }
      assert line[..i + 1][..i] == line[..i];
      i := i + 1;
    }
    assert line[..|line|] == line;
    cells := result + [current];
    CellsFacts(line);
  }

  // ---------------------------------------------------------------------------
  // The whole table

  /** Removes one byte-order mark from the first cell of the first row. */
  function StripLeadingBom(rows: seq<seq<string>>): (r: seq<seq<string>>)
    ensures |r| == |rows|
    ensures forall i :: 0 <= i < |r| ==> |r[i]| == |rows[i]|
    ensures |rows| > 0 && |rows[0]| > 0 ==> r[0][0] == StripBom(rows[0][0])
    ensures forall i, j :: 0 <= i < |r| && 0 <= j < |r[i]| && (i > 0 || j > 0) ==> r[i][j] == rows[i][j]
  {
    if |rows| > 0 && |rows[0]| > 0 then rows[0 := rows[0][0 := StripBom(rows[0][0])]] else rows
  }

  /** `lines.map(...)`: every line split into its cells. */
  function CellsOfLines(lines: seq<string>): (rows: seq<seq<string>>)
    ensures |rows| == |lines|
    ensures forall i :: 0 <= i < |lines| ==> rows[i] == Cells(lines[i])
  {
    seq(|lines|, i requires 0 <= i < |lines| => Cells(lines[i]))
  }

  /** `parseCSV(text)`. */
  function Table(text: string): (rows: seq<seq<string>>)
    ensures |rows| == |Lines(text)|
  {
    StripLeadingBom(CellsOfLines(Lines(text)))
  }

  /**
   * The table has one row per line of the trimmed text and each row one
   * cell per comma outside quotes, plus one; the only cell that differs from
   * what its line splits into is the first cell of the header, which loses
   * one leading byte-order mark.
   */
  lemma TableFacts(text: string)
    ensures |Table(text)| == 1 + multiset(Trim(text))['\n']
    ensures forall i :: 0 <= i < |Table(text)| ==>
              |Table(text)[i]| == 1 + CommasOutsideQuotes(Lines(text)[i])
    ensures forall i, j :: 0 <= i < |Table(text)| && 0 <= j < |Table(text)[i]| && (i > 0 || j > 0) ==>
              Table(text)[i][j] == Cells(Lines(text)[i])[j]
    ensures Table(text)[0][0] == StripBom(Cells(Lines(text)[0])[0])
  {
    forall i | 0 <= i < |Lines(text)| {
      CellsFacts(Lines(text)[i]);
    }
  }

  /** `allRows.length <= 1` ("no data rows") exactly when the trimmed text has no line feed. */
  lemma NoDataRowsIffSingleLine(text: string)
    ensures |Table(text)| <= 1 <==> '\n' !in Trim(text)
  {
    TableFacts(text);
  }

  /** `lines.map(line => ...)`: the character loop on every line, in order. */
  method ParseLines(lines: seq<string>) returns (parsed: seq<seq<string>>)
    ensures parsed == CellsOfLines(lines)
  {
    parsed := [];
    for i := 0 to |lines|
      invariant |parsed| == i
      invariant forall k :: 0 <= k < i ==> parsed[k] == Cells(lines[k])
    {
      var cells := SplitLine(lines[i]);
      parsed := parsed + [cells];
    }
  }

  /** `parseCSV`: each line goes through the character loop, then the BOM strip. */
  method ParseCsv(text: string) returns (rows: seq<seq<string>>)
    ensures rows == Table(text)
  {
    rows := ParseLines(Lines(text));
    if |rows| > 0 && |rows[0]| > 0 {
      rows := rows[0 := rows[0][0 := StripBom(rows[0][0])]];
    }
  }
}
