/** A worked input for the keyed CSV reader. */
module CsvExamples {
  import opened Wrappers
  import opened Seqs
  import opened Text
  import opened Records
  import opened CsvDecode
  import opened CsvExport

  /** A cell with neither quotes nor commas is closed. */
  lemma PlainClosed(c: string)
    requires '"' !in c && ',' !in c
    ensures ClosedCell(c)
  {
    QuotesOfPlain(c);
  }

  /** Two closed cells joined by a comma read back as those two cells, stripped. */
  lemma TwoCellRow(a: string, b: string)
    requires ClosedCell(a) && ClosedCell(b)
    ensures ParseRow(a + "," + b) == [StripQuotes(a), StripQuotes(b)]
  {
    SplitQuotedJoin([a, b]);
    assert [a, b][1..] == [b];
  }

  lemma HeaderCells()
    ensures ParseRow("h1,h2") == ["h1", "h2"]
  {
    PlainClosed("h1");
    PlainClosed("h2");
    assert "h1,h2" == "h1" + "," + "h2";
    TwoCellRow("h1", "h2");
    StripQuotesPlain("h1");
    StripQuotesPlain("h2");
  }

  lemma QuotedCells()
    ensures ParseRow("\"x,y\",z") == ["x,y", "z"]
  {
    EscapePlain("x,y");
    QuoteCellClosed("x,y");
    assert QuoteCell("x,y") == "\"x,y\"";
    PlainClosed("z");
    assert "\"x,y\",z" == "\"x,y\"" + "," + "z";
    TwoCellRow("\"x,y\"", "z");
    StripQuotesWrapped("x,y");
    StripQuotesPlain("z");
  }

  lemma TwoLinesOf(a: string, b: string)
    requires '\n' !in a && '\n' !in b && (a == [] || a[|a| - 1] != '\r')
    ensures SplitLines(a + "\n" + b) == [a, b]
  {
    SplitLinesAfterLine(a, b);
    SplitLinesOfLine(b);
  }

  lemma TwoLinesSplit()
    ensures SplitLines("h1,h2\n\"x,y\",z") == ["h1,h2", "\"x,y\",z"]
  {
    assert "h1,h2\n\"x,y\",z" == "h1,h2" + "\n" + "\"x,y\",z";
    TwoLinesOf("h1,h2", "\"x,y\",z");
  }

  lemma TwoLines()
    ensures Lines("h1,h2\n\"x,y\",z") == ["h1,h2", "\"x,y\",z"]
  {
    TrimOfTrimmed("h1,h2\n\"x,y\",z");
    TwoLinesSplit();
  }

  lemma ExampleRows()
    ensures CsvParse("h1,h2\n\"x,y\",z") == [Zip(["h1", "h2"], ["x,y", "z"])]
  {
    TwoLines();
    HeaderCells();
    QuotedCells();
  }

  /** Two distinct names over two cells give a record with those names in order. */
  lemma TwoFieldRecord(a: string, b: string, x: string, y: string)
    requires a != b
    ensures KeysOf(Zip([a, b], [x, y])) == [a, b]
    ensures Get(Zip([a, b], [x, y]), a) == Some(x)
    ensures Get(Zip([a, b], [x, y]), b) == Some(y)
  {
    ZipKeys([a, b], [x, y]);
    DedupOfDistinct([a, b]);
    assert [a, b][1..] == [b];
    ZipAt([a, b], [x, y], 0);
    ZipAt([a, b], [x, y], 1);
  }

  lemma ExampleRecord()
    ensures KeysOf(Zip(["h1", "h2"], ["x,y", "z"])) == ["h1", "h2"]
    ensures Get(Zip(["h1", "h2"], ["x,y", "z"]), "h1") == Some("x,y")
    ensures Get(Zip(["h1", "h2"], ["x,y", "z"]), "h2") == Some("z")
  {
    assert "h1"[1] != "h2"[1];
    TwoFieldRecord("h1", "h2", "x,y", "z");
  }

  /** `h1,h2` then `"x,y",z`: the comma inside quotes does not split, and the quotes go. */
  lemma QuotedCommaExample()
    ensures |CsvParse("h1,h2\n\"x,y\",z")| == 1
    ensures KeysOf(CsvParse("h1,h2\n\"x,y\",z")[0]) == ["h1", "h2"]
    ensures Get(CsvParse("h1,h2\n\"x,y\",z")[0], "h1") == Some("x,y")
    ensures Get(CsvParse("h1,h2\n\"x,y\",z")[0], "h2") == Some("z")
  {
    ExampleRows();
    ExampleRecord();
  }
}
