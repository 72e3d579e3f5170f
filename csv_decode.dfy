/** `csvParse` (app.js:85-91): the keyed CSV decoder used for the reference files. */
module CsvDecode {
  import opened Wrappers
  import opened Seqs
  import opened Text
  import opened Records

  predicate EvenQuotes(s: string) {
    Quotes(s) % 2 == 0
  }

  /** `line.split(/,(?=(?:[^"]*"[^"]*")*[^"]*$)/)`: cut at each comma that the rest of the
      line follows with an even number of double quotes. */
  function SplitQuoted(line: string): (cells: seq<string>)
    ensures |cells| >= 1
  {
    if |line| == 0 then [""]
    else
      var rest := SplitQuoted(line[1..]);
      if line[0] == ',' && EvenQuotes(line[1..]) then [""] + rest
      else [[line[0]] + rest[0]] + rest[1..]
  }

  /** The rule only cuts: the cells joined with commas give back the line. */
  lemma {:induction false} SplitQuotedJoinsBack(line: string)
    ensures Join(SplitQuoted(line), ',') == line
  {
    if |line| > 0 {
      var rest := SplitQuoted(line[1..]);
      SplitQuotedJoinsBack(line[1..]);
      if line[0] == ',' && EvenQuotes(line[1..]) {
        JoinCons("", rest, ',');
      } else {
        JoinCons(rest[0], rest[1..], ',');
        JoinCons([line[0]] + rest[0], rest[1..], ',');
        assert rest == [rest[0]] + rest[1..];
      }
    }
  }

  lemma QuotesOfCons(c: char, s: string)
    ensures Quotes([c] + s) == Quotes(s) + (if c == '"' then 1 else 0)
  {
    assert ([c] + s)[1..] == s;
  }

  /** Quotes in the text that follows cell `i` on its line. */
  function QuotesAfter(cells: seq<string>, i: nat): nat
    requires i < |cells|
  {
    Quotes(Join(cells[i + 1..], ','))
  }

  lemma {:induction false} QuotesOfJoin(p: string, rest: seq<string>)
    requires |rest| > 0
    ensures Quotes(Join([p] + rest, ',')) == Quotes(p) + Quotes(Join(rest, ','))
  {
    JoinCons(p, rest, ',');
    QuotesAppend(p + [','], Join(rest, ','));
    QuotesAppend(p, [',']);
    assert Quotes([',']) == 0 by {
      assert [','][1..] == [];
    }
  }

  /** Every boundary between two cells is a comma followed by an even number of quotes. */
  lemma {:induction false} SplitQuotedCutIsEven(line: string, i: nat)
    requires i < |SplitQuoted(line)| - 1
    ensures QuotesAfter(SplitQuoted(line), i) % 2 == 0
  {
    var cells := SplitQuoted(line);
    var rest := SplitQuoted(line[1..]);
    if line[0] == ',' && EvenQuotes(line[1..]) {
      assert cells == [""] + rest;
      if i == 0 {
        assert cells[1..] == rest;
        SplitQuotedJoinsBack(line[1..]);
      } else {
        assert cells[i + 1..] == rest[i - 1 + 1..];
        SplitQuotedCutIsEven(line[1..], i - 1);
      }
    } else {
      assert cells == [[line[0]] + rest[0]] + rest[1..];
      assert cells[i + 1..] == rest[i + 1..];
      SplitQuotedCutIsEven(line[1..], i);
    }
  }

  /** The rest of the line after character `p` of cell `i` holds an odd number of quotes. */
  predicate OddAfter(cells: seq<string>, i: nat, p: nat)
    requires i < |cells| && p < |cells[i]|
  {
    (Quotes(cells[i][p + 1..]) + QuotesAfter(cells, i)) % 2 == 1
  }

  /** A comma the rule does not cut at, at the head of the line, has an odd number of quotes
      after it. */
  lemma {:induction false} LeadingCommaIsOdd(line: string)
    requires |line| > 0 && line[0] == ',' && !EvenQuotes(line[1..])
    ensures |SplitQuoted(line)[0]| > 0 && OddAfter(SplitQuoted(line), 0, 0)
  {
    var cells := SplitQuoted(line);
    var rest := SplitQuoted(line[1..]);
    assert cells == [[line[0]] + rest[0]] + rest[1..];
    assert cells[1..] == rest[1..];
    assert cells[0][1..] == rest[0];
    SplitQuotedJoinsBack(line[1..]);
    if |rest| > 1 {
      QuotesOfJoin(rest[0], rest[1..]);
      assert [rest[0]] + rest[1..] == rest;
    } else {
      assert rest == [rest[0]];
    }
  }

  /** The first character of a line that is not a cut starts the first cell. */
  lemma SplitQuotedUncut(line: string)
    requires |line| > 0 && !(line[0] == ',' && EvenQuotes(line[1..]))
    ensures |SplitQuoted(line)| == |SplitQuoted(line[1..])|
    ensures SplitQuoted(line)[0] == [line[0]] + SplitQuoted(line[1..])[0]
    ensures SplitQuoted(line)[1..] == SplitQuoted(line[1..])[1..]
  {
  }

  /** A comma that is a cut starts the line with an empty cell. */
  lemma SplitQuotedCut(line: string)
    requires |line| > 0 && line[0] == ',' && EvenQuotes(line[1..])
    ensures SplitQuoted(line) == [""] + SplitQuoted(line[1..])
  {
  }

  /** The quote count after a comma depends only on the text that follows it. */
  lemma QuotesAfterComma(cells: seq<string>, i: nat, p: nat, rest: seq<string>, i': nat, p': nat)
    requires i < |cells| && p < |cells[i]| && i' < |rest| && p' < |rest[i']|
    requires cells[i][p + 1..] == rest[i'][p' + 1..] && cells[i + 1..] == rest[i' + 1..]
    ensures OddAfter(cells, i, p) == OddAfter(rest, i', p')
  {
  }

  /** Every comma left inside a cell is followed, on the line, by an odd number of quotes. */
  lemma {:induction false} SplitQuotedInnerCommaIsOdd(line: string, i: nat, p: nat)
    requires i < |SplitQuoted(line)| && p < |SplitQuoted(line)[i]|
    requires SplitQuoted(line)[i][p] == ','
    ensures OddAfter(SplitQuoted(line), i, p)
  {
    var cells := SplitQuoted(line);
    var rest := SplitQuoted(line[1..]);
    if line[0] == ',' && EvenQuotes(line[1..]) {
      SplitQuotedCut(line);
      assert i > 0 && cells[i] == rest[i - 1];
      assert cells[i + 1..] == rest[i - 1 + 1..];
      SplitQuotedInnerCommaIsOdd(line[1..], i - 1, p);
      QuotesAfterComma(cells, i, p, rest, i - 1, p);
    } else {
      SplitQuotedUncut(line);
      if i > 0 {
        assert cells[i] == rest[i] && cells[i + 1..] == rest[i + 1..] by {
          assert cells[i] == cells[1..][i - 1];
          assert cells[i + 1..] == cells[1..][i..];
        }
        SplitQuotedInnerCommaIsOdd(line[1..], i, p);
        QuotesAfterComma(cells, i, p, rest, i, p);
      } else if p > 0 {
        assert rest[0][p - 1] == ',' && cells[0][p + 1..] == rest[0][p - 1 + 1..];
        assert cells[0 + 1..] == rest[0 + 1..];
        SplitQuotedInnerCommaIsOdd(line[1..], 0, p - 1);
        QuotesAfterComma(cells, 0, p, rest, 0, p - 1);
      } else {
        LeadingCommaIsOdd(line);
      }
    }
  }

  /** What `SplitQuoted` computes, stated without its recursion: together with
      `Join(cells, ',') == line` this determines the cells. */
  lemma SplitQuotedCuts(line: string)
    ensures forall i :: 0 <= i < |SplitQuoted(line)| - 1 ==> QuotesAfter(SplitQuoted(line), i) % 2 == 0
    ensures forall i, p ::
              (0 <= i < |SplitQuoted(line)| && 0 <= p < |SplitQuoted(line)[i]| && SplitQuoted(line)[i][p] == ',')
              ==> OddAfter(SplitQuoted(line), i, p)
  {
    forall i | 0 <= i < |SplitQuoted(line)| - 1
      ensures QuotesAfter(SplitQuoted(line), i) % 2 == 0
    {
      SplitQuotedCutIsEven(line, i);
    }
    forall i, p | 0 <= i < |SplitQuoted(line)| && 0 <= p < |SplitQuoted(line)[i]| &&
              SplitQuoted(line)[i][p] == ','
      ensures OddAfter(SplitQuoted(line), i, p)
    {
      SplitQuotedInnerCommaIsOdd(line, i, p);
    }
  }

  /** The shape of a cell that `SplitQuoted` keeps in one piece. */
  predicate ClosedCell(c: string) {
    EvenQuotes(c) && forall p :: 0 <= p < |c| && c[p] == ',' ==> !EvenQuotes(c[p + 1..])
  }

  lemma {:induction false} SplitQuotedPrefix(t: string, s: string)
    requires forall p :: 0 <= p < |t| && t[p] == ',' ==> !EvenQuotes(t[p + 1..] + s)
    ensures SplitQuoted(t + s) == [t + SplitQuoted(s)[0]] + SplitQuoted(s)[1..]
  {
    if |t| == 0 {
      assert t + s == s;
      assert t + SplitQuoted(s)[0] == SplitQuoted(s)[0];
      assert SplitQuoted(s) == [SplitQuoted(s)[0]] + SplitQuoted(s)[1..];
    } else {
      assert (t + s)[0] == t[0] && (t + s)[1..] == t[1..] + s;
      forall p | 0 <= p < |t[1..]| && t[1..][p] == ','
        ensures !EvenQuotes(t[1..][p + 1..] + s)
      {
        assert t[1..][p + 1..] == t[p + 2..];
        assert t[p + 1] == ',';
      }
      assert !(t[0] == ',' && EvenQuotes(t[1..] + s)) by {
        if t[0] == ',' {
          assert t[1..] == t[0 + 1..];
        }
      }
      SplitQuotedPrefix(t[1..], s);
      assert [t[0]] + (t[1..] + SplitQuoted(s)[0]) == t + SplitQuoted(s)[0];
    }
  }

  lemma {:induction false} QuotesOfJoinEven(cells: seq<string>)
    requires forall i :: 0 <= i < |cells| ==> EvenQuotes(cells[i])
    ensures EvenQuotes(Join(cells, ','))
  {
    if |cells| > 1 {
      QuotesOfJoinEven(cells[1..]);
      QuotesOfJoin(cells[0], cells[1..]);
      assert [cells[0]] + cells[1..] == cells;
    }
  }

  /** A comma and text with an even number of quotes split off an empty first cell. */
  lemma SplitQuotedLeadingComma(j: string)
    requires EvenQuotes(j)
    ensures SplitQuoted([','] + j) == [""] + SplitQuoted(j)
  {
    assert ([','] + j)[1..] == j;
  }

  /** Inside a closed cell followed by a comma and an even tail, every comma still sees an odd
      number of quotes after it. */
  lemma ClosedCellCommas(c: string, j: string)
    requires ClosedCell(c) && EvenQuotes(j)
    ensures forall p :: 0 <= p < |c| && c[p] == ',' ==> !EvenQuotes(c[p + 1..] + ([','] + j))
  {
    forall p | 0 <= p < |c| && c[p] == ','
      ensures !EvenQuotes(c[p + 1..] + ([','] + j))
    {
      assert !EvenQuotes(c[p + 1..]);
      QuotesAppend(c[p + 1..], [','] + j);
      QuotesOfCons(',', j);
    }
  }

  /** A closed cell followed by a comma and text with an even number of quotes is cut off
      whole. */
  lemma {:induction false} SplitQuotedClosedCell(c: string, j: string)
    requires ClosedCell(c) && EvenQuotes(j)
    ensures SplitQuoted(c + [','] + j) == [c] + SplitQuoted(j)
  {
    var tail := [','] + j;
    SplitQuotedLeadingComma(j);
    ClosedCellCommas(c, j);
    SplitQuotedPrefix(c, tail);
    var st := SplitQuoted(tail);
    assert st[0] == "" && st[1..] == SplitQuoted(j);
    assert c + st[0] == c;
    assert c + [','] + j == c + tail;
  }

  /** Closed cells joined with commas split back into the same cells. */
  lemma {:induction false} SplitQuotedJoin(cells: seq<string>)
    requires |cells| >= 1
    requires forall i :: 0 <= i < |cells| ==> ClosedCell(cells[i])
    ensures SplitQuoted(Join(cells, ',')) == cells
  {
    var c := cells[0];
    if |cells| == 1 {
      forall p | 0 <= p < |c| && c[p] == ',' ensures !EvenQuotes(c[p + 1..] + "") {
        assert c[p + 1..] + "" == c[p + 1..];
      }
      SplitQuotedPrefix(c, "");
      assert c + "" == c;
    } else {
      SplitQuotedJoin(cells[1..]);
      QuotesOfJoinEven(cells[1..]);
      SplitQuotedClosedCell(c, Join(cells[1..], ','));
      JoinCons(c, cells[1..], ',');
      assert [c] + cells[1..] == cells;
    }
  }

  /** `c.replace(/^"|"$/g, "")`: drops one leading and one trailing double quote, if present. */
  function StripQuotes(c: string): string
  {
    var a := if |c| > 0 && c[0] == '"' then c[1..] else c;
    if |a| > 0 && a[|a| - 1] == '"' then a[..|a| - 1] else a
  }

  /** Nothing, or one double quote. */
  predicate QuoteOrNothing(a: string) {
    a == "" || a == "\""
  }

  /** Stripping removes at most one leading and at most one trailing quote and nothing else:
      the leading one exactly when the cell starts with a quote, the trailing one exactly when
      what remains ends with one (a lone `"` loses its only character once). */
  lemma StripQuotesSpec(c: string)
    ensures exists a, b :: QuoteOrNothing(a) && QuoteOrNothing(b)
              && c == a + StripQuotes(c) + b
              && (a == "\"" <==> |c| > 0 && c[0] == '"')
              && (b == "\"" <==> |c| > |a| && c[|c| - 1] == '"')
  {
    var a: string := if |c| > 0 && c[0] == '"' then "\"" else "";
    var rest := c[|a|..];
    var b: string := if |rest| > 0 && rest[|rest| - 1] == '"' then "\"" else "";
    assert c == a + rest;
    assert rest == StripQuotes(c) + b;
    assert c == a + StripQuotes(c) + b;
    assert |rest| > 0 ==> rest[|rest| - 1] == c[|c| - 1];
    assert (a == "\"" <==> |c| > 0 && c[0] == '"');
    assert (b == "\"" <==> |c| > |a| && c[|c| - 1] == '"');
    assert QuoteOrNothing(a) && QuoteOrNothing(b);
  }

  /** Stripping undoes wrapping in quotes, whatever the cell holds (doubled inner quotes stay). */
  lemma StripQuotesWrapped(v: string)
    ensures StripQuotes("\"" + v + "\"") == v
  {
    var c := "\"" + v + "\"";
    assert c[1..] == v + "\"";
  }

  /** A cell that neither starts nor ends with a quote is left as it is. */
  lemma StripQuotesPlain(c: string)
    requires c == [] || (c[0] != '"' && c[|c| - 1] != '"')
    ensures StripQuotes(c) == c
  {
  }

  /** One line split into cells, each stripped of its outer quotes. */
  function ParseRow(line: string): (row: seq<string>)
  {
    var cells := SplitQuoted(line);
    seq(|cells|, i requires 0 <= i < |cells| => StripQuotes(cells[i]))
  }

  /** `r[i] ?? ""`. */
  function Cell(row: seq<string>, i: nat): string
  {
    if i < |row| then row[i] else ""
  }

  /** The entries `head.map((h, i) => [h, r[i] ?? ""])`. */
  function ZipEntries(head: seq<string>, row: seq<string>): (es: seq<Entry>)
  {
    seq(|head|, i requires 0 <= i < |head| => (head[i], Cell(row, i)))
  }

  /** `Object.fromEntries(head.map((h, i) => [h, r[i] ?? ""]))`. */
  function Zip(head: seq<string>, row: seq<string>): Record
  {
    FromEntries(ZipEntries(head, row))
  }

  /** The lines of the trimmed text. */
  function Lines(text: string): seq<string>
  {
    SplitLines(Trim(text))
  }

  /** The header row: the first line, split and stripped. */
  function Header(text: string): seq<string>
  {
    ParseRow(Lines(text)[0])
  }

  /** Line `i + 1` zipped under the first line's cells. */
  function LineRecord(lines: seq<string>, i: nat): Record
    requires i < |lines| - 1
  {
    Zip(ParseRow(lines[0]), ParseRow(lines[i + 1]))
  }

  /** One record per line after the first, keyed by the first line's cells. */
  function ParseLines(lines: seq<string>): (rs: seq<Record>)
    requires |lines| > 0
    ensures |rs| == |lines| - 1
    ensures forall i :: 0 <= i < |rs| ==> rs[i] == LineRecord(lines, i)
  {
    seq(|lines| - 1, i requires 0 <= i < |lines| - 1 => LineRecord(lines, i))
  }

  /** `csvParse(text)`. */
  function CsvParse(text: string): seq<Record>
  {
    ParseLines(Lines(text))
  }

  /** Record `i` of `csvParse` is line `i + 1` zipped under the header. */
  lemma CsvParseAt(text: string, i: nat)
    requires i < |Lines(text)| - 1
    ensures |CsvParse(text)| == |Lines(text)| - 1
    ensures CsvParse(text)[i] == Zip(Header(text), ParseRow(Lines(text)[i + 1]))
  {
  }

  lemma ZipEntriesKeys(head: seq<string>, row: seq<string>)
    ensures KeysOf(ZipEntries(head, row)) == head
  {
  }

  /** A zipped record holds, for each key, the value of its last entry. */
  lemma ZipGet(head: seq<string>, row: seq<string>, k: string)
    ensures Get(Zip(head, row), k) == LastValue(ZipEntries(head, row), k)
  {
  }

  lemma ZipKeys(head: seq<string>, row: seq<string>)
    ensures WellFormed(Zip(head, row))
    ensures KeysOf(Zip(head, row)) == Dedup(head)
  {
    FromEntriesSpec(ZipEntries(head, row));
    ZipEntriesKeys(head, row);
  }

  lemma ZipAbsent(head: seq<string>, row: seq<string>, k: string)
    requires k !in head
    ensures Get(Zip(head, row), k) == None
  {
    ZipEntriesKeys(head, row);
    ZipGet(head, row, k);
    LastValueAbsent(ZipEntries(head, row), k);
  }

  lemma ZipAt(head: seq<string>, row: seq<string>, j: nat)
    requires j < |head| && head[j] !in head[j + 1..]
    ensures Get(Zip(head, row), head[j]) == Some(Cell(row, j))
  {
    var es := ZipEntries(head, row);
    forall l | j < l < |es| ensures es[l].0 != es[j].0 {
      assert head[l] == head[j + 1..][l - j - 1];
    }
    LastValueAt(es, j);
    ZipGet(head, row, head[j]);
  }

  /** Zipping a row under a header: exactly the header's names as keys, in first-seen order;
      each name takes the cell under its last occurrence, `""` when the row is too short, and
      cells beyond the header are dropped. */
  lemma ZipSpec(head: seq<string>, row: seq<string>)
    ensures WellFormed(Zip(head, row))
    ensures KeysOf(Zip(head, row)) == Dedup(head)
    ensures forall k :: k !in head ==> Get(Zip(head, row), k) == None
    ensures forall j :: 0 <= j < |head| && head[j] !in head[j + 1..] ==>
              Get(Zip(head, row), head[j]) == Some(Cell(row, j))
  {
    ZipKeys(head, row);
    forall k | k !in head ensures Get(Zip(head, row), k) == None {
      ZipAbsent(head, row, k);
    }
    forall j | 0 <= j < |head| && head[j] !in head[j + 1..]
      ensures Get(Zip(head, row), head[j]) == Some(Cell(row, j))
    {
      ZipAt(head, row, j);
    }
  }

  /** Record `i` of `csvParse`: it zips line `i + 1` under the header, so it has the header's
      names as its keys, the cell under the last occurrence of a name as its value, `""` for a
      missing cell, and nothing from surplus cells. */
  lemma CsvParseRecord(text: string, i: nat)
    requires i < |Lines(text)| - 1
    ensures |CsvParse(text)| == |Lines(text)| - 1
    ensures WellFormed(CsvParse(text)[i])
    ensures KeysOf(CsvParse(text)[i]) == Dedup(Header(text))
    ensures forall k :: k !in Header(text) ==> Get(CsvParse(text)[i], k) == None
    ensures forall j :: 0 <= j < |Header(text)| && Header(text)[j] !in Header(text)[j + 1..] ==>
              Get(CsvParse(text)[i], Header(text)[j]) == Some(Cell(ParseRow(Lines(text)[i + 1]), j))
  {
    CsvParseAt(text, i);
    ZipSpec(Header(text), ParseRow(Lines(text)[i + 1]));
  }

  /** Empty or header-only text gives no records, since the text is trimmed first. */
  lemma CsvParseNoBody(text: string)
    requires '\n' !in Trim(text)
    ensures CsvParse(text) == []
  {
    SplitLinesOfLine(Trim(text));
  }
}
