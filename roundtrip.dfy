/** Exporting the store and reading the file back with `csvParse` (app.js:85-91 against
    app.js:150-153). */
module RoundTrip {
  import opened Wrappers
  import opened Seqs
  import opened Text
  import opened Records
  import opened CsvDecode
  import opened CsvExport

  /** A field name that survives the trip: not empty, not starting with white space (the
      reader trims the whole text), and free of commas, quotes and line-break characters. */
  predicate SafeName(k: string) {
    && k != [] && !IsJsSpace(k[0])
    && ',' !in k && '"' !in k && '\r' !in k && '\n' !in k
  }

  /** Every name is safe and no value holds an LF (which would split its line). */
  predicate Exportable(list: seq<Record>) {
    forall i, e :: 0 <= i < |list| && e in list[i] ==> SafeName(e.0) && '\n' !in e.1
  }

  lemma {:induction false} FieldsSafe(list: seq<Record>)
    requires Exportable(list)
    ensures forall j :: 0 <= j < |Fields(list)| ==> SafeName(Fields(list)[j])
  {
    FieldsSpec(list);
    forall j | 0 <= j < |Fields(list)| ensures SafeName(Fields(list)[j]) {
      var k := Fields(list)[j];
      assert k in Fields(list);
      var i :| 0 <= i < |list| && k in KeysOf(list[i]);
      var n := FirstIndex(KeysOf(list[i]), k);
      assert list[i][n] in list[i];
    }
  }

  lemma {:induction false} LookupNoLineFeed(list: seq<Record>, i: nat, k: string)
    requires Exportable(list) && i < |list|
    ensures '\n' !in Lookup(list[i], k)
  {
  }

  /** The header line reads back as the field names. */
  lemma {:induction false} HeaderLine(fields: seq<string>)
    requires |fields| > 0
    requires forall j :: 0 <= j < |fields| ==> SafeName(fields[j])
    ensures ParseRow(Join(fields, ',')) == fields
    ensures '\n' !in Join(fields, ',')
    ensures var h := Join(fields, ','); |h| > 0 && !IsJsSpace(h[0]) && h[|h| - 1] != '\r'
  {
    var h := Join(fields, ',');
    forall j | 0 <= j < |fields| ensures ClosedCell(fields[j]) {
      QuotesOfPlain(fields[j]);
    }
    SplitQuotedJoin(fields);
    forall j | 0 <= j < |fields| ensures StripQuotes(fields[j]) == fields[j] {
      StripQuotesPlain(fields[j]);
    }
    JoinAvoids(fields, ',', '\n');
    JoinStart(fields, ',');
    JoinEnd(fields, ',');
  }

  /** The values of one record as `csvParse` reads them back: escaped, one per field. */
  function EscapedRow(fields: seq<string>, r: Record): seq<string>
  {
    seq(|fields|, j requires 0 <= j < |fields| => Escape(Lookup(r, fields[j])))
  }

  /** A data line reads back as the escaped values, one per field. */
  lemma {:induction false} DataLineReadBack(fields: seq<string>, r: Record)
    requires |fields| > 0
    ensures ParseRow(DataLine(fields, r)) == EscapedRow(fields, r)
  {
    var cells := QuotedCells(fields, r);
    DataLineCells(fields, r);
    var row := ParseRow(DataLine(fields, r));
    assert |row| == |fields|;
    forall j | 0 <= j < |fields| ensures row[j] == EscapedRow(fields, r)[j] {
      StripQuotesWrapped(Escape(Lookup(r, fields[j])));
    }
  }

  /** A data line is one line: it holds no LF and ends with a quote. */
  lemma {:induction false} DataLineShape(fields: seq<string>, r: Record)
    requires |fields| > 0
    requires forall j :: 0 <= j < |fields| ==> '\n' !in Lookup(r, fields[j])
    ensures '\n' !in DataLine(fields, r)
    ensures var d := DataLine(fields, r); |d| > 0 && d[|d| - 1] == '"'
  {
    var cells := QuotedCells(fields, r);
    forall j | 0 <= j < |fields| ensures '\n' !in cells[j] {
      EscapeKeeps(Lookup(r, fields[j]), '\n');
    }
    JoinAvoids(cells, ',', '\n');
    JoinEnd(cells, ',');
  }

  /** Every exported data line is one line ending in a quote. */
  lemma {:induction false} ExportedDataLines(list: seq<Record>)
    requires |list| > 0 && |Fields(list)| > 0
    requires Exportable(list)
    ensures forall i :: 1 <= i < |ExportLines(list)| ==>
              '\n' !in ExportLines(list)[i] && |ExportLines(list)[i]| > 0 &&
              ExportLines(list)[i][|ExportLines(list)[i]| - 1] == '"'
  {
    var fields := Fields(list);
    var lines := ExportLines(list);
    forall i | 1 <= i < |lines|
      ensures '\n' !in lines[i] && |lines[i]| > 0 && lines[i][|lines[i]| - 1] == '"'
    {
      assert lines[i] == DataLine(fields, list[i - 1]);
      forall j | 0 <= j < |fields| ensures '\n' !in Lookup(list[i - 1], fields[j]) {
        LookupNoLineFeed(list, i - 1, fields[j]);
      }
      DataLineShape(fields, list[i - 1]);
    }
  }

  /** Lines that start and end the text without white space and hold no line break come
      back unchanged from trimming and splitting. */
  lemma {:induction false} LinesOfJoin(lines: seq<string>)
    requires |lines| > 0 && |lines[0]| > 0 && !IsJsSpace(lines[0][0])
    requires |lines[|lines| - 1]| > 0 && !IsJsSpace(lines[|lines| - 1][|lines[|lines| - 1]| - 1])
    requires forall i :: 0 <= i < |lines| ==> '\n' !in lines[i]
    requires forall i :: 0 <= i < |lines| - 1 ==> lines[i] == [] || lines[i][|lines[i]| - 1] != '\r'
    ensures Lines(Join(lines, '\n')) == lines
  {
    JoinStart(lines, '\n');
    JoinEnd(lines, '\n');
    TrimOfTrimmed(Join(lines, '\n'));
    SplitLinesJoin(lines);
  }

  /** The reader's trimming and line splitting give back exactly the exported lines. */
  lemma {:induction false} ExportedLines(list: seq<Record>)
    requires |list| > 0 && |Fields(list)| > 0
    requires Exportable(list)
    ensures Lines(ExportCsv(list).value) == ExportLines(list)
  {
    var lines := ExportLines(list);
    FieldsSafe(list);
    HeaderLine(Fields(list));
    ExportedDataLines(list);
    assert lines[0] == Join(Fields(list), ',');
    forall i | 0 <= i < |lines| ensures '\n' !in lines[i] {
    }
    forall i | 0 <= i < |lines| - 1 ensures lines[i] == [] || lines[i][|lines[i]| - 1] != '\r' {
    }
    LinesOfJoin(lines);
  }

  /** Export, then `csvParse`: one record per exported record, keyed by every field name, each
      holding the value with its quotes still doubled (`csvParse` does not undo the doubling)
      or `""` for a field the record lacked. */
  lemma {:induction false} ExportThenParse(list: seq<Record>)
    requires |list| > 0 && |Fields(list)| > 0
    requires Exportable(list)
    ensures ExportCsv(list).Some?
    ensures |CsvParse(ExportCsv(list).value)| == |list|
    ensures forall i, k :: 0 <= i < |list| ==>
              Get(CsvParse(ExportCsv(list).value)[i], k) ==
              if k in Fields(list) then Some(Escape(Lookup(list[i], k))) else None
  {
    var fields := Fields(list);
    var lines := ExportLines(list);
    var text := ExportCsv(list).value;
    ExportedLines(list);
    FieldsSafe(list);
    HeaderLine(fields);
    assert Header(text) == fields;
    FieldsSpec(list);
    forall i, k | 0 <= i < |list|
      ensures Get(CsvParse(text)[i], k) == if k in fields then Some(Escape(Lookup(list[i], k))) else None
    {
      ExportThenParseAt(list, i, k);
    }
  }

  lemma {:induction false} ExportThenParseAt(list: seq<Record>, i: nat, k: string)
    requires |list| > 0 && |Fields(list)| > 0 && i < |list|
    requires Exportable(list)
    requires Lines(ExportCsv(list).value) == ExportLines(list)
    requires Header(ExportCsv(list).value) == Fields(list)
    requires Distinct(Fields(list))
    ensures |CsvParse(ExportCsv(list).value)| == |list|
    ensures Get(CsvParse(ExportCsv(list).value)[i], k) ==
              if k in Fields(list) then Some(Escape(Lookup(list[i], k))) else None
  {
    var fields := Fields(list);
    var text := ExportCsv(list).value;
    var row := ParseRow(ExportLines(list)[i + 1]);
    assert ExportLines(list)[i + 1] == DataLine(fields, list[i]);
    DataLineReadBack(fields, list[i]);
    assert row == EscapedRow(fields, list[i]);
    CsvParseAt(text, i);
    if k in fields {
      var j :| 0 <= j < |fields| && fields[j] == k;
      assert fields[j] !in fields[j + 1..];
      ZipAt(fields, row, j);
    } else {
      ZipAbsent(fields, row, k);
    }
  }

  /** Records that all carry the same keys, none of them empty. */
  ghost predicate SameKeySets(list: seq<Record>) {
    && |list| > 0 && |list[0]| > 0
    && forall i, k :: 0 <= i < |list| ==> (k in KeysOf(list[i]) <==> k in KeysOf(list[0]))
  }

  /** Values free of double quotes. */
  predicate QuoteFree(list: seq<Record>) {
    forall i, e :: 0 <= i < |list| && e in list[i] ==> '"' !in e.1
  }

  lemma {:induction false} ReadBackIsOriginal(list: seq<Record>, i: nat, k: string)
    requires SameKeySets(list) && QuoteFree(list) && i < |list|
    requires forall k :: k in Fields(list) <==> exists i :: 0 <= i < |list| && k in KeysOf(list[i])
    ensures (if k in Fields(list) then Some(Escape(Lookup(list[i], k))) else None) == Get(list[i], k)
  {
    if k in Fields(list) {
      var i0 :| 0 <= i0 < |list| && k in KeysOf(list[i0]);
      assert k in KeysOf(list[0]);
      assert k in KeysOf(list[i]);
      EscapePlain(Lookup(list[i], k));
    }
  }

  /** On the restricted domain — every record has the same non-empty set of safe names and no
      value holds a quote or an LF — export followed by `csvParse` gives back every record
      field for field. */
  lemma {:induction false} ExportThenParseIdentity(list: seq<Record>)
    requires SameKeySets(list) && Exportable(list) && QuoteFree(list)
    ensures ExportCsv(list).Some?
    ensures |CsvParse(ExportCsv(list).value)| == |list|
    ensures forall i :: 0 <= i < |list| ==> SameFields(CsvParse(ExportCsv(list).value)[i], list[i])
  {
    FieldsSpec(list);
    assert KeysOf(list[0])[0] in Fields(list);
    ExportThenParse(list);
    var parsed := CsvParse(ExportCsv(list).value);
    forall i, k | 0 <= i < |list| ensures Get(parsed[i], k) == Get(list[i], k) {
      ReadBackIsOriginal(list, i, k);
    }
  }
}
