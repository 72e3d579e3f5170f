/** `parseCsv` and `loadCategoryRows` (app.js:4-40): the positional reader for the category
    file and the built-in table used when it cannot be read or holds no rows. */
module CategoryRows {
  import opened Wrappers
  import opened Text

  /** `txt.trim().split(/\r?\n/)`, header dropped, each line cut at every comma and each cell
      trimmed. */
  function ParseCsv(txt: string): seq<seq<string>>
  {
    ParseLines(SplitLines(Trim(txt)))
  }

  /** Every line but the first, each read as a row. */
  function ParseLines(lines: seq<string>): (rows: seq<seq<string>>)
    requires |lines| > 0
    ensures |rows| == |lines| - 1
    ensures forall i :: 0 <= i < |rows| ==> rows[i] == RowCells(lines[i + 1])
  {
    seq(|lines| - 1, i requires 0 <= i < |lines| - 1 => RowCells(lines[i + 1]))
  }

  /** `line.split(",").map(s => s.trim())`. */
  function RowCells(line: string): seq<string>
  {
    var cells := Split(line, ',');
    seq(|cells|, j requires 0 <= j < |cells| => Trim(cells[j]))
  }

  /** A row has a cell per comma-separated piece of its line: the piece with the white space
      at both ends removed, so no cell holds a comma or starts or ends with white space. */
  lemma {:induction false} RowCellsSpec(line: string)
    ensures |RowCells(line)| == |Split(line, ',')| == Count(line, ',') + 1
    ensures forall j :: 0 <= j < |RowCells(line)| ==> TrimmedFrom(RowCells(line)[j], Split(line, ',')[j])
    ensures forall j :: 0 <= j < |RowCells(line)| ==> ',' !in RowCells(line)[j]
  {
    SplitCount(line, ',');
    forall j | 0 <= j < |Split(line, ',')|
      ensures TrimmedFrom(Trim(Split(line, ',')[j]), Split(line, ',')[j])
      ensures ',' !in Trim(Split(line, ',')[j])
    {
      TrimSpec(Split(line, ',')[j]);
      TrimKeeps(Split(line, ',')[j], ',');
    }
  }

  /** `parseCsv` gives a row per line after the header; row `i` holds the comma-separated
      pieces of line `i + 1`, each with the white space at both ends removed. */
  lemma ParseCsvSpec(txt: string, i: nat)
    requires i < |SplitLines(Trim(txt))| - 1
    ensures |ParseCsv(txt)| == |SplitLines(Trim(txt))| - 1
    ensures var pieces := Split(SplitLines(Trim(txt))[i + 1], ',');
            && |ParseCsv(txt)[i]| == |pieces|
            && forall j :: 0 <= j < |pieces| ==> TrimmedFrom(ParseCsv(txt)[i][j], pieces[j])
  {
    RowCellsSpec(SplitLines(Trim(txt))[i + 1]);
  }

  /** Empty or header-only text gives no rows. */
  lemma {:induction false} ParseCsvNoBody(txt: string)
    requires '\n' !in Trim(txt)
    ensures ParseCsv(txt) == []
  {
    SplitLinesOfLine(Trim(txt));
  }

  /** `DEFAULT_CATEGORIES`: scope, category, subcategory, assignee, SLA hours. Every row has
      all five cells and a PMO or InBuilding scope. */
  function DefaultCategories(): (rows: seq<seq<string>>)
    ensures |rows| == 14
    ensures forall i :: 0 <= i < |rows| ==>
              |rows[i]| == 5 && (rows[i][0] == "PMO" || rows[i][0] == "InBuilding")
  {
    [
      ["PMO", "Elevator", "Stuck - car not moving", "Elevator Team", "1"],
      ["PMO", "Security", "Unauthorized access", "Security Desk", "4"],
      ["PMO", "Structural", "Cracks or holes", "Engineering", "24"],
      ["PMO", "Amenities", "Clubhouse request", "Admin", "24"],
      ["PMO", "Billing", "SOA concern", "Finance", "48"],
      ["PMO", "Staff", "House rules compliance", "Admin", "24"],
      ["PMO", "Community", "Noise or smoking", "Security Desk", "8"],
      ["PMO", "Admin", "Document request", "Admin", "48"],
      ["InBuilding", "Plumbing", "Leak under sink", "Building Plumber", "24"],
      ["InBuilding", "Electrical", "No power in room", "Building Electrician", "24"],
      ["InBuilding", "ACU", "Water drip", "HVAC Tech", "24"],
      ["InBuilding", "Housekeeping", "Spill cleanup", "Janitorial", "8"],
      ["InBuilding", "Parking", "Blocked slot", "Parking Marshal", "4"],
      ["InBuilding", "Pets", "Leash/collar complaint", "Security Desk", "8"]
    ]
  }

  /** `loadCategoryRows()`: `fetched` is the file's text, or `None` when the request failed,
      answered not-ok or its body could not be read. The result is never empty: the parsed
      rows when there are any, the built-in table otherwise. */
  function LoadCategoryRows(fetched: Option<string>): (rows: seq<seq<string>>)
    ensures |rows| > 0
    ensures fetched.Some? && |ParseCsv(fetched.value)| > 0 ==> rows == ParseCsv(fetched.value)
    ensures fetched.None? || |ParseCsv(fetched.value)| == 0 ==> rows == DefaultCategories()
  {
    match fetched
    case None => DefaultCategories()
    case Some(txt) =>
      var rows := ParseCsv(txt);
      if |rows| > 0 then rows else DefaultCategories()
  }

  /** A readable file with no data rows still falls back to the built-in table. */
  lemma HeaderOnlyFallsBack(txt: string)
    requires '\n' !in Trim(txt)
    ensures LoadCategoryRows(Some(txt)) == DefaultCategories()
  {
    ParseCsvNoBody(txt);
  }
}
