/** The CSV export handler (app.js:147-153): a header of every field name followed by one
    fully quoted line per stored ticket. The quoting is that of section 2 (rules 6 and 7) of
    RFC 4180, except that the header is not quoted and lines end in LF, not CRLF. */
module CsvExport {
  import opened Wrappers
  import opened Seqs
  import opened Text
  import opened Records
  import CsvDecode

  /** Every key of every record, record by record (`list.flatMap(o => Object.keys(o))`). */
  function AllKeys(list: seq<Record>): seq<string>
  {
    Flatten(seq(|list|, i requires 0 <= i < |list| => KeysOf(list[i])))
  }

  /** `Array.from(new Set(list.flatMap(o => Object.keys(o))))`. */
  function Fields(list: seq<Record>): seq<string>
  {
    Dedup(AllKeys(list))
  }

  /** The export header names every key of every record exactly once, in first-seen order. */
  lemma FieldsSpec(list: seq<Record>)
    ensures Distinct(Fields(list))
    ensures forall k :: k in Fields(list) <==> exists i :: 0 <= i < |list| && k in KeysOf(list[i])
    ensures forall a, b :: 0 <= a < b < |Fields(list)| ==>
              FirstIndex(AllKeys(list), Fields(list)[a]) < FirstIndex(AllKeys(list), Fields(list)[b])
  {
    var ks := seq(|list|, i requires 0 <= i < |list| => KeysOf(list[i]));
    forall k ensures k in Fields(list) <==> exists i :: 0 <= i < |list| && k in KeysOf(list[i]) {
      FlattenMembership(ks, k);
      if k in AllKeys(list) {
        var f := FirstIndex(AllKeys(list), k);
        assert AllKeys(list)[f] in Fields(list);
      }
      if k in Fields(list) {
        var f :| 0 <= f < |Fields(list)| && Fields(list)[f] == k;
        assert k in AllKeys(list);
      }
      if exists i :: 0 <= i < |list| && k in KeysOf(list[i]) {
        var i :| 0 <= i < |list| && k in KeysOf(list[i]);
        assert k in ks[i];
      }
      if k in AllKeys(list) {
        var i :| 0 <= i < |ks| && k in ks[i];
        assert k in KeysOf(list[i]);
      }
    }
    forall a, b | 0 <= a < b < |Fields(list)|
      ensures FirstIndex(AllKeys(list), Fields(list)[a]) < FirstIndex(AllKeys(list), Fields(list)[b])
    {
      DedupFirstSeen(AllKeys(list), a, b);
    }
  }

  /** `v.replace(/"/g, '""')`: every double quote doubled. */
  function Escape(v: string): (e: string)
    ensures Quotes(e) == 2 * Quotes(v)
  {
    if |v| == 0 then ""
    else
      var head := if v[0] == '"' then "\"\"" else [v[0]];
      QuotesAppend(head, Escape(v[1..]));
      head + Escape(v[1..])
  }

  /** How an RFC 4180 reader turns the inside of a quoted field back into text: `""` is `"`. */
  function Unescape(e: string): string
  {
    if |e| >= 2 && e[0] == '"' && e[1] == '"' then "\"" + Unescape(e[2..])
    else if |e| == 0 then ""
    else [e[0]] + Unescape(e[1..])
  }

  /** Doubling quotes loses nothing: an RFC 4180 reader recovers the value. */
  lemma {:induction false} UnescapeEscape(v: string)
    ensures Unescape(Escape(v)) == v
  {
    if |v| > 0 {
      UnescapeEscape(v[1..]);
      var head := if v[0] == '"' then "\"\"" else [v[0]];
      var e := head + Escape(v[1..]);
      if v[0] == '"' {
        assert e[2..] == Escape(v[1..]);
      } else {
        assert e[1..] == Escape(v[1..]);
      }
      assert [v[0]] + v[1..] == v;
    }
  }

  /** A value without quotes is exported as it is. */
  lemma {:induction false} EscapePlain(v: string)
    requires '"' !in v
    ensures Escape(v) == v
  {
    if |v| > 0 {
      EscapePlain(v[1..]);
      assert [v[0]] + v[1..] == v;
    }
  }

  /** Escaping adds and removes nothing but quotes. */
  lemma {:induction false} EscapeKeeps(v: string, c: char)
    requires c != '"'
    ensures c in Escape(v) <==> c in v
  {
    if |v| > 0 {
      EscapeKeeps(v[1..], c);
      assert v == [v[0]] + v[1..];
    }
  }

  /** After any comma of an escaped value, the rest of it holds an even number of quotes:
      doubled quotes come in pairs that a comma cannot sit between. */
  lemma {:induction false} EscapeAfterComma(v: string, q: nat)
    requires q < |Escape(v)| && Escape(v)[q] == ','
    ensures Quotes(Escape(v)[q + 1..]) % 2 == 0
  {
    var head := if v[0] == '"' then "\"\"" else [v[0]];
    var e := head + Escape(v[1..]);
    if q < |head| {
      assert v[0] == ',' && q == 0;
      assert e[1..] == Escape(v[1..]);
    } else {
      assert e[q..] == Escape(v[1..])[q - |head|..];
      assert e[q + 1..] == Escape(v[1..])[q - |head| + 1..];
      EscapeAfterComma(v[1..], q - |head|);
    }
  }

  /** `"${v}"` after escaping. */
  function QuoteCell(v: string): string
  {
    "\"" + Escape(v) + "\""
  }

  /** A quoted cell is kept whole by the decoder's comma rule, whatever the value holds. */
  lemma QuoteCellClosed(v: string)
    ensures CsvDecode.ClosedCell(QuoteCell(v))
  {
    var e := Escape(v);
    var c := QuoteCell(v);
    QuotesAppend("\"" + e, "\"");
    QuotesAppend("\"", e);
    forall p | 0 <= p < |c| && c[p] == ','
      ensures !CsvDecode.EvenQuotes(c[p + 1..])
    {
      assert 1 <= p <= |e|;
      assert e[p - 1] == ',';
      EscapeAfterComma(v, p - 1);
      assert c[p + 1..] == e[p..] + "\"";
      QuotesAppend(e[p..], "\"");
    }
  }

  /** The quoted cells of one record, one per field, `""` for a field it lacks. */
  function QuotedCells(fields: seq<string>, r: Record): seq<string>
  {
    seq(|fields|, j requires 0 <= j < |fields| => QuoteCell(Lookup(r, fields[j])))
  }

  /** One data line: `fields.map(k => ...).join(",")`. */
  function DataLine(fields: seq<string>, r: Record): string
  {
    Join(QuotedCells(fields, r), ',')
  }

  /** The header line (names joined with commas, unquoted) and one data line per record. */
  function ExportLines(list: seq<Record>): seq<string>
  {
    [Join(Fields(list), ',')] + seq(|list|, i requires 0 <= i < |list| => DataLine(Fields(list), list[i]))
  }

  /** The export text: its lines joined with LF; `None` when there is nothing to export (the
      handler alerts and returns). */
  function ExportCsv(list: seq<Record>): (out: Option<string>)
    ensures out.None? <==> |list| == 0
  {
    if |list| == 0 then None else Some(Join(ExportLines(list), '\n'))
  }

  /** The decoder's comma rule finds exactly one cell per field in every data line, each the
      quoted, escaped value, even when values hold commas or quotes. */
  lemma DataLineCells(fields: seq<string>, r: Record)
    requires |fields| > 0
    ensures CsvDecode.SplitQuoted(DataLine(fields, r)) == QuotedCells(fields, r)
  {
    var cells := QuotedCells(fields, r);
    forall j | 0 <= j < |cells| ensures CsvDecode.ClosedCell(cells[j]) {
      QuoteCellClosed(Lookup(r, fields[j]));
    }
    CsvDecode.SplitQuotedJoin(cells);
  }
}
