# Maintenance Desk Lite: a verified model of the ticket logic in app.js

Maintenance Desk Lite is a single-page tool. Residents file maintenance tickets with it, and
it keeps them in the browser's local storage. Its script, `app.js`, mixes DOM work with a
small core of string, list and map logic. This project models that core in Dafny and proves
what the code promises:

- **Keyed CSV reader `csvParse`.** It splits the text into lines and cuts each line at the
  commas that have an even number of double quotes after them. It strips at most one leading
  and at most one trailing quote from each cell and zips every line after the first with the header row.
- **Positional reader `parseCsv` and `loadCategoryRows`.** They read the category file and
  fall back to the built-in `DEFAULT_CATEGORIES` table.
- **CSV export.** The header is the union of all keys, in first-seen order. Every value is
  quoted with inner quotes doubled, and lines are joined with LF. A round-trip lemma ties the
  export back to `csvParse`.
- **Ticket store.** It is the persisted ticket list, modelled as a class with:
  - submit, which appends one ticket built from the generated fields overlaid by the form's;
  - `closeTicket`;
  - clear-all;
  - the newest-first listing of `render`.
- **Category hierarchy of `initCategories`.**
  - A loop builds the category map: each category gets the scope of its first row and the set
    of its non-empty subcategories.
  - The category menu lists PMO before InBuilding, each group by name. Subcategories are
    listed by name.
- **Default-priority lookup.** For a repeated category code the last row wins. A missing or
  empty priority falls back to `"Normal"`.

Modules:

| module | file | content |
|---|---|---|
| `Wrappers` | `wrappers.dfy` | `Option` |
| `Seqs` | `seqs.dfy` | distinctness, first occurrence, `Dedup` (`Array.from(new Set(s))`), flattening, permutations |
| `Text` | `text.dfy` | `trim`, `split`, `join`, the `\r?\n` line split, quote counting, the string order |
| `Records` | `records.dfy` | a JavaScript object with string values, as an ordered list of distinct keys with their values |
| `CsvDecode` | `csv_decode.dfy` | `csvParse` |
| `CategoryRows` | `category_rows.dfy` | `parseCsv`, `DEFAULT_CATEGORIES`, `loadCategoryRows` |
| `CsvExport` | `csv_export.dfy` | the export handler |
| `RoundTrip` | `roundtrip.dfy` | export followed by `csvParse` |
| `Sorting` | `sorting.dfy` | the stable `Array.prototype.sort` |
| `Tickets` | `tickets.dfy` | new tickets, closing, the listing order, the `TicketStore` class |
| `Categories` | `categories.dfy` | the category map, the two menus, the priority table |
| `CsvExamples` | `examples_csv.dfy` | a worked `csvParse` input with a quoted comma |

### How the model represents the data

- **Records.** A record is a sequence of `(key, value)` pairs with distinct keys. The pairs
  are in the object's property order, which is insertion order for these keys. The export
  header lists keys in first-seen order, so a bare `map` would lose what the export writes.
  Statements about a record's contents go through `Records.Get(r, k)`, which gives `None`
  for an absent key. `Records.SameFields` says two records agree key by key.
- **`trim`.** It removes the full ECMAScript white-space and line-terminator set.
- **`localeCompare`.** It is modelled as code-point lexicographic order (`Text.Less`).
- **The sort.** It is the stable sort ECMAScript requires. It is modelled as an insertion
  sort parametrised by a comparator that must be a strict weak order.

## Model

| member | source | states |
|---|---|---|
| Text.Trim | app.js:22 | the trimmed text neither starts nor ends with white space |
| Text.TrimSpec | app.js:22 | `trim` removes a run of white space at each end and nothing else |
| Text.TrimUnique | app.js:22 | any infix left by removing only white space at the ends, and neither starting nor ending with white space, is what `trim` gives |
| Text.TrimOfTrimmed | app.js:86 | text that neither starts nor ends with white space is left unchanged by `trim` |
| Text.Split | app.js:24 | `split` gives at least one part; no part holds the separator; joining the parts with the separator gives back the input |
| Text.SplitJoin | app.js:24 | splitting a join of separator-free parts gives back the parts |
| Text.SplitCount | app.js:24 | a line is cut into exactly one more cell than it has commas |
| Text.SplitLines | app.js:86 | splitting on `\r?\n` gives at least one line; no line holds an LF; without CR it is the plain split on LF |
| Text.SplitLinesAfterCrLf | app.js:86 | a CR directly before an LF is part of the line break: `l + "\r\n" + t` splits into `l` followed by the lines of `t` |
| Text.SplitLinesJoinCrLf | app.js:86 | lines joined with CR LF split back into the same lines when none holds an LF; a CR inside or at the end of a line is kept |
| Text.SplitLinesJoin | app.js:86 | LF-joined lines split back into the same lines when none holds an LF and none but the last ends in CR |
| Text.Less | app.js:116 | `x.localeCompare(y) < 0` as code-point order; its promises are `LessTransitive`, `LessTotal` and `LessAsymmetric` |
| Text.LessTransitive | app.js:116 | the string order is transitive |
| Text.LessTotal | app.js:116 | two different strings are ordered one way or the other |
| Text.LessAsymmetric | app.js:116 | the string order never holds both ways |
| Seqs.Dedup | app.js:150 | `Array.from(new Set(s))` has no repeats, and an element is in it exactly when it is in `s` |
| Seqs.DedupFirstSeen | app.js:150 | deduplicated elements come in the order of their first occurrence |
| Records.Get | app.js:152 | a property read gives `None` exactly when the key is absent, and otherwise a value stored under it |
| Records.Put | app.js:134 | assigning an existing key keeps the key order; a new key goes last |
| Records.PutGet | app.js:134 | after assigning `k`, `k` reads the new value and every other key reads as before |
| Records.PutAll | app.js:142 | after a series of assignments, a key reads its last assigned value, or its old value if it was never assigned |
| Records.PutAllKeys | app.js:142 | after assignments the keys are the old keys, then the new ones in first-seen order |
| Records.PutAllWellFormed | app.js:134 | assignments keep the keys distinct |
| Records.FromEntries | app.js:90 | `Object.fromEntries`, as assignments into an empty object; its promises are `FromEntriesSpec`'s |
| Records.FromEntriesSpec | app.js:90 | `Object.fromEntries` has distinct keys in first-seen order, and a repeated key holds its last value |
| Records.LastValueAt | app.js:90 | the value a key ends up with is the one of its last entry |
| CsvDecode.SplitQuoted | app.js:87 | the comma rule gives at least one cell, even for an empty line |
| CsvDecode.SplitQuotedJoinsBack | app.js:87 | the rule only cuts: the cells joined with commas give back the line |
| CsvDecode.SplitQuotedCuts | app.js:87 | every comma the rule cuts at has an even number of quotes after it in the line; every comma left inside a cell has an odd number |
| CsvDecode.SplitQuotedJoin | app.js:87 | cells that each hold an even number of quotes, with an odd number after each inner comma, are cut back into the same cells once joined with commas |
| CsvDecode.StripQuotes | app.js:87 | the `replace` of app.js:87 on one cell, removing at most one leading and one trailing quote; its promises are `StripQuotesSpec`'s |
| CsvDecode.StripQuotesSpec | app.js:87 | a cell is an optional quote, the stripped cell, and an optional quote: the leading one exactly when the cell starts with a quote, the trailing one exactly when what remains ends with one |
| CsvDecode.StripQuotesWrapped | app.js:87 | a cell wrapped in quotes loses exactly the outer pair |
| CsvDecode.StripQuotesPlain | app.js:87 | a cell that neither starts nor ends with a quote is unchanged |
| CsvDecode.ZipSpec | app.js:90 | a record has the header's names as keys, in first-seen order; a name reads the cell under its last header occurrence, or `""` past the end of the line; other names are absent |
| CsvDecode.CsvParse | app.js:85-91 | `csvParse`: the lines of the trimmed text, every line after the first zipped under the first; its promises are `CsvParseRecord`'s and `CsvParseNoBody`'s |
| CsvDecode.CsvParseRecord | app.js:85-91 | `csvParse` gives one record per line after the header; each record has exactly the header's keys, with missing cells `""` and extra cells dropped |
| CsvDecode.CsvParseNoBody | app.js:86-90 | empty or header-only text (after trimming) gives no records |
| CsvExamples.QuotedCommaExample | app.js:85-91 | `h1,h2` then `"x,y",z` gives one record, `{h1: "x,y", h2: "z"}` |
| CategoryRows.RowCellsSpec | app.js:24 | a line gives one cell per comma-separated piece, one more than it has commas; each cell is its piece with the white space at both ends removed (`TrimmedFrom`), so it holds no comma |
| CategoryRows.ParseCsv | app.js:21-25 | `parseCsv`: every line of the trimmed text after the header, read as a row; its promises are `ParseCsvSpec`'s and `ParseCsvNoBody`'s |
| CategoryRows.ParseCsvSpec | app.js:21-25 | `parseCsv` gives one row per line after the header; row `i` holds the comma-separated pieces of line `i + 1`, each with the white space at both ends removed |
| CategoryRows.ParseCsvNoBody | app.js:22-24 | empty or header-only text gives no rows |
| CategoryRows.DefaultCategories | app.js:4-19 | the built-in table has 14 rows, each with all five cells and a PMO or InBuilding scope |
| CategoryRows.LoadCategoryRows | app.js:27-40 | the category rows are never empty; they are the parsed rows when the file was read and holds at least one data row, and the built-in table otherwise |
| CategoryRows.HeaderOnlyFallsBack | app.js:35-36 | a readable file with no data rows still gives the built-in table |
| CsvExport.Fields | app.js:150 | `Array.from(new Set(list.flatMap(o => Object.keys(o))))`; its promises are `FieldsSpec`'s |
| CsvExport.FieldsSpec | app.js:150 | the export header names every key of every record exactly once, in first-seen order |
| CsvExport.Escape | app.js:152 | escaping doubles the number of quotes |
| CsvExport.UnescapeEscape | app.js:152 | reading `""` as `"` (section 2, rule 7 of RFC 4180) recovers the value |
| CsvExport.EscapePlain | app.js:152 | a value without quotes is exported as it is |
| CsvExport.EscapeKeeps | app.js:152 | escaping adds and removes no character other than quotes |
| CsvExport.QuoteCellClosed | app.js:153 | a quoted cell is never cut by the reader's comma rule, whatever the value holds |
| CsvExport.DataLine | app.js:151-153 | one data line, every field's value escaped and quoted, joined with commas; its promises are `DataLineCells`' and `RoundTrip.DataLineReadBack`'s |
| CsvExport.DataLineCells | app.js:151-153 | the reader finds exactly one quoted cell per field in a data line; a missing key gives `""` |
| CsvExport.ExportCsv | app.js:148-153 | there is output exactly when the store is not empty |
| RoundTrip.HeaderLine | app.js:151 | a header of safe names reads back as those names |
| RoundTrip.DataLineReadBack | app.js:151-153 | a data line reads back as the escaped values, one per field |
| RoundTrip.ExportedLines | app.js:153 | trimming and splitting the export gives back exactly its header and data lines |
| RoundTrip.ExportThenParse | app.js:85-91 | with safe names and no LF in values, parsing the export gives one record per ticket; each record holds every field with the escaped value, `""` for a missing key |
| RoundTrip.ExportThenParseIdentity | app.js:150-153 | when every record has the same non-empty key set, keys are safe and values hold no quote or LF, parsing the export gives back the original records |
| Sorting.Sort | app.js:116 | the sorted list is a permutation of the input |
| Sorting.SortSorted | app.js:116 | under a strict weak order the sorted list has no element after one it goes before |
| Sorting.SortStable | app.js:116 | the sort is stable: elements the comparator cannot tell apart keep their relative order |
| Tickets.NewTicket | app.js:141-142 | the spread of the generated fields and `Object.fromEntries(fd.entries())`; its promises are `NewTicketSpec`'s |
| Tickets.NewTicketSpec | app.js:141-142 | a new ticket has distinct keys, generated ones first; a form field (its last value if repeated) overrides the generated field of the same name |
| Tickets.GeneratedFields | app.js:142 | the generated fields are `id`, `status: "Open"`, `created_at` and `updated_at` both the submission time |
| Tickets.NewTicketDefaults | app.js:141-142 | without form fields of those names a new ticket is `Open` and created and updated at the submission time |
| Tickets.Closed | app.js:134 | `{...t, status: "Closed", closed_at: now}`; its promises are `ClosedSpec`'s and `ClosedKeys`' |
| Tickets.ClosedSpec | app.js:134 | closing sets `status` to `"Closed"` and `closed_at` to the time, and keeps every other field, `updated_at` included |
| Tickets.ClosedKeys | app.js:134 | closing keeps the key order and adds `status` or `closed_at` at the end only when absent |
| Tickets.CloseAll | app.js:134 | the `map` of `closeTicket` over the list, with the clock read afresh for each record it closes; its promises are `CloseAllSpec`'s and `CloseUnknownId`'s |
| Tickets.CloseAllSpec | app.js:134 | `closeTicket` keeps the list's length and order, closes every record with that id, giving it the `closed_at` read when the `map` reached it, and leaves the others unchanged |
| Tickets.CloseUnknownId | app.js:134 | closing an id no record carries leaves the list identical |
| Tickets.NewerFirst | app.js:116 | the comparator of `render`, with a missing `created_at` read as `""`; its promises are `NewerFirstIsOrder`'s and `NewerFirstPeers`' |
| Tickets.NewerFirstIsOrder | app.js:116 | the listing comparator is a strict weak order |
| Tickets.NewerFirstPeers | app.js:116 | the comparator ties exactly the records with the same `created_at` |
| Tickets.Listing | app.js:116 | the stored list sorted by `NewerFirst`; its promises are `ListingSpec`'s |
| Tickets.ListingSpec | app.js:116 | the listing is a permutation of the stored list, by `created_at` descending; records created at the same time keep stored order; a record without `created_at` comes after every other |
| Tickets.TicketStore.constructor | app.js:111 | the stored list, or the empty list when nothing is stored |
| Tickets.TicketStore.Submit | app.js:141-143 | submitting appends exactly the new ticket at the end and leaves earlier tickets unchanged |
| Tickets.TicketStore.CloseTicket | app.js:133-135 | closing replaces the list with its closed version, one clock reading per record, and keeps every stored ticket's keys distinct |
| Tickets.TicketStore.ClearAll | app.js:159-160 | clearing empties the list |
| Tickets.TicketStore.Rendered | app.js:116 | the listing holds exactly the stored tickets; in a valid store each of them has distinct keys |
| Tickets.TicketStore.Exported | app.js:147-149 | the export exists exactly when the store is not empty |
| Categories.BuildCategoryMap | app.js:50-55 | the `forEach` loop gives each category once, in first-seen order; each gets the scope of its first row and its distinct non-empty subcategories in first-seen order |
| Categories.FirstScopeAt | app.js:53 | a category's scope is the one on the first row naming it |
| Categories.InfoSubcats | app.js:54 | a category's subcategories are distinct, and are exactly the non-empty third cells of its rows |
| Categories.FirstScopeKnown | app.js:53 | when every row's scope is PMO or InBuilding, so is every category's |
| Categories.CategoryBefore | app.js:58-59 | the menu order: scope rank, then name; it is the source comparator on PMO and InBuilding scopes (`SourceBeforeKnown`) |
| Categories.CategoryBeforeIsOrder | app.js:58-59 | the model's menu order (scope rank, then name) is a strict weak order; this is proved of the model's `Rank`, not of the source comparator on other scopes |
| Categories.SourceBefore | app.js:58-59 | the source comparator as written: a non-zero rank difference between two known scopes decides, otherwise (zero, or `NaN` for an unknown scope) the names do |
| Categories.SourceBeforeKnown | app.js:58-59 | when both scopes are PMO or InBuilding the source comparator and the model's order agree |
| Categories.SourceBeforeNotOrder | app.js:58-59 | with a third scope the source comparator is cyclic, so it is not a strict weak order |
| Categories.CategoryItems | app.js:58-59 | the category map's entries sorted by the menu order; its promises are `CategoryItemsSpec`'s |
| Categories.CategoryItemsSpec | app.js:58-59 | the menu lists every category once with its entry; PMO categories come before InBuilding ones, and categories of the same scope come by name |
| Categories.LessIsOrder | app.js:70 | the name order is a strict weak order |
| Categories.SubcategoryOptions | app.js:67-70 | `None` when the value is not a category, otherwise its subcategories sorted by name; its promises are `SubcategoryOptionsSpec`'s |
| Categories.SubcategoryOptionsSpec | app.js:67-70 | the subcategory menu of a known category holds its subcategories, each once, strictly by name |
| Categories.PriorityTable | app.js:104 | `Object.fromEntries` of the rows' code and priority, a later row replacing an earlier one; its promises are `PriorityTableKeys`' and `DefaultPriorityLastWins`' |
| Categories.PriorityTableKeys | app.js:104 | the priority table has a key for exactly the codes of the rows, `"undefined"` for a row without one |
| Categories.DefaultPriority | app.js:106 | the chosen priority is never empty |
| Categories.DefaultPriorityLastWins | app.js:104-106 | for a repeated code the last row's priority is used, `"Normal"` if it is empty or absent; a code no row carries gets `"Normal"` |

## Left out

- DOM work is not modelled: the `innerHTML` templates, event listeners, `alert`/`confirm`, the
  Blob download and `help_popover.js`. The menus are modelled as the sequences they render.
- `fetch`, `async` loading and the choice of data folder from `location.pathname` are I/O.
  `loadCategoryRows` takes the fetched text as `Option<string>`, where `None` stands for a
  failed request, a non-ok answer or an unreadable body.
- `localStorage` and JSON encoding are not modelled. The store is a field holding the list,
  and an absent entry reads as the empty list. Corrupt stored JSON makes `getTickets` throw,
  and that is not modelled.
- The clock (`toISOString`, `toLocaleString`) and `Math.random` in `uid` are parameters: the
  submission time, the closing time of each record and the ticket id. `closeTicket` reads the
  clock once per record it closes, so `CloseAll` takes one reading per position of the list. The id's `R-` format is not modelled.
- `localeCompare` is modelled as code-point order. Locale collation is not modelled.
- JavaScript lists integer-like property names (such as `"1"`) before other names, whatever
  the insertion order. The model keeps insertion order for every name.
- A property read finds only a record's own keys. The model ignores inherited properties such
  as `defaultPriority["toString"]`.
- Categories.BuildCategoryMap: requires every row to have a category cell. A shorter row
  makes `category` `undefined` in the source, which the model does not represent.
- Categories.CategoryItemsSpec: requires every scope to be PMO or InBuilding. For any other
  scope `order[scope]` is not a number, the rank difference is `NaN`, which is falsy, and the
  source comparator falls through to the names. It then compares that category with every
  other by name alone and is cyclic (`SourceBeforeNotOrder`), so the source's menu order
  depends on the engine's sort algorithm.
- Categories.Rank: the source skips the rank comparison for a scope other than PMO and
  InBuilding; the model's order instead ranks it with InBuilding. `CategoryItems` sorts by the
  model's order, which agrees with the source comparator only on known scopes
  (`SourceBeforeKnown`).
- The subcategory menu's `disabled` flag is not modelled.
- Records are ordered key/value lists rather than plain maps, because the export depends on
  key order. Map-level statements are made through `Records.Get`.
- RoundTrip.ExportThenParse: covers a restricted domain. Values must hold no LF (a CR is
  fine), and names must be non-empty and free of commas, quotes, CR and LF and of leading
  white space. Values that hold quotes come back with their quotes doubled, because
  `csvParse` does not undo the escaping.
