/** The category hierarchy of `initCategories` (app.js:48-70) and the default-priority lookup of
    `loadData` (app.js:104-106). */
module Categories {
  import opened Wrappers
  import opened Seqs
  import opened Text
  import opened Records
  import opened Sorting

  /** The value `catMap` keeps per category: the scope of its first row and its subcategories,
      in the insertion order of the JavaScript `Set` that holds them. */
  datatype CategoryInfo = CategoryInfo(scope: string, subcats: seq<string>)

  /** Rows destructure as `[scope, category, subcat]`, so each needs a category cell. */
  predicate Usable(rows: seq<seq<string>>) {
    forall i :: 0 <= i < |rows| ==> |rows[i]| >= 2
  }

  /** A missing third cell is `undefined`, which is skipped like an empty one. */
  function Subcategory(row: seq<string>): string {
    if |row| > 2 then row[2] else ""
  }

  function CategoriesOf(rows: seq<seq<string>>): seq<string>
    requires Usable(rows)
  {
    seq(|rows|, i requires 0 <= i < |rows| => rows[i][1])
  }

  /** The scope of the first row naming `k` (`""` when none does). */
  function FirstScope(rows: seq<seq<string>>, k: string): string
    requires Usable(rows)
  {
    if |rows| == 0 then ""
    else if rows[0][1] == k then rows[0][0]
    else FirstScope(rows[1..], k)
  }

  /** The non-empty subcategories of the rows naming `k`, in row order, repeats included. */
  function SubcatsSeen(rows: seq<seq<string>>, k: string): seq<string>
    requires Usable(rows)
  {
    if |rows| == 0 then []
    else
      var last := rows[|rows| - 1];
      SubcatsSeen(rows[..|rows| - 1], k)
        + (if last[1] == k && Subcategory(last) != "" then [Subcategory(last)] else [])
  }

  /** What `catMap.get(k)` holds once every row has been seen. */
  function Info(rows: seq<seq<string>>, k: string): CategoryInfo
    requires Usable(rows)
  {
    CategoryInfo(FirstScope(rows, k), Dedup(SubcatsSeen(rows, k)))
  }

  /** The scope recorded for a category is the one on its first row. */
  lemma {:induction false} FirstScopeAt(rows: seq<seq<string>>, k: string, i: nat)
    requires Usable(rows) && i < |rows| && rows[i][1] == k
    requires forall j :: 0 <= j < i ==> rows[j][1] != k
    ensures FirstScope(rows, k) == rows[i][0]
  {
    if i > 0 {
      FirstScopeAt(rows[1..], k, i - 1);
    }
  }

  /** A category's subcategories are exactly the non-empty third cells of its rows, each once. */
  lemma {:induction false} SubcatsSeenSpec(rows: seq<seq<string>>, k: string, s: string)
    requires Usable(rows)
    ensures s in SubcatsSeen(rows, k) <==>
              s != "" && exists i :: 0 <= i < |rows| && rows[i][1] == k && Subcategory(rows[i]) == s
  {
    if |rows| > 0 {
      var init := rows[..|rows| - 1];
      SubcatsSeenSpec(init, k, s);
      if i :| 0 <= i < |rows| && rows[i][1] == k && Subcategory(rows[i]) == s {
        if i < |init| {
          assert init[i] == rows[i];
        }
      }
      if i :| 0 <= i < |init| && init[i][1] == k && Subcategory(init[i]) == s {
        assert rows[i] == init[i];
      }
    }
  }

  lemma InfoSubcats(rows: seq<seq<string>>, k: string, s: string)
    requires Usable(rows)
    ensures Distinct(Info(rows, k).subcats)
    ensures s in Info(rows, k).subcats <==>
              s != "" && exists i :: 0 <= i < |rows| && rows[i][1] == k && Subcategory(rows[i]) == s
  {
    SubcatsSeenSpec(rows, k, s);
  }

  lemma {:induction false} FirstScopeSnoc(rows: seq<seq<string>>, row: seq<string>, k: string)
    requires Usable(rows) && |row| >= 2
    ensures Usable(rows + [row])
    ensures FirstScope(rows + [row], k) ==
              if k == row[1] && k !in CategoriesOf(rows) then row[0] else FirstScope(rows, k)
  {
    if |rows| > 0 {
      assert (rows + [row])[1..] == rows[1..] + [row];
      assert CategoriesOf(rows) == [rows[0][1]] + CategoriesOf(rows[1..]);
      FirstScopeSnoc(rows[1..], row, k);
    }
  }

  lemma {:induction false} SubcatsSeenOfNew(rows: seq<seq<string>>, k: string)
    requires Usable(rows) && k !in CategoriesOf(rows)
    ensures SubcatsSeen(rows, k) == []
  {
    if |rows| > 0 {
      var init := rows[..|rows| - 1];
      assert CategoriesOf(rows) == CategoriesOf(init) + [rows[|rows| - 1][1]];
      SubcatsSeenOfNew(init, k);
    }
  }

  /** Seeing one more row: a new category starts with that row's scope and no subcategories,
      and a non-empty subcategory not yet recorded is added at the end. */
  lemma {:induction false} InfoSnoc(seen: seq<seq<string>>, row: seq<string>, k: string)
    requires Usable(seen) && |row| >= 2
    ensures Usable(seen + [row])
    ensures CategoriesOf(seen + [row]) == CategoriesOf(seen) + [row[1]]
    ensures Info(seen + [row], k) ==
              if k != row[1] then Info(seen, k)
              else
                var base := if k in CategoriesOf(seen) then Info(seen, k) else CategoryInfo(row[0], []);
                var sub := Subcategory(row);
                if sub != "" && sub !in base.subcats then base.(subcats := base.subcats + [sub])
                else base
  {
    var rows := seen + [row];
    assert rows[..|seen|] == seen;
    assert CategoriesOf(rows) == CategoriesOf(seen) + [row[1]];
    FirstScopeSnoc(seen, row, k);
    var ss := SubcatsSeen(seen, k);
    if k == row[1] {
      if k !in CategoriesOf(seen) {
        SubcatsSeenOfNew(seen, k);
      }
      var sub := Subcategory(row);
      if sub != "" {
        assert SubcatsSeen(rows, k) == ss + [sub];
        DedupSnoc(ss, sub);
      } else {
        assert SubcatsSeen(rows, k) == ss;
      }
    } else {
      assert SubcatsSeen(rows, k) == ss;
    }
  }

  /** What `catMap` and its key order hold after the rows seen so far. */
  ghost predicate Built(seen: seq<seq<string>>, catMap: map<string, CategoryInfo>, order: seq<string>)
  {
    && Usable(seen)
    && order == Dedup(CategoriesOf(seen))
    && (forall k :: k in catMap <==> k in order)
    && (forall k :: k in catMap ==> catMap[k] == Info(seen, k))
  }

  /** One row's update keeps `Built`: the category's entry is created on first sight with the
      row's scope, and a new non-empty subcategory is added to its `Set`. */
  lemma BuiltStep(seen: seq<seq<string>>, row: seq<string>,
                  catMap: map<string, CategoryInfo>, order: seq<string>,
                  info: CategoryInfo, order': seq<string>)
    requires Built(seen, catMap, order) && |row| >= 2
    requires order' == if row[1] in catMap then order else order + [row[1]]
    requires var base := if row[1] in catMap then catMap[row[1]] else CategoryInfo(row[0], []);
             info == if Subcategory(row) != "" && Subcategory(row) !in base.subcats
                     then base.(subcats := base.subcats + [Subcategory(row)]) else base
    ensures Built(seen + [row], catMap[row[1] := info], order')
  {
    var catMap' := catMap[row[1] := info];
    StepEntry(seen, row, catMap, order, info);
    assert order' == if row[1] in order then order else order + [row[1]];
    BuiltStepOrder(seen, row, order, order');
    BuiltStepInfo(seen, row, catMap, catMap');
  }

  lemma StepEntry(seen: seq<seq<string>>, row: seq<string>,
                  catMap: map<string, CategoryInfo>, order: seq<string>, info: CategoryInfo)
    requires Built(seen, catMap, order) && |row| >= 2
    requires var base := if row[1] in catMap then catMap[row[1]] else CategoryInfo(row[0], []);
             info == if Subcategory(row) != "" && Subcategory(row) !in base.subcats
                     then base.(subcats := base.subcats + [Subcategory(row)]) else base
    ensures Usable(seen + [row]) && info == Info(seen + [row], row[1])
  {
    InfoSnoc(seen, row, row[1]);
  }

  lemma BuiltStepOrder(seen: seq<seq<string>>, row: seq<string>, order: seq<string>, order': seq<string>)
    requires Usable(seen) && |row| >= 2 && order == Dedup(CategoriesOf(seen))
    requires order' == if row[1] in order then order else order + [row[1]]
    ensures Usable(seen + [row]) && order' == Dedup(CategoriesOf(seen + [row]))
  {
    var cats := CategoriesOf(seen + [row]);
    assert cats == CategoriesOf(seen) + [row[1]];
    DedupSnoc(CategoriesOf(seen), row[1]);
  }

  lemma BuiltStepInfo(seen: seq<seq<string>>, row: seq<string>,
                      catMap: map<string, CategoryInfo>, catMap': map<string, CategoryInfo>)
    requires Usable(seen) && |row| >= 2
    requires forall k :: k in catMap ==> catMap[k] == Info(seen, k)
    requires catMap' == catMap[row[1] := Info(seen + [row], row[1])]
    ensures Usable(seen + [row])
    ensures forall k :: k in catMap' ==> catMap'[k] == Info(seen + [row], k)
  {
    forall k | k in catMap' ensures catMap'[k] == Info(seen + [row], k) {
      InfoSnoc(seen, row, k);
    }
  }

  /** The `forEach` over the rows (app.js:52-55): `order` is the key order of `catMap`. */
  method BuildCategoryMap(rows: seq<seq<string>>)
    returns (catMap: map<string, CategoryInfo>, order: seq<string>)
    requires Usable(rows)
    ensures order == Dedup(CategoriesOf(rows))
    ensures forall k :: k in catMap <==> k in order
    ensures forall k :: k in catMap ==> catMap[k] == Info(rows, k)
  {
    catMap, order := map[], [];
    ghost var seen: seq<seq<string>> := [];
    var i := 0;
    while i < |rows|
      invariant i <= |rows| && seen == rows[..i] && Built(seen, catMap, order)
    {
      var scope, category, subcat := rows[i][0], rows[i][1], Subcategory(rows[i]);
      // `catMap.get(category)`, created on first sight, then its `Set` of subcategories
      var info := if category in catMap then catMap[category] else CategoryInfo(scope, []);
      if subcat != "" && subcat !in info.subcats {
        info := info.(subcats := info.subcats + [subcat]);
      }
      BuiltStep(seen, rows[i], catMap, order, info,
                if category in catMap then order else order + [category]);
      if category !in catMap {
        order := order + [category];
      }
      catMap := catMap[category := info];
      PrefixSnoc(rows, i);
      seen := seen + [rows[i]];
      i := i + 1;
    }
    assert rows[..i] == rows;
  }

  /** `order` from app.js:49. The source has no rank for any other scope; the model's order
      gives it the rank of `InBuilding` (see `SourceBefore` for what the source does). */
  function Rank(scope: string): nat {
    if scope == "PMO" then 0 else 1
  }

  predicate KnownScope(scope: string) {
    scope == "PMO" || scope == "InBuilding"
  }

  /** The comparator of app.js:58-59 on `[category, info]` entries. */
  predicate CategoryBefore(a: (string, CategoryInfo), b: (string, CategoryInfo)) {
    Rank(a.1.scope) < Rank(b.1.scope) || (Rank(a.1.scope) == Rank(b.1.scope) && Less(a.0, b.0))
  }

  lemma CategoryBeforeIsOrder()
    ensures StrictWeakOrder(CategoryBefore)
  {
    forall a, b | CategoryBefore(a, b) ensures !CategoryBefore(b, a) {
      if Rank(a.1.scope) == Rank(b.1.scope) {
        LessAsymmetric(a.0, b.0);
      }
    }
    forall a, b, c | CategoryBefore(a, c) ensures CategoryBefore(a, b) || CategoryBefore(b, c) {
      if Rank(a.1.scope) == Rank(c.1.scope) == Rank(b.1.scope) && a.0 != b.0 {
        LessTotal(a.0, b.0);
        if Less(b.0, a.0) {
          LessTransitive(b.0, a.0, c.0);
        }
      }
    }
  }

  /** The comparator of app.js:58-59 as written. `order[scope]` is not a number for a scope
      other than PMO and InBuilding, so the rank difference is `NaN`, which is falsy, and
      `||` falls through to the names; a zero difference falls through as well. */
  predicate SourceBefore(a: (string, CategoryInfo), b: (string, CategoryInfo)) {
    if KnownScope(a.1.scope) && KnownScope(b.1.scope) && Rank(a.1.scope) != Rank(b.1.scope)
    then Rank(a.1.scope) < Rank(b.1.scope)
    else Less(a.0, b.0)
  }

  /** On PMO and InBuilding scopes the source comparator is the model's order. */
  lemma SourceBeforeKnown(a: (string, CategoryInfo), b: (string, CategoryInfo))
    requires KnownScope(a.1.scope) && KnownScope(b.1.scope)
    ensures SourceBefore(a, b) <==> CategoryBefore(a, b)
  {
  }

  /** With a third scope the source comparator is cyclic: PMO `E` goes before InBuilding `C`
      by rank, `C` before `D` of scope `Other` by name, and `D` before `E` by name. So it is
      no order, and the menu order then depends on the engine's sort algorithm. */
  lemma SourceBeforeNotOrder()
    ensures !StrictWeakOrder(SourceBefore)
  {
    var e := ("E", CategoryInfo("PMO", []));
    var c := ("C", CategoryInfo("InBuilding", []));
    var d := ("D", CategoryInfo("Other", []));
    assert SourceBefore(e, c);
    assert SourceBefore(c, d);
    assert SourceBefore(d, e);
    assert !SourceBefore(e, d) && !SourceBefore(d, c);
  }

  function Entries(catMap: map<string, CategoryInfo>, order: seq<string>)
    : seq<(string, CategoryInfo)>
    requires forall i :: 0 <= i < |order| ==> order[i] in catMap
  {
    seq(|order|, i requires 0 <= i < |order| => (order[i], catMap[order[i]]))
  }

  /** When every row has a known scope, so does every category. */
  lemma {:induction false} FirstScopeKnown(rows: seq<seq<string>>, k: string)
    requires Usable(rows) && k in CategoriesOf(rows)
    requires forall i :: 0 <= i < |rows| ==> KnownScope(rows[i][0])
    ensures KnownScope(FirstScope(rows, k))
  {
    if rows[0][1] != k {
      assert CategoriesOf(rows) == [rows[0][1]] + CategoriesOf(rows[1..]);
      FirstScopeKnown(rows[1..], k);
    }
  }

  /** `[...catMap.entries()]` sorted for the category menu. */
  function CategoryItems(catMap: map<string, CategoryInfo>, order: seq<string>)
    : seq<(string, CategoryInfo)>
    requires forall i :: 0 <= i < |order| ==> order[i] in catMap
  {
    Sort(CategoryBefore, Entries(catMap, order))
  }

  lemma ItemsArePermutation(catMap: map<string, CategoryInfo>, order: seq<string>)
    requires Distinct(order) && forall k :: k in catMap <==> k in order
    ensures var items := CategoryItems(catMap, order);
            && |items| == |order| && Distinct(items)
            && (forall i :: 0 <= i < |items| ==> items[i] in Entries(catMap, order))
            && (forall i :: 0 <= i < |order| ==> Entries(catMap, order)[i] in items)
  {
    var entries := Entries(catMap, order);
    var items := CategoryItems(catMap, order);
    assert items == Sort(CategoryBefore, entries);
    assert |items| == |order| by {
      assert |multiset(items)| == |multiset(entries)|;
    }
    forall i | 0 <= i < |items| ensures items[i] in entries {
      assert items[i] in multiset(entries);
    }
    forall i | 0 <= i < |entries| ensures entries[i] in items {
      assert entries[i] in multiset(items);
    }
    assert Distinct(entries);
    DistinctPermutation(entries, items);
  }

  /** The menu lists every category once with its info: PMO ones first, then InBuilding, each
      group by name. */
  lemma CategoryItemsSpec(catMap: map<string, CategoryInfo>, order: seq<string>)
    requires Distinct(order) && forall k :: k in catMap <==> k in order
    requires forall k :: k in catMap ==> KnownScope(catMap[k].scope)
    ensures |CategoryItems(catMap, order)| == |order|
    ensures forall k :: k in catMap <==>
              exists i :: 0 <= i < |order| && CategoryItems(catMap, order)[i].0 == k
    ensures forall i :: 0 <= i < |order| ==>
              var e := CategoryItems(catMap, order)[i];
              e.0 in catMap && e.1 == catMap[e.0]
    ensures forall i, j :: 0 <= i < j < |order| ==>
              var a, b := CategoryItems(catMap, order)[i], CategoryItems(catMap, order)[j];
              (a.1.scope == "PMO" && b.1.scope == "InBuilding")
              || (a.1.scope == b.1.scope && Less(a.0, b.0))
  {
    var entries := Entries(catMap, order);
    var items := CategoryItems(catMap, order);
    ItemsArePermutation(catMap, order);
    forall k | k in catMap ensures exists i :: 0 <= i < |order| && items[i].0 == k {
      var p := FirstIndex(order, k);
      assert entries[p] in items;
    }
    forall i | 0 <= i < |order| ensures items[i].0 in catMap && items[i].1 == catMap[items[i].0] {
      assert items[i] in entries;
    }
    CategoryBeforeIsOrder();
    SortSorted(CategoryBefore, entries);
    forall i, j | 0 <= i < j < |items|
      ensures (items[i].1.scope == "PMO" && items[j].1.scope == "InBuilding")
              || (items[i].1.scope == items[j].1.scope && Less(items[i].0, items[j].0))
    {
      OrderedPair(catMap, items[i], items[j]);
    }
  }

  lemma OrderedPair(catMap: map<string, CategoryInfo>, a: (string, CategoryInfo), b: (string, CategoryInfo))
    requires a.0 in catMap && a.1 == catMap[a.0] && b.0 in catMap && b.1 == catMap[b.0]
    requires KnownScope(a.1.scope) && KnownScope(b.1.scope)
    requires a != b && !CategoryBefore(b, a)
    ensures (a.1.scope == "PMO" && b.1.scope == "InBuilding") || (a.1.scope == b.1.scope && Less(a.0, b.0))
  {
    LessTotal(a.0, b.0);
  }

  lemma LessIsOrder()
    ensures StrictWeakOrder(Less)
  {
    forall a, b | Less(a, b) ensures !Less(b, a) {
      LessAsymmetric(a, b);
    }
    forall a, b, c | Less(a, c) ensures Less(a, b) || Less(b, c) {
      if a != b && !Less(a, b) {
        LessTotal(a, b);
        LessTransitive(b, a, c);
      }
    }
  }

  /** The subcategory menu after a change of category (app.js:67-70): `None` when the chosen
      value is not a category, and the handler returns early. */
  function SubcategoryOptions(catMap: map<string, CategoryInfo>, value: string): Option<seq<string>>
  {
    if value in catMap then Some(Sort(Less, catMap[value].subcats)) else None
  }

  /** The subcategories offered are those recorded for the category, each once, by name. */
  lemma SubcategoryOptionsSpec(catMap: map<string, CategoryInfo>, value: string)
    requires value in catMap && Distinct(catMap[value].subcats)
    ensures SubcategoryOptions(catMap, value).Some?
    ensures var subs := SubcategoryOptions(catMap, value).value;
            && multiset(subs) == multiset(catMap[value].subcats)
            && forall i, j :: 0 <= i < j < |subs| ==> Less(subs[i], subs[j])
  {
    var subs := SubcategoryOptions(catMap, value).value;
    LessIsOrder();
    SortSorted(Less, catMap[value].subcats);
    DistinctPermutation(catMap[value].subcats, subs);
    forall i, j | 0 <= i < j < |subs| ensures Less(subs[i], subs[j]) {
      LessTotal(subs[i], subs[j]);
    }
  }

  /** `c.category_code` used as a property key: an absent code becomes `"undefined"`. */
  function CodeOf(c: Record): string {
    Get(c, "category_code").GetOr("undefined")
  }

  /** `Object.fromEntries(cats.map(c => [c.category_code, c.default_priority]))`: a later entry
      for the same code replaces an earlier one; an absent priority is `undefined` (`None`). */
  function PriorityTable(cats: seq<Record>): map<string, Option<string>>
  {
    if |cats| == 0 then map[]
    else
      var last := cats[|cats| - 1];
      PriorityTable(cats[..|cats| - 1])[CodeOf(last) := Get(last, "default_priority")]
  }

  /** `defaultPriority[value] || "Normal"`: a missing, absent or empty priority gives `"Normal"`. */
  function DefaultPriority(table: map<string, Option<string>>, value: string): (p: string)
    ensures p != ""
  {
    OrNormal(if value in table then table[value] else None)
  }

  /** `p || "Normal"`: `undefined` and `""` are falsy. */
  function OrNormal(p: Option<string>): (q: string)
    ensures q != ""
    ensures q == "Normal" <==> p.None? || p.value == "" || p.value == "Normal"
  {
    if p.Some? && p.value != "" then p.value else "Normal"
  }

  lemma {:induction false} PriorityTableKeys(cats: seq<Record>, code: string)
    ensures code in PriorityTable(cats) <==> exists i :: 0 <= i < |cats| && CodeOf(cats[i]) == code
  {
    if |cats| > 0 {
      var init := cats[..|cats| - 1];
      PriorityTableKeys(init, code);
      if i :| 0 <= i < |cats| && CodeOf(cats[i]) == code {
        if i < |init| {
          assert CodeOf(init[i]) == code;
        }
      }
      if i :| 0 <= i < |init| && CodeOf(init[i]) == code {
        assert cats[i] == init[i];
      }
    }
  }

  lemma {:induction false} PriorityTableAt(cats: seq<Record>, i: nat)
    requires i < |cats| && forall j :: i < j < |cats| ==> CodeOf(cats[j]) != CodeOf(cats[i])
    ensures CodeOf(cats[i]) in PriorityTable(cats)
    ensures PriorityTable(cats)[CodeOf(cats[i])] == Get(cats[i], "default_priority")
  {
    if i < |cats| - 1 {
      PriorityTableAt(cats[..|cats| - 1], i);
    }
  }

  /** For a repeated code the last row's priority is used; a code no row carries gets
      `"Normal"`. */
  lemma DefaultPriorityLastWins(cats: seq<Record>, value: string)
    ensures (forall i :: 0 <= i < |cats| ==> CodeOf(cats[i]) != value) ==>
              DefaultPriority(PriorityTable(cats), value) == "Normal"
    ensures forall i :: 0 <= i < |cats| && CodeOf(cats[i]) == value
                        && (forall j :: i < j < |cats| ==> CodeOf(cats[j]) != value) ==>
              DefaultPriority(PriorityTable(cats), value) == OrNormal(Get(cats[i], "default_priority"))
  {
    PriorityTableKeys(cats, value);
    forall i | 0 <= i < |cats| && CodeOf(cats[i]) == value
               && (forall j :: i < j < |cats| ==> CodeOf(cats[j]) != value)
      ensures DefaultPriority(PriorityTable(cats), value) == OrNormal(Get(cats[i], "default_priority"))
    {
      PriorityTableAt(cats, i);
    }
  }
}
