/** A ticket or CSV row is a JavaScript plain object whose values are strings. Its own
    properties keep insertion order (which `Object.keys` and the export header depend on), so a
    record is a sequence of (key, value) entries with distinct keys rather than a bare map. */
module Records {
  import opened Wrappers
  import opened Seqs

  type Entry = (string, string)
  type Record = seq<Entry>

  /** `Object.keys(r)`, also the keys of an entry list in order. */
  function KeysOf(r: seq<Entry>): seq<string>
  {
    seq(|r|, i requires 0 <= i < |r| => r[i].0)
  }

  /** The keys of a list with one more entry. */
  lemma KeysSnoc(es: seq<Entry>)
    requires |es| > 0
    ensures KeysOf(es) == KeysOf(es[..|es| - 1]) + [es[|es| - 1].0]
  {
  }

  /** Every object the program builds has each key once. */
  predicate WellFormed(r: Record) {
    Distinct(KeysOf(r))
  }

  /** `r[k]`: the value of property `k`, or `None` for `undefined`. */
  function Get(r: Record, k: string): (v: Option<string>)
    ensures v.None? <==> k !in KeysOf(r)
    ensures v.Some? ==> (k, v.value) in r
  {
    if |r| == 0 then None
    else
      assert KeysOf(r) == [r[0].0] + KeysOf(r[1..]);
      if r[0].0 == k then Some(r[0].1) else Get(r[1..], k)
  }

  /** `r[k] ?? ""`. */
  function Lookup(r: Record, k: string): string
  {
    Get(r, k).GetOr("")
  }

  /** In a well-formed record each entry is what `Get` finds for its key. */
  lemma {:induction false} GetEntry(r: Record, i: nat)
    requires WellFormed(r) && i < |r|
    ensures Get(r, r[i].0) == Some(r[i].1)
  {
    if i > 0 {
      assert r[0].0 == KeysOf(r)[0] != KeysOf(r)[i] == r[i].0;
      assert KeysOf(r[1..]) == KeysOf(r)[1..];
      GetEntry(r[1..], i - 1);
    }
  }

  /** Looking up a key in a record with one more entry in front. */
  lemma GetCons(e: Entry, t: Record)
    ensures KeysOf([e] + t) == [e.0] + KeysOf(t)
    ensures forall j :: Get([e] + t, j) == if e.0 == j then Some(e.1) else Get(t, j)
  {
    assert ([e] + t)[1..] == t;
  }

  /** The property assignment `r[k] = v`: an existing key keeps its place, a new one goes last. */
  function Put(r: Record, k: string, v: string): (r': Record)
    ensures KeysOf(r') == if k in KeysOf(r) then KeysOf(r) else KeysOf(r) + [k]
  {
    if |r| == 0 then [(k, v)]
    else
      assert r == [r[0]] + r[1..];
      GetCons(r[0], r[1..]);
      if r[0].0 == k then
        GetCons((k, v), r[1..]);
        [(k, v)] + r[1..]
      else
        var tail := Put(r[1..], k, v);
        GetCons(r[0], tail);
        [r[0]] + tail
  }

  /** After `r[k] = v`, `k` reads the new value and every other key reads as before. */
  lemma {:induction false} PutGet(r: Record, k: string, v: string)
    ensures Get(Put(r, k, v), k) == Some(v)
    ensures forall j :: j != k ==> Get(Put(r, k, v), j) == Get(r, j)
  {
    if |r| > 0 {
      assert r == [r[0]] + r[1..];
      GetCons(r[0], r[1..]);
      if r[0].0 == k {
        GetCons((k, v), r[1..]);
      } else {
        PutGet(r[1..], k, v);
        GetCons(r[0], Put(r[1..], k, v));
      }
    }
  }

  /** The value of the last entry for `k`: what a left-to-right series of assignments leaves. */
  function LastValue(es: seq<Entry>, k: string): Option<string>
  {
    if |es| == 0 then None
    else if es[|es| - 1].0 == k then Some(es[|es| - 1].1)
    else LastValue(es[..|es| - 1], k)
  }

  /** The last entry for a key decides its value. */
  lemma {:induction false} LastValueAt(es: seq<Entry>, j: nat)
    requires j < |es|
    requires forall l :: j < l < |es| ==> es[l].0 != es[j].0
    ensures LastValue(es, es[j].0) == Some(es[j].1)
  {
    if j < |es| - 1 {
      LastValueAt(es[..|es| - 1], j);
    }
  }

  /** A key that no entry carries has no value. */
  lemma {:induction false} LastValueAbsent(es: seq<Entry>, k: string)
    requires k !in KeysOf(es)
    ensures LastValue(es, k) == None
  {
    if |es| > 0 {
      assert KeysOf(es)[|es| - 1] == es[|es| - 1].0;
      assert KeysOf(es[..|es| - 1]) == KeysOf(es)[..|es| - 1];
      LastValueAbsent(es[..|es| - 1], k);
    }
  }

  /** In a well-formed record the last entry for a key is the only one. */
  lemma LastValueOfWellFormed(r: Record, k: string)
    requires WellFormed(r)
    ensures LastValue(r, k) == Get(r, k)
  {
    if k in KeysOf(r) {
      var n :| 0 <= n < |r| && KeysOf(r)[n] == k;
      GetEntry(r, n);
      forall l | n < l < |r| ensures r[l].0 != r[n].0 {
        assert KeysOf(r)[l] != KeysOf(r)[n];
      }
      LastValueAt(r, n);
    } else {
      LastValueAbsent(r, k);
    }
  }

  /** Assigns the entries one after another: `{...r, ...es}` and `Object.fromEntries`. */
  function PutAll(r: Record, es: seq<Entry>): (r': Record)
    ensures forall k :: Get(r', k) == if LastValue(es, k).Some? then LastValue(es, k) else Get(r, k)
  {
    if |es| == 0 then r
    else
      var p := PutAll(r, es[..|es| - 1]);
      PutGet(p, es[|es| - 1].0, es[|es| - 1].1);
      Put(p, es[|es| - 1].0, es[|es| - 1].1)
  }

  /** Keys after a series of assignments: the old keys, then the new ones in first-seen order. */
  lemma {:induction false} PutAllKeys(r: Record, es: seq<Entry>)
    requires WellFormed(r)
    ensures KeysOf(PutAll(r, es)) == Dedup(KeysOf(r) + KeysOf(es))
  {
    if |es| == 0 {
      assert KeysOf(r) + KeysOf(es) == KeysOf(r);
      DedupOfDistinct(KeysOf(r));
    } else {
      var init := es[..|es| - 1];
      var last := es[|es| - 1];
      PutAllKeys(r, init);
      var a := KeysOf(r) + KeysOf(init);
      var p := PutAll(r, init);
      assert PutAll(r, es) == Put(p, last.0, last.1);
      KeysSnoc(es);
      assert KeysOf(r) + KeysOf(es) == a + [last.0];
      DedupSnoc(a, last.0);
    }
  }

  lemma PutAllWellFormed(r: Record, es: seq<Entry>)
    requires WellFormed(r)
    ensures WellFormed(PutAll(r, es))
  {
    PutAllKeys(r, es);
  }

  /** `Object.fromEntries(es)`. */
  function FromEntries(es: seq<Entry>): Record
  {
    PutAll([], es)
  }

  /** `Object.fromEntries`: each key once, in first-seen order, holding its last value. */
  lemma FromEntriesSpec(es: seq<Entry>)
    ensures WellFormed(FromEntries(es))
    ensures KeysOf(FromEntries(es)) == Dedup(KeysOf(es))
    ensures forall k :: Get(FromEntries(es), k) == LastValue(es, k)
  {
    PutAllKeys([], es);
    assert KeysOf([]) + KeysOf(es) == KeysOf(es);
  }

  /** Two records agree field by field (the same map, whatever the key order). */
  ghost predicate SameFields(a: Record, b: Record) {
    forall k :: Get(a, k) == Get(b, k)
  }
}
