/** `Array.prototype.sort` with a comparator, which is stable: a comparator that returns a
    negative number for (a, b) is modelled as `before(a, b)`. */
module Sorting {

  /** The comparator orders consistently: never both ways, and if `a` goes before `c` then any
      `b` goes after `a` or before `c`. */
  ghost predicate StrictWeakOrder<T(!new)>(before: (T, T) -> bool) {
    && (forall a, b :: before(a, b) ==> !before(b, a))
    && (forall a, b, c :: before(a, c) ==> before(a, b) || before(b, c))
  }

  /** No element is put before one that precedes it. */
  ghost predicate Sorted<T>(before: (T, T) -> bool, s: seq<T>) {
    forall i, j :: 0 <= i < j < |s| ==> !before(s[j], s[i])
  }

  /** Inserts `x` ahead of the first element that does not go before it. */
  function Insert<T>(before: (T, T) -> bool, x: T, s: seq<T>): (r: seq<T>)
    ensures multiset(r) == multiset(s) + multiset{x}
  {
    if |s| == 0 || !before(s[0], x) then [x] + s
    else
      assert s == [s[0]] + s[1..];
      [s[0]] + Insert(before, x, s[1..])
  }

  /** The stable sort of `s`. */
  function Sort<T>(before: (T, T) -> bool, s: seq<T>): (r: seq<T>)
    ensures multiset(r) == multiset(s)
  {
    if |s| == 0 then []
    else
      assert s == [s[0]] + s[1..];
      Insert(before, s[0], Sort(before, s[1..]))
  }

  lemma {:induction false} InsertSorted<T(!new)>(before: (T, T) -> bool, x: T, s: seq<T>)
    requires StrictWeakOrder(before) && Sorted(before, s)
    ensures Sorted(before, Insert(before, x, s))
  {
    if |s| > 0 && before(s[0], x) {
      InsertSorted(before, x, s[1..]);
      var r := Insert(before, x, s);
      forall j | 0 < j < |r| ensures !before(r[j], r[0]) {
        assert r[j] in multiset(Insert(before, x, s[1..]));
        assert r[j] in multiset(s[1..]) + multiset{x};
        if r[j] != x {
          var k :| 0 <= k < |s[1..]| && s[1..][k] == r[j];
          assert s[k + 1] == r[j];
        }
      }
    } else if |s| > 0 {
      var r := [x] + s;
      forall j | 0 < j < |r| ensures !before(r[j], r[0]) {
        assert r[j] == s[j - 1];
        if j > 1 {
          assert !before(s[j - 1], s[0]);
        }
      }
    }
  }

  /** The sort orders its input and only permutes it. */
  lemma {:induction false} SortSorted<T(!new)>(before: (T, T) -> bool, s: seq<T>)
    requires StrictWeakOrder(before)
    ensures Sorted(before, Sort(before, s))
    ensures multiset(Sort(before, s)) == multiset(s)
  {
    if |s| > 0 {
      SortSorted(before, s[1..]);
      InsertSorted(before, s[0], Sort(before, s[1..]));
    }
  }

  /** Neither goes before the other. */
  predicate Equivalent<T>(before: (T, T) -> bool, a: T, b: T) {
    !before(a, b) && !before(b, a)
  }

  /** The elements of `s` equivalent to `e`, in their order in `s`. */
  function Peers<T>(before: (T, T) -> bool, s: seq<T>, e: T): seq<T>
  {
    if |s| == 0 then []
    else (if Equivalent(before, s[0], e) then [s[0]] else []) + Peers(before, s[1..], e)
  }

  lemma PeersCons<T>(before: (T, T) -> bool, h: T, t: seq<T>, e: T)
    ensures Peers(before, [h] + t, e) == (if Equivalent(before, h, e) then [h] else []) + Peers(before, t, e)
  {
    assert ([h] + t)[1..] == t;
  }

  lemma {:induction false} InsertPeers<T(!new)>(before: (T, T) -> bool, x: T, s: seq<T>, e: T)
    requires StrictWeakOrder(before) && Sorted(before, s)
    ensures Peers(before, Insert(before, x, s), e) ==
              (if Equivalent(before, x, e) then [x] else []) + Peers(before, s, e)
  {
    if |s| > 0 && before(s[0], x) {
      assert Sorted(before, s[1..]);
      InsertPeers(before, x, s[1..], e);
      PeersCons(before, s[0], Insert(before, x, s[1..]), e);
      PeersCons(before, s[0], s[1..], e);
      assert [s[0]] + s[1..] == s;
      if Equivalent(before, x, e) {
        assert before(s[0], e) || before(e, x);
      }
    } else {
      PeersCons(before, x, s, e);
    }
  }

  /** The sort is stable: equivalent elements keep their relative order. */
  lemma {:induction false} SortStable<T(!new)>(before: (T, T) -> bool, s: seq<T>, e: T)
    requires StrictWeakOrder(before)
    ensures Peers(before, Sort(before, s), e) == Peers(before, s, e)
  {
    if |s| > 0 {
      SortStable(before, s[1..], e);
      SortSorted(before, s[1..]);
      InsertPeers(before, s[0], Sort(before, s[1..]), e);
    }
  }
}
