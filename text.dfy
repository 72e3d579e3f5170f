/** The string operations app.js relies on: `String.prototype.trim`, `split` on a
    character or on the line-break pattern `\r?\n`, `Array.prototype.join`, and the
    string order that stands in for `localeCompare`. */
module Text {

  /** ECMAScript WhiteSpace and LineTerminator code points: what `trim` removes. */
  predicate IsJsSpace(c: char) {
    || c == '\t' || c == '\n' || c == '\U{B}' || c == '\U{C}' || c == '\r' || c == ' '
    || c == '\U{A0}' || c == '\U{1680}' || ('\U{2000}' <= c <= '\U{200A}')
    || c == '\U{2028}' || c == '\U{2029}' || c == '\U{202F}' || c == '\U{205F}'
    || c == '\U{3000}' || c == '\U{FEFF}'
  }

  function TrimStart(s: string): (r: string)
    ensures |r| <= |s| && r == s[|s| - |r|..]
    ensures forall k :: 0 <= k < |s| - |r| ==> IsJsSpace(s[k])
    ensures r == [] || !IsJsSpace(r[0])
  {
    if |s| > 0 && IsJsSpace(s[0]) then TrimStart(s[1..]) else s
  }

  function TrimEnd(s: string): (r: string)
    ensures |r| <= |s| && r == s[..|r|]
    ensures forall k :: |r| <= k < |s| ==> IsJsSpace(s[k])
    ensures r == [] || !IsJsSpace(r[|r| - 1])
  {
    if |s| > 0 && IsJsSpace(s[|s| - 1]) then TrimEnd(s[..|s| - 1]) else s
  }

  /** `s.trim()`: the longest infix of `s` that neither starts nor ends with white space. */
  function Trim(s: string): (r: string)
    ensures r == [] || (!IsJsSpace(r[0]) && !IsJsSpace(r[|r| - 1]))
  {
    TrimEnd(TrimStart(s))
  }

  /** Every character of `s` is white space. */
  predicate Blank(s: string) {
    forall k :: 0 <= k < |s| ==> IsJsSpace(s[k])
  }

  /** `c` is `s` with white space, and only white space, removed at both ends. */
  ghost predicate TrimmedFrom(c: string, s: string) {
    && (c == [] || (!IsJsSpace(c[0]) && !IsJsSpace(c[|c| - 1])))
    && exists a, b :: Blank(a) && Blank(b) && s == a + c + b
  }

  /** `trim` removes a run of white space at each end and nothing else. */
  lemma TrimSpec(s: string)
    ensures TrimmedFrom(Trim(s), s)
  {
    var a := TrimStartDrops(s);
    var b := TrimEndDrops(TrimStart(s));
    ConcatAssoc(a, Trim(s), b);
    TrimmedFromOf(Trim(s), s, a, b);
  }

  /** The white space `TrimStart` drops. */
  lemma TrimStartDrops(s: string) returns (a: string)
    ensures Blank(a) && s == a + TrimStart(s)
  {
    a := s[..|s| - |TrimStart(s)|];
    forall k | 0 <= k < |a| ensures IsJsSpace(a[k]) {
      assert a[k] == s[k];
    }
  }

  /** The white space `TrimEnd` drops. */
  lemma TrimEndDrops(t: string) returns (b: string)
    ensures Blank(b) && t == TrimEnd(t) + b
  {
    var r := TrimEnd(t);
    b := t[|r|..];
    forall k | 0 <= k < |b| ensures IsJsSpace(b[k]) {
      assert b[k] == t[|r| + k];
    }
  }

  lemma ConcatAssoc(a: string, c: string, b: string)
    ensures a + (c + b) == a + c + b
  {
  }

  lemma TrimmedFromOf(c: string, s: string, a: string, b: string)
    requires c == [] || (!IsJsSpace(c[0]) && !IsJsSpace(c[|c| - 1]))
    requires Blank(a) && Blank(b) && s == a + c + b
    ensures TrimmedFrom(c, s)
  {
  }

  lemma {:induction false} TrimStartBlank(a: string, t: string)
    requires Blank(a) && (t == [] || !IsJsSpace(t[0]))
    ensures TrimStart(a + t) == t
  {
    if |a| == 0 {
      assert a + t == t;
    } else {
      assert (a + t)[1..] == a[1..] + t;
      TrimStartBlank(a[1..], t);
    }
  }

  lemma {:induction false} TrimEndBlank(t: string, b: string)
    requires Blank(b) && (t == [] || !IsJsSpace(t[|t| - 1]))
    ensures TrimEnd(t + b) == t
  {
    if |b| == 0 {
      assert t + b == t;
    } else {
      var u := t + b;
      assert u[..|u| - 1] == t + b[..|b| - 1];
      TrimEndBlank(t, b[..|b| - 1]);
    }
  }

  /** There is only one way to remove white space from both ends: `trim`'s. */
  lemma TrimUnique(c: string, s: string)
    requires TrimmedFrom(c, s)
    ensures c == Trim(s)
  {
    var a, b :| Blank(a) && Blank(b) && s == a + c + b;
    if c == [] {
      assert Blank(a + b) by {
        forall k | 0 <= k < |a + b| ensures IsJsSpace((a + b)[k]) {
          if k >= |a| {
            assert (a + b)[k] == b[k - |a|];
          }
        }
      }
      assert s == (a + b) + [];
      TrimStartBlank(a + b, []);
    } else {
      assert s == a + (c + b);
      TrimStartBlank(a, c + b);
      TrimEndBlank(c, b);
    }
  }

  /** Text that does not start or end with white space is left alone by `trim`. */
  lemma TrimOfTrimmed(s: string)
    requires s != [] && !IsJsSpace(s[0]) && !IsJsSpace(s[|s| - 1])
    ensures Trim(s) == s
  {
  }

  /** `parts.join(sep)`. */
  function Join(parts: seq<string>, sep: char): string
  {
    if |parts| == 0 then ""
    else if |parts| == 1 then parts[0]
    else parts[0] + [sep] + Join(parts[1..], sep)
  }

  lemma JoinCons(p: string, rest: seq<string>, sep: char)
    ensures |rest| > 0 ==> Join([p] + rest, sep) == p + [sep] + Join(rest, sep)
  {
    assert ([p] + rest)[1..] == rest;
  }

  /** A join starts with the first part's first character. */
  lemma {:induction false} JoinStart(parts: seq<string>, sep: char)
    requires |parts| > 0 && |parts[0]| > 0
    ensures |Join(parts, sep)| > 0 && Join(parts, sep)[0] == parts[0][0]
  {
  }

  /** A join ends with the last part's last character. */
  lemma {:induction false} JoinEnd(parts: seq<string>, sep: char)
    requires |parts| > 0 && |parts[|parts| - 1]| > 0
    ensures var j := Join(parts, sep); |j| > 0 && j[|j| - 1] == parts[|parts| - 1][|parts[|parts| - 1]| - 1]
  {
    if |parts| > 1 {
      JoinEnd(parts[1..], sep);
    }
  }

  /** A character that is neither the separator nor in any part is not in the join. */
  lemma {:induction false} JoinAvoids(parts: seq<string>, sep: char, c: char)
    requires c != sep
    requires forall i :: 0 <= i < |parts| ==> c !in parts[i]
    ensures c !in Join(parts, sep)
  {
    if |parts| > 1 {
      JoinAvoids(parts[1..], sep, c);
    }
  }

  /** `s.split(sep)` for a one-character separator: cut at every occurrence. */
  function Split(s: string, sep: char): (parts: seq<string>)
    ensures |parts| >= 1
    ensures Join(parts, sep) == s
    ensures forall i :: 0 <= i < |parts| ==> sep !in parts[i]
  {
    if |s| == 0 then [""]
    else
      var rest := Split(s[1..], sep);
      if s[0] == sep then
        JoinCons("", rest, sep);
        [""] + rest
      else
        assert rest == [rest[0]] + rest[1..];
        JoinCons(rest[0], rest[1..], sep);
        JoinCons([s[0]] + rest[0], rest[1..], sep);
        [[s[0]] + rest[0]] + rest[1..]
  }

  /** Cutting at every separator undoes a join of parts that do not contain it. */
  lemma {:induction false} SplitJoin(parts: seq<string>, sep: char)
    requires |parts| >= 1
    requires forall i :: 0 <= i < |parts| ==> sep !in parts[i]
    ensures Split(Join(parts, sep), sep) == parts
  {
    if |parts| == 1 {
      SplitOfPlain(parts[0], sep);
    } else {
      SplitJoin(parts[1..], sep);
      SplitAfterPlain(parts[0], Join(parts[1..], sep), sep);
      assert [parts[0]] + parts[1..] == parts;
    }
  }

  lemma {:induction false} SplitOfPlain(p: string, sep: char)
    requires sep !in p
    ensures Split(p, sep) == [p]
  {
    if |p| > 0 {
      SplitOfPlain(p[1..], sep);
      assert [p[0]] + p[1..] == p;
    }
  }

  lemma {:induction false} SplitAfterPlain(p: string, t: string, sep: char)
    requires sep !in p
    ensures Split(p + [sep] + t, sep) == [p] + Split(t, sep)
  {
    if |p| == 0 {
      assert ([] + [sep] + t)[1..] == t;
    } else {
      assert (p + [sep] + t)[1..] == p[1..] + [sep] + t;
      SplitAfterPlain(p[1..], t, sep);
      assert [p[0]] + p[1..] == p;
    }
  }

  /** Number of occurrences of `c`. */
  function Count(s: string, c: char): nat
  {
    if |s| == 0 then 0 else (if s[0] == c then 1 else 0) + Count(s[1..], c)
  }

  /** Splitting gives one more part than there are separators. */
  lemma {:induction false} SplitCount(s: string, sep: char)
    ensures |Split(s, sep)| == Count(s, sep) + 1
  {
    if |s| > 0 {
      SplitCount(s[1..], sep);
    }
  }

  /** Trimming keeps an infix, so it adds no character. */
  lemma TrimKeeps(s: string, c: char)
    requires c !in s
    ensures c !in Trim(s)
  {
    var t := TrimStart(s);
    forall k | 0 <= k < |t| ensures t[k] != c {
      assert t[k] == s[|s| - |t| + k];
    }
    var r := TrimEnd(t);
    forall k | 0 <= k < |r| ensures r[k] != c {
      assert r[k] == t[k];
    }
  }

  /** `s.split(/\r?\n/)`: cut at every LF, dropping a CR directly in front of it. */
  function SplitLines(s: string): (lines: seq<string>)
    ensures |lines| >= 1
    ensures forall i :: 0 <= i < |lines| ==> '\n' !in lines[i]
    ensures '\r' !in s ==> lines == Split(s, '\n')
  {
    if |s| == 0 then [""]
    else if s[0] == '\n' then [""] + SplitLines(s[1..])
    else if |s| >= 2 && s[0] == '\r' && s[1] == '\n' then [""] + SplitLines(s[2..])
    else
      var rest := SplitLines(s[1..]);
      [[s[0]] + rest[0]] + rest[1..]
  }

  /** A line that holds no LF and does not end in CR comes back whole from `SplitLines`. */
  lemma {:induction false} SplitLinesAfterLine(l: string, t: string)
    requires '\n' !in l
    requires l == [] || l[|l| - 1] != '\r'
    ensures SplitLines(l + "\n" + t) == [l] + SplitLines(t)
  {
    if |l| == 0 {
      assert ([] + "\n" + t)[1..] == t;
    } else {
      assert (l + "\n" + t)[1..] == l[1..] + "\n" + t;
      SplitLinesAfterLine(l[1..], t);
      assert [l[0]] + l[1..] == l;
    }
  }

  lemma {:induction false} SplitLinesOfLine(l: string)
    requires '\n' !in l
    ensures SplitLines(l) == [l]
  {
    if |l| > 0 {
      SplitLinesOfLine(l[1..]);
      assert [l[0]] + l[1..] == l;
    }
  }

  /** A CR directly before an LF belongs to the line break, not to the line. */
  lemma {:induction false} SplitLinesAfterCrLf(l: string, t: string)
    requires '\n' !in l
    ensures SplitLines(l + "\r\n" + t) == [l] + SplitLines(t)
  {
    if |l| == 0 {
      assert ([] + "\r\n" + t)[2..] == t;
    } else {
      var s := l + "\r\n" + t;
      assert s[1..] == l[1..] + "\r\n" + t;
      assert s[0] != '\n';
      assert |l| > 1 ==> s[1] == l[1];
      SplitLinesAfterCrLf(l[1..], t);
      assert [l[0]] + l[1..] == l;
    }
  }

  /** `lines.join("\r\n")`. */
  function JoinCrLf(lines: seq<string>): string
  {
    if |lines| == 0 then ""
    else if |lines| == 1 then lines[0]
    else lines[0] + "\r\n" + JoinCrLf(lines[1..])
  }

  /** Lines joined with CR LF split back into the same lines when none holds an LF; a CR
      inside or at the end of a line is kept. */
  lemma {:induction false} SplitLinesJoinCrLf(lines: seq<string>)
    requires |lines| >= 1
    requires forall i :: 0 <= i < |lines| ==> '\n' !in lines[i]
    ensures SplitLines(JoinCrLf(lines)) == lines
  {
    if |lines| == 1 {
      SplitLinesOfLine(lines[0]);
    } else {
      SplitLinesJoinCrLf(lines[1..]);
      SplitLinesAfterCrLf(lines[0], JoinCrLf(lines[1..]));
      assert [lines[0]] + lines[1..] == lines;
    }
  }

  /** Joining lines with LF and splitting again gives back the lines, as long as none holds
      an LF and none but the last ends in CR (which would merge into a CR LF break). */
  lemma {:induction false} SplitLinesJoin(lines: seq<string>)
    requires |lines| >= 1
    requires forall i :: 0 <= i < |lines| ==> '\n' !in lines[i]
    requires forall i :: 0 <= i < |lines| - 1 ==> lines[i] == [] || lines[i][|lines[i]| - 1] != '\r'
    ensures SplitLines(Join(lines, '\n')) == lines
  {
    if |lines| == 1 {
      SplitLinesOfLine(lines[0]);
    } else {
      SplitLinesJoin(lines[1..]);
      SplitLinesAfterLine(lines[0], Join(lines[1..], '\n'));
      assert [lines[0]] + lines[1..] == lines;
    }
  }

  /** Number of double-quote characters. */
  function Quotes(s: string): nat
  {
    if |s| == 0 then 0 else (if s[0] == '"' then 1 else 0) + Quotes(s[1..])
  }

  lemma {:induction false} QuotesAppend(a: string, b: string)
    ensures Quotes(a + b) == Quotes(a) + Quotes(b)
  {
    if |a| > 0 {
      assert (a + b)[0] == a[0] && (a + b)[1..] == a[1..] + b;
      QuotesAppend(a[1..], b);
    } else {
      assert a + b == b;
    }
  }

  lemma {:induction false} QuotesOfPlain(s: string)
    requires '"' !in s
    ensures Quotes(s) == 0
  {
    if |s| > 0 {
      QuotesOfPlain(s[1..]);
    }
  }

  /** Code-point lexicographic order, standing in for `localeCompare(...) < 0`. */
  predicate Less(a: string, b: string) {
    if |b| == 0 then false
    else if |a| == 0 then true
    else if a[0] != b[0] then a[0] < b[0]
    else Less(a[1..], b[1..])
  }

  lemma {:induction false} LessIrreflexive(a: string)
    ensures !Less(a, a)
  {
    if |a| > 0 {
      LessIrreflexive(a[1..]);
    }
  }

  lemma {:induction false} LessTransitive(a: string, b: string, c: string)
    requires Less(a, b) && Less(b, c)
    ensures Less(a, c)
  {
    if |a| > 0 && a[0] == b[0] && b[0] == c[0] {
      LessTransitive(a[1..], b[1..], c[1..]);
    }
  }

  /** Any two different strings are ordered one way or the other. */
  lemma {:induction false} LessTotal(a: string, b: string)
    requires a != b
    ensures Less(a, b) || Less(b, a)
  {
    if |a| > 0 && |b| > 0 && a[0] == b[0] {
      assert a == [a[0]] + a[1..] && b == [b[0]] + b[1..];
      LessTotal(a[1..], b[1..]);
    }
  }

  lemma {:induction false} LessAsymmetric(a: string, b: string)
    requires Less(a, b)
    ensures !Less(b, a)
  {
    if |a| > 0 && a[0] == b[0] {
      LessAsymmetric(a[1..], b[1..]);
    }
  }
}
