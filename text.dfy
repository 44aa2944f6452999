/**
 * The Python string operations the library relies on, stated over `seq<char>`:
 * `str.split(sep, 1)`, `str.replace(old, new)` for one character, `str.startswith`
 * (Dafny's prefix relation `<=`), `str.join`, `str.__lt__` and `sorted` on strings.
 */
module Text {

  /**
   * `s.split(sep, 1)`: one part when `sep` does not occur, otherwise the text
   * before the FIRST `sep` and everything after it (which may contain `sep` again).
   */
  function SplitOnce(s: string, sep: char): seq<string>
  {
    if |s| == 0 then [s]
    else if s[0] == sep then ["", s[1..]]
    else
      var rest := SplitOnce(s[1..], sep);
      if |rest| == 1 then [s] else [[s[0]] + rest[0], rest[1]]
  }

  /** The parts of `s.split(sep, 1)`, stated without reference to how they are computed. */
  lemma {:induction false} SplitOnceParts(s: string, sep: char)
    ensures var parts := SplitOnce(s, sep);
      && (|parts| == 1 || |parts| == 2)
      && (|parts| == 1 <==> sep !in s)
      && (|parts| == 1 ==> parts[0] == s)
      && (|parts| == 2 ==> s == parts[0] + [sep] + parts[1] && sep !in parts[0])
  {
    if |s| > 0 && s[0] != sep {
      SplitOnceParts(s[1..], sep);
      assert s == [s[0]] + s[1..];
    }
  }

  /** Splitting `a + sep + b` once gives back `a` and `b` whenever `a` has no `sep`. */
  lemma SplitOnceAt(a: string, sep: char, b: string)
    requires sep !in a
    ensures SplitOnce(a + [sep] + b, sep) == [a, b]
  {
    var s := a + [sep] + b;
    assert s[|a|] == sep;
    SplitOnceParts(s, sep);
    var parts := SplitOnce(s, sep);
    var p := parts[0];
    assert forall i :: 0 <= i < |a| ==> s[i] == a[i];
    assert forall i :: 0 <= i < |p| ==> s[i] == p[i];
    assert s[|p|] == sep;
    assert |p| == |a|;
    assert p == s[..|a|] == a;
    assert parts[1] == s[|a| + 1..] == b;
  }

  /** `s.replace(from, to)` for single characters: every `from` becomes `to`, nothing else moves. */
  function ReplaceChar(s: string, from: char, to: char): (r: string)
    ensures |r| == |s|
    ensures forall i :: 0 <= i < |s| ==> r[i] == (if s[i] == from then to else s[i])
  {
    if |s| == 0 then ""
    else [if s[0] == from then to else s[0]] + ReplaceChar(s[1..], from, to)
  }

  /** `sep.join(parts)`. */
  function Join(parts: seq<string>, sep: string): string
  {
    if |parts| == 0 then ""
    else if |parts| == 1 then parts[0]
    else parts[0] + sep + Join(parts[1..], sep)
  }

  /** Appending one more part to a non-empty list adds the separator and that part. */
  lemma {:induction false} JoinAppend(parts: seq<string>, x: string, sep: string)
    requires |parts| > 0
    ensures Join(parts + [x], sep) == Join(parts, sep) + sep + x
  {
    if |parts| > 1 {
      assert (parts + [x])[1..] == parts[1..] + [x];
      JoinAppend(parts[1..], x, sep);
    }
  }

  /** Python's `a <= b` on strings: lexicographic by code point, a prefix sorting first. */
  predicate LexLeq(a: string, b: string)
  {
    |a| == 0 || (|b| > 0 && (a[0] < b[0] || (a[0] == b[0] && LexLeq(a[1..], b[1..]))))
  }

  /** A prefix sorts first: when `b.startswith(a)`, `a <= b`. */
  lemma {:induction false} LexLeqPrefix(a: string, b: string)
    requires a <= b
    ensures LexLeq(a, b)
  {
    if |a| > 0 {
      assert a[1..] <= b[1..];
      LexLeqPrefix(a[1..], b[1..]);
    }
  }

  /** Past a common prefix, the first differing character decides `<=`. */
  lemma {:induction false} LexLeqFirstDifference(a: string, b: string, i: nat)
    requires i < |a| && i < |b| && a[..i] == b[..i] && a[i] != b[i]
    ensures LexLeq(a, b) <==> a[i] < b[i]
  {
    if i > 0 {
      assert a[0] == a[..i][0] == b[..i][0] == b[0];
      assert a[1..][..i - 1] == a[..i][1..] == b[..i][1..] == b[1..][..i - 1];
      LexLeqFirstDifference(a[1..], b[1..], i - 1);
    }
  }

  /** Python's `a < b` on strings. */
  predicate LexLess(a: string, b: string)
  {
    LexLeq(a, b) && a != b
  }

  lemma {:induction false} LexLeqRefl(a: string)
    ensures LexLeq(a, a)
  {
    if |a| > 0 { LexLeqRefl(a[1..]); }
  }

  lemma {:induction false} LexLeqTotal(a: string, b: string)
    ensures LexLeq(a, b) || LexLeq(b, a)
  {
    if |a| > 0 && |b| > 0 && a[0] == b[0] { LexLeqTotal(a[1..], b[1..]); }
  }

  lemma {:induction false} LexLeqAntisymmetric(a: string, b: string)
    requires LexLeq(a, b) && LexLeq(b, a)
    ensures a == b
  {
    if |a| > 0 {
      LexLeqAntisymmetric(a[1..], b[1..]);
      assert a == [a[0]] + a[1..] && b == [b[0]] + b[1..];
    }
  }

  lemma {:induction false} LexLeqTransitive(a: string, b: string, c: string)
    requires LexLeq(a, b) && LexLeq(b, c)
    ensures LexLeq(a, c)
  {
    if |a| > 0 && a[0] == b[0] && b[0] == c[0] { LexLeqTransitive(a[1..], b[1..], c[1..]); }
  }

  /** `<` on strings is a strict total order, as `sorted` and `__lt__` assume. */
  lemma LexLessStrictTotal(a: string, b: string, c: string)
    ensures !LexLess(a, a)
    ensures LexLess(a, b) ==> !LexLess(b, a)
    ensures LexLess(a, b) && LexLess(b, c) ==> LexLess(a, c)
    ensures a != b ==> LexLess(a, b) || LexLess(b, a)
  {
    LexLeqTotal(a, b);
    if LexLeq(a, b) && LexLeq(b, a) { LexLeqAntisymmetric(a, b); }
    if LexLeq(a, b) && LexLeq(b, c) {
      LexLeqTransitive(a, b, c);
      if a == c { LexLeqAntisymmetric(a, b); }
    }
  }

  /** Ascending in Python's string order. */
  predicate Sorted(s: seq<string>)
  {
    forall i, j :: 0 <= i < j < |s| ==> LexLeq(s[i], s[j])
  }

  /** Insertion of one string into an ascending list. */
  function Insert(x: string, s: seq<string>): (r: seq<string>)
    ensures multiset(r) == multiset(s) + multiset{x}
    ensures |r| == |s| + 1
  {
    if |s| == 0 then [x]
    else if LexLeq(x, s[0]) then [x] + s
    else
      assert s == [s[0]] + s[1..];
      [s[0]] + Insert(x, s[1..])
  }

  lemma {:induction false} InsertSorted(x: string, s: seq<string>)
    requires Sorted(s)
    ensures Sorted(Insert(x, s))
  {
    if |s| == 0 {
    } else if LexLeq(x, s[0]) {
      forall j | 0 <= j < |s| ensures LexLeq(x, s[j]) {
        if j > 0 { LexLeqTransitive(x, s[0], s[j]); }
      }
    } else {
      LexLeqTotal(x, s[0]);
      InsertSorted(x, s[1..]);
      var t := Insert(x, s[1..]);
      forall j | 0 <= j < |t| ensures LexLeq(s[0], t[j]) {
        assert t[j] in multiset(t);
        assert t[j] == x || t[j] in multiset(s[1..]);
        if t[j] != x {
          var k :| 0 <= k < |s[1..]| && s[1..][k] == t[j];
          assert s[k + 1] == t[j];
        }
      }
    }
  }

  /** Python's `sorted` on a list of strings. */
  function SortStrings(s: seq<string>): (r: seq<string>)
    ensures Sorted(r)
    ensures multiset(r) == multiset(s)
  {
    if |s| == 0 then []
    else
      var t := SortStrings(s[1..]);
      InsertSorted(s[0], t);
      assert s == [s[0]] + s[1..];
      Insert(s[0], t)
  }

  /** The head of an ascending list is below every element of it. */
  lemma SortedHeadLeq(a: seq<string>, x: string)
    requires Sorted(a) && x in a
    ensures LexLeq(a[0], x)
  {
    var i :| 0 <= i < |a| && a[i] == x;
    if i == 0 { LexLeqRefl(x); }
  }

  lemma SortedTail(a: seq<string>)
    requires Sorted(a) && |a| > 0
    ensures Sorted(a[1..])
  {
  }

  lemma SameHeadSameTail(a: seq<string>, b: seq<string>)
    requires |a| > 0 && |b| > 0 && a[0] == b[0]
    requires multiset(a) == multiset(b)
    ensures multiset(a[1..]) == multiset(b[1..])
  {
    assert a == [a[0]] + a[1..] && b == [b[0]] + b[1..];
    assert multiset(a[1..]) == multiset(a) - multiset{a[0]};
    assert multiset(b[1..]) == multiset(b) - multiset{b[0]};
  }

  /** An ascending arrangement of a multiset of strings is unique. */
  lemma {:induction false} SortedUnique(a: seq<string>, b: seq<string>)
    requires Sorted(a) && Sorted(b)
    requires multiset(a) == multiset(b)
    ensures a == b
  {
    assert |a| == |multiset(a)| == |multiset(b)| == |b|;
    if |a| > 0 {
      assert a[0] in multiset(b) && b[0] in multiset(a);
      SortedHeadLeq(b, a[0]);
      SortedHeadLeq(a, b[0]);
      LexLeqAntisymmetric(a[0], b[0]);
      assert a == [a[0]] + a[1..] && b == [b[0]] + b[1..];
      SameHeadSameTail(a, b);
      SortedTail(a);
      SortedTail(b);
      SortedUnique(a[1..], b[1..]);
    }
  }

  /** Sorting depends only on the multiset of its input: any permutation sorts alike. */
  lemma SortPermutationInvariant(a: seq<string>, b: seq<string>)
    requires multiset(a) == multiset(b)
    ensures SortStrings(a) == SortStrings(b)
  {
    SortedUnique(SortStrings(a), SortStrings(b));
  }
}
