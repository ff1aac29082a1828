/** Splitting and joining strings, as the standard library calls of the source do. */
module Strings {
  import opened Wrappers

  /** The pieces of `s` between the separators; one piece when there is none. */
  function Split(s: string, sep: char): (parts: seq<string>)
    ensures parts != [] && forall i :: 0 <= i < |parts| ==> sep !in parts[i]
  {
    if s == [] then [[]]
    else
      var rest := Split(s[1..], sep);
      if s[0] == sep then [[]] + rest else [[s[0]] + rest[0]] + rest[1..]
  }

  lemma {:induction false} SplitNone(s: string, sep: char)
    requires sep !in s
    ensures Split(s, sep) == [s]
  {
    if s != [] {
      SplitNone(s[1..], sep);
      assert [s[0]] + s[1..] == s;
    }
  }

  lemma {:induction false} SplitFirst(a: string, sep: char, b: string)
    requires sep !in a
    ensures Split(a + [sep] + b, sep) == [a] + Split(b, sep)
  {
    if a == [] {
      assert (a + [sep] + b)[1..] == b;
    } else {
      assert (a + [sep] + b)[1..] == a[1..] + [sep] + b;
      SplitFirst(a[1..], sep, b);
      assert [a[0]] + a[1..] == a;
    }
  }

  /** Splitting at the separators adds the pieces of both sides. */
  lemma {:induction false} SplitConcat(a: string, sep: char, b: string)
    ensures Split(a + [sep] + b, sep) == Split(a, sep) + Split(b, sep)
    decreases |a|
  {
    if a == [] {
      assert (a + [sep] + b)[1..] == b;
    } else {
      assert (a + [sep] + b)[1..] == a[1..] + [sep] + b;
      SplitConcat(a[1..], sep, b);
    }
  }

  /** What comes before and after the first separator. */
  function SplitOnce(s: string, sep: char): (r: Option<(string, string)>)
    ensures r.Some? ==> s == r.value.0 + [sep] + r.value.1 && sep !in r.value.0
    ensures r.None? <==> sep !in s
  {
    if s == [] then None
    else if s[0] == sep then Some(([], s[1..]))
    else match SplitOnce(s[1..], sep)
         case None => None
         case Some((a, b)) => Some(([s[0]] + a, b))
  }

  lemma {:induction false} SplitOnceAt(a: string, sep: char, b: string)
    requires sep !in a
    ensures SplitOnce(a + [sep] + b, sep) == Some((a, b))
  {
    if a == [] {
      assert (a + [sep] + b)[1..] == b;
    } else {
      assert (a + [sep] + b)[1..] == a[1..] + [sep] + b;
      SplitOnceAt(a[1..], sep, b);
      assert [a[0]] + a[1..] == a;
    }
  }

  /** The piece after the last separator. */
  function LastSegment(s: string, sep: char): string {
    var parts := Split(s, sep);
    parts[|parts| - 1]
  }

  lemma LastSegmentOf(a: string, sep: char, b: string)
    requires sep !in b
    ensures LastSegment(a + [sep] + b, sep) == b
  {
    SplitConcat(a, sep, b);
    SplitNone(b, sep);
  }

  lemma {:induction false} CutAtLast(s: string, sep: char) returns (before: string, after: string)
    requires sep in s
    ensures s == before + [sep] + after && sep !in after
  {
    var n := |s| - 1;
    if s[n] == sep {
      before, after := s[..n], [];
    } else {
      assert s == s[..n] + [s[n]];
      before, after := CutAtLast(s[..n], sep);
      after := after + [s[n]];
    }
  }

  /** The last segment holds no separator, and stands at the end, behind one or alone. */
  lemma LastSegmentExactly(s: string, sep: char, t: string)
    ensures LastSegment(s, sep) == t <==> sep !in t && (s == t || exists a :: s == a + [sep] + t)
  {
    if sep in s {
      var before, after := CutAtLast(s, sep);
      LastSegmentOf(before, sep, after);
    } else {
      SplitNone(s, sep);
    }
    if a :| s == a + [sep] + t && sep !in t { LastSegmentOf(a, sep, t); }
  }
}
