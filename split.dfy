/**
 * Splitting a string on a one-character separator, with the semantics of
 * Python's `str.split(sep)` when a separator is given: the result always has
 * at least one segment, adjacent separators produce empty segments, a leading
 * or trailing separator produces an empty first or last segment, and nothing
 * is trimmed.  `Join` is the inverse, `sep.join(parts)`.
 */
module Splitting {

  /** Number of occurrences of `c` in `s`. */
  function Occurrences(s: string, c: char): nat
  {
    if s == [] then 0
    else (if s[0] == c then 1 else 0) + Occurrences(s[1..], c)
  }

  /** `parts` glued together with one `sep` between neighbours. */
  function Join(parts: seq<string>, sep: char): string
    requires |parts| >= 1
  {
    if |parts| == 1 then parts[0]
    else parts[0] + [sep] + Join(parts[1..], sep)
  }

  /** True when no segment of `parts` contains `sep`. */
  predicate SeparatorFree(parts: seq<string>, sep: char)
  {
    forall i :: 0 <= i < |parts| ==> sep !in parts[i]
  }

  /**
   * The segments of `s` between occurrences of `sep`.  The result is never
   * empty, no segment contains the separator, and joining the segments back
   * gives `s` unchanged.
   */
  function Split(s: string, sep: char): (r: seq<string>)
    ensures |r| >= 1
    ensures SeparatorFree(r, sep)
    ensures Join(r, sep) == s
  {
    if s == [] then [""]
    else if s[0] == sep then
      var rest := Split(s[1..], sep);
      assert ([""] + rest)[1..] == rest;
      [""] + rest
    else
      var rest := Split(s[1..], sep);
      var r := [[s[0]] + rest[0]] + rest[1..];
      assert |rest| > 1 ==> r[1..] == rest[1..];
      assert Join(r, sep) == [s[0]] + Join(rest, sep);
      assert s == [s[0]] + s[1..];
      r
  }

  /** Splitting yields one more segment than there are separators. */
  lemma {:induction false} SplitLength(s: string, sep: char)
    ensures |Split(s, sep)| == Occurrences(s, sep) + 1
  {
    if s != [] {
      SplitLength(s[1..], sep);
    }
  }

  /** The first segment is empty exactly when `s` is empty or starts with `sep`. */
  lemma FirstSegmentEmpty(s: string, sep: char)
    ensures Split(s, sep)[0] == "" <==> (s == "" || s[0] == sep)
  {
  }

  /** A string without the separator is a single segment. */
  lemma {:induction false} SplitSeparatorFree(s: string, sep: char)
    requires sep !in s
    ensures Split(s, sep) == [s]
  {
    if s != [] {
      assert sep !in s[1..];
      SplitSeparatorFree(s[1..], sep);
    }
  }

  /** A separator-free prefix followed by the separator is split off as one segment. */
  lemma {:induction false} SplitAfterSegment(a: string, sep: char, b: string)
    requires sep !in a
    ensures Split(a + [sep] + b, sep) == [a] + Split(b, sep)
  {
    if a == [] {
      assert a + [sep] + b == [sep] + b;
      assert ([sep] + b)[1..] == b;
    } else {
      assert sep !in a[1..];
      SplitAfterSegment(a[1..], sep, b);
      assert (a + [sep] + b)[1..] == a[1..] + [sep] + b;
      assert ([a[1..]] + Split(b, sep))[0] == a[1..];
      assert ([a[1..]] + Split(b, sep))[1..] == Split(b, sep);
      assert [a[0]] + a[1..] == a;
    }
  }

  /**
   * Splitting inverts joining: separator-free segments joined with `sep`
   * split back into exactly those segments.  Together with Split's own
   * contract, Split and Join are mutually inverse.
   */
  lemma {:induction false} SplitJoin(parts: seq<string>, sep: char)
    requires |parts| >= 1
    requires SeparatorFree(parts, sep)
    ensures Split(Join(parts, sep), sep) == parts
  {
    if |parts| == 1 {
      assert sep !in parts[0];
      SplitSeparatorFree(parts[0], sep);
    } else {
      assert sep !in parts[0];
      assert SeparatorFree(parts[1..], sep) by {
        forall i | 0 <= i < |parts[1..]| ensures sep !in parts[1..][i] {
          assert parts[1..][i] == parts[i + 1];
        }
      }
      SplitJoin(parts[1..], sep);
      SplitAfterSegment(parts[0], sep, Join(parts[1..], sep));
      assert [parts[0]] + parts[1..] == parts;
    }
  }

  /** Split is determined by its contract: any separator-free decomposition of `s` is Split(s). */
  lemma SplitUnique(s: string, sep: char, parts: seq<string>)
    requires |parts| >= 1
    requires SeparatorFree(parts, sep)
    requires Join(parts, sep) == s
    ensures parts == Split(s, sep)
  {
    SplitJoin(parts, sep);
  }
}
