/**
 The two string operations of Go's `strings` package that the converter relies
 on: `strings.Split` with a one-character separator (used on the layer list and
 on each range token) and `strings.TrimSpace` (applied to every CSV cell).
 Strings are sequences of Unicode scalar values; Go's byte-level handling of
 invalid UTF-8 is not represented.
 */
module GoText {

  /** Go's `unicode.IsSpace`: the Latin-1 spaces and the other code points with
      the Unicode White_Space property. */
  predicate IsSpace(c: char)
  {
    || c == ' ' || c == '\t' || c == '\n' || c == '\U{000B}' || c == '\U{000C}' || c == '\r'
    || c == '\U{0085}' || c == '\U{00A0}' || c == '\U{1680}'
    || ('\U{2000}' <= c <= '\U{200A}')
    || c == '\U{2028}' || c == '\U{2029}' || c == '\U{202F}' || c == '\U{205F}' || c == '\U{3000}'
  }

  predicate AllSpace(s: string)
  {
    forall k :: 0 <= k < |s| ==> IsSpace(s[k])
  }

  /** A string with no white space at either end: what `TrimSpace` produces. */
  predicate Trimmed(s: string)
  {
    s == [] || (!IsSpace(s[0]) && !IsSpace(s[|s| - 1]))
  }

  /** Length of the longest all-space prefix. */
  function LeadingSpaces(s: string): (n: nat)
    ensures n <= |s|
    ensures AllSpace(s[..n])
    ensures n == |s| || !IsSpace(s[n])
  {
    if |s| > 0 && IsSpace(s[0]) then 1 + LeadingSpaces(s[1..]) else 0
  }

  /** Length of the longest all-space suffix. */
  function TrailingSpaces(s: string): (n: nat)
    ensures n <= |s|
    ensures AllSpace(s[|s| - n..])
    ensures n == |s| || !IsSpace(s[|s| - n - 1])
  {
    if |s| > 0 && IsSpace(s[|s| - 1]) then 1 + TrailingSpaces(s[..|s| - 1]) else 0
  }

  /** `strings.TrimSpace`: `s` with all leading and trailing white space removed.
      The result is the infix of `s` left after dropping the longest all-space
      prefix and an all-space suffix, and it neither starts nor ends with white
      space. */
  function TrimSpace(s: string): (r: string)
    ensures Trimmed(r)
    ensures LeadingSpaces(s) + |r| <= |s|
    ensures r == s[LeadingSpaces(s)..LeadingSpaces(s) + |r|]
    ensures AllSpace(s[..LeadingSpaces(s)]) && AllSpace(s[LeadingSpaces(s) + |r|..])
  {
    var a := LeadingSpaces(s);
    var rest := s[a..];
    var b := TrailingSpaces(rest);
    InfixIsSlice(s, a, rest, b);
    InfixTrimmed(s, a, rest, b);
    InfixTailSpace(s, a, rest, b);
    rest[..|rest| - b]
  }

  /** The part of the rest before its trailing spaces is the slice of `s` from `a`. */
  lemma InfixIsSlice(s: string, a: nat, rest: string, b: nat)
    requires a <= |s| && rest == s[a..] && b <= |rest|
    ensures s[a..a + |rest| - b] == rest[..|rest| - b]
  {
  }

  /** What is left between the leading spaces and the trailing spaces of the
      rest has no white space at either end. */
  lemma InfixTrimmed(s: string, a: nat, rest: string, b: nat)
    requires a == LeadingSpaces(s) && rest == s[a..] && b == TrailingSpaces(rest)
    ensures Trimmed(rest[..|rest| - b])
  {
    var r := rest[..|rest| - b];
    if r != [] {
      assert r[0] == s[a];
      assert r[|r| - 1] == rest[|rest| - b - 1];
    }
  }

  /** What follows it is all space. */
  lemma InfixTailSpace(s: string, a: nat, rest: string, b: nat)
    requires a <= |s| && rest == s[a..] && b == TrailingSpaces(rest)
    ensures AllSpace(s[a + |rest| - b..])
  {
    assert s[a + |rest| - b..] == rest[|rest| - b..];
  }

  lemma TrimSpaceEmpty()
    ensures TrimSpace([]) == []
  {
  }

  /** Trimming leaves a string without edge white space unchanged, and changes
      every other string. */
  lemma TrimSpaceFixedPoints(s: string)
    ensures TrimSpace(s) == s <==> Trimmed(s)
  {
    if Trimmed(s) && s != [] {
      assert LeadingSpaces(s) == 0;
      assert TrailingSpaces(s) == 0;
    }
  }

  /** Trimming twice is trimming once. */
  lemma TrimSpaceIdempotent(s: string)
    ensures TrimSpace(TrimSpace(s)) == TrimSpace(s)
  {
    TrimSpaceFixedPoints(TrimSpace(s));
  }

  /** Position of the first `c` in `s`. */
  function IndexOf(s: string, c: char): (i: nat)
    requires c in s
    ensures i < |s| && s[i] == c && c !in s[..i]
  {
    if s[0] == c then 0 else 1 + IndexOf(s[1..], c)
  }

  /** `strings.Join(parts, string(sep))`. */
  function Join(parts: seq<string>, sep: char): string
  {
    if |parts| == 0 then ""
    else if |parts| == 1 then parts[0]
    else parts[0] + [sep] + Join(parts[1..], sep)
  }

  /** `strings.Split(s, string(sep))`: the pieces of `s` between occurrences of
      `sep`. There is always at least one piece (the empty string splits into
      one empty piece), there is more than one exactly when `s` holds the
      separator, no piece contains the separator, and joining the pieces back
      gives `s`. */
  function Split(s: string, sep: char): (parts: seq<string>)
    ensures |parts| >= 1
    ensures sep in s <==> |parts| > 1
    ensures forall k :: 0 <= k < |parts| ==> sep !in parts[k]
    ensures Join(parts, sep) == s
    decreases |s|
  {
    if sep !in s then
      [s]
    else
      var i := IndexOf(s, sep);
      var head, tail := s[..i], Split(s[i + 1..], sep);
      JoinCons(head, tail, sep);
      assert s == head + [sep] + s[i + 1..];
      var parts := [head] + tail;
      assert forall k :: 1 <= k < |parts| ==> parts[k] == tail[k - 1];
      parts
  }

  /** The first piece of a split is the text before the first separator, or
      all of the text when there is none. */
  lemma SplitHead(s: string, sep: char)
    ensures Split(s, sep)[0] == if sep in s then s[..IndexOf(s, sep)] else s
  {
  }

  /** The second piece of a split is the first piece of what follows the
      first separator. */
  lemma SplitSecond(s: string, sep: char)
    requires sep in s
    ensures Split(s, sep)[1] == Split(s[IndexOf(s, sep) + 1..], sep)[0]
  {
  }

  lemma {:induction false} JoinCons(p: string, ps: seq<string>, sep: char)
    requires |ps| > 0
    ensures Join([p] + ps, sep) == p + [sep] + Join(ps, sep)
  {
    assert ([p] + ps)[1..] == ps;
  }

  /** Splitting undoes joining, when no piece contains the separator. */
  lemma {:induction false} SplitJoin(parts: seq<string>, sep: char)
    requires |parts| > 0
    requires forall k :: 0 <= k < |parts| ==> sep !in parts[k]
    ensures Split(Join(parts, sep), sep) == parts
    decreases |parts|
  {
    if |parts| > 1 {
      var p, rest := parts[0], parts[1..];
      var s := Join(parts, sep);
      var t := Join(rest, sep);
      assert s == p + [sep] + t;
      assert sep in s by {
        assert s[|p|] == sep;
      }
      assert IndexOf(s, sep) == |p| by {
        assert s[..|p|] == p;
        IndexOfIsFirst(s, sep, |p|);
      }
      assert s[|p| + 1..] == t;
      SplitJoin(rest, sep);
      assert Split(s, sep) == [p] + Split(t, sep);
      assert parts == [p] + rest;
    }
  }

  lemma IndexOfIsFirst(s: string, c: char, i: nat)
    requires i < |s| && s[i] == c && c !in s[..i]
    ensures IndexOf(s, c) == i
    decreases i
  {
    if i > 0 {
      assert s[1..][..i - 1] == s[1..i];
      IndexOfIsFirst(s[1..], c, i - 1);
    }
  }

  /** Joining two non-empty piece lists puts one separator between them. */
  lemma {:induction false} JoinAppend(ps: seq<string>, qs: seq<string>, sep: char)
    requires |ps| > 0 && |qs| > 0
    ensures Join(ps + qs, sep) == Join(ps, sep) + [sep] + Join(qs, sep)
    decreases |ps|
  {
    if |ps| == 1 {
      JoinCons(ps[0], qs, sep);
    } else {
      assert (ps + qs) == [ps[0]] + (ps[1..] + qs);
      JoinCons(ps[0], ps[1..] + qs, sep);
      JoinAppend(ps[1..], qs, sep);
    }
  }

  /** Splitting `a + sep + b` splits `a` and `b` independently: the pieces keep
      their left-to-right order. */
  lemma SplitAppend(a: string, b: string, sep: char)
    ensures Split(a + [sep] + b, sep) == Split(a, sep) + Split(b, sep)
  {
    var ps, qs := Split(a, sep), Split(b, sep);
    JoinAppend(ps, qs, sep);
    SplitJoin(ps + qs, sep);
  }
}
