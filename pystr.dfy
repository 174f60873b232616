/** The Python string operations the classifier relies on: `sep.join(parts)` and
    `s.strip()` with no argument, which removes the characters for which `str.isspace()`
    holds. `s.split(sep)` on one character is here only to read the joined label block
    back line by line. */
module PyStr {

  /** Python's `str.isspace()` on one character: the ASCII controls TAB..CR and FS..US,
      SPACE, NEXT LINE, NO-BREAK SPACE, the Unicode space separators (category Zs) and
      LINE SEPARATOR and PARAGRAPH SEPARATOR (U+2028, U+2029). */
  predicate IsSpace(c: char) {
    ('\t' <= c <= '\r') || ('\U{1C}' <= c <= '\U{1F}') || c == ' ' || c == '\U{85}' || c == '\U{A0}'
    || c == '\U{1680}' || ('\U{2000}' <= c <= '\U{200A}') || c == '\U{2028}' || c == '\U{2029}'
    || c == '\U{202F}' || c == '\U{205F}' || c == '\U{3000}'
  }

  predicate AllSpace(s: string) {
    forall k :: 0 <= k < |s| ==> IsSpace(s[k])
  }

  /** Neither the first nor the last character is whitespace (vacuous for ""). */
  predicate NoEdgeSpace(s: string) {
    |s| > 0 ==> !IsSpace(s[0]) && !IsSpace(s[|s| - 1])
  }

  // ---------------------------------------------------------------- join / split

  /** `sep.join(parts)`. */
  function Join(sep: string, parts: seq<string>): (r: string) {
    if |parts| == 0 then ""
    else if |parts| == 1 then parts[0]
    else parts[0] + sep + Join(sep, parts[1..])
  }

  /** `s.split(sep)` for a one-character separator: never empty, `"".split(sep) == [""]`. */
  function Split(sep: char, s: string): (r: seq<string>)
    ensures |r| >= 1
    ensures forall i :: 0 <= i < |r| ==> sep !in r[i]
  {
    if |s| == 0 then [""]
    else
      var rest := Split(sep, s[1..]);
      if s[0] == sep then [""] + rest
      else [[s[0]] + rest[0]] + rest[1..]
  }

  /** Splitting a piece that holds no separator gives the piece itself. */
  lemma {:induction false} SplitNoSep(sep: char, p: string)
    requires sep !in p
    ensures Split(sep, p) == [p]
  {
    if |p| > 0 {
      SplitNoSep(sep, p[1..]);
      assert [p[0]] + p[1..] == p;
    }
  }

  /** A piece without separator followed by a separator is split off as one element. */
  lemma {:induction false} SplitHead(sep: char, p: string, rest: string)
    requires sep !in p
    ensures Split(sep, p + [sep] + rest) == [p] + Split(sep, rest)
  {
    if |p| == 0 {
      assert p + [sep] + rest == [sep] + rest;
      assert ([sep] + rest)[1..] == rest;
    } else {
      var s := p + [sep] + rest;
      assert s[1..] == p[1..] + [sep] + rest;
      SplitHead(sep, p[1..], rest);
      assert [p[0]] + p[1..] == p;
    }
  }

  /** Round trip: splitting a join recovers the parts when no part holds the separator. */
  lemma {:induction false} SplitJoin(sep: char, parts: seq<string>)
    requires |parts| >= 1
    requires forall i :: 0 <= i < |parts| ==> sep !in parts[i]
    ensures Split(sep, Join([sep], parts)) == parts
  {
    if |parts| == 1 {
      SplitNoSep(sep, parts[0]);
    } else {
      SplitJoin(sep, parts[1..]);
      SplitHead(sep, parts[0], Join([sep], parts[1..]));
    }
  }

  // ---------------------------------------------------------------- strip

  /** Number of whitespace characters at the front of `s`. */
  function LeadingSpace(s: string): (n: nat)
    ensures n <= |s|
    ensures forall k :: 0 <= k < n ==> IsSpace(s[k])
    ensures n < |s| ==> !IsSpace(s[n])
  {
    if |s| > 0 && IsSpace(s[0]) then 1 + LeadingSpace(s[1..]) else 0
  }

  /** Number of whitespace characters at the back of `s`. */
  function TrailingSpace(s: string): (n: nat)
    ensures n <= |s|
    ensures forall k :: |s| - n <= k < |s| ==> IsSpace(s[k])
    ensures n < |s| ==> !IsSpace(s[|s| - 1 - n])
  {
    if |s| > 0 && IsSpace(s[|s| - 1]) then 1 + TrailingSpace(s[..|s| - 1]) else 0
  }

  /** `s.strip()`: the leading whitespace is dropped, then the trailing whitespace. */
  function Strip(s: string): (r: string)
    ensures |r| <= |s|
    ensures NoEdgeSpace(r)
  {
    var t := s[LeadingSpace(s)..];
    t[..|t| - TrailingSpace(t)]
  }

  /** What `strip()` returns is a contiguous slice of its input, and everything it removed
      on either side is whitespace. */
  lemma StripIsSlice(s: string)
    ensures exists i, j :: 0 <= i <= j <= |s| && Strip(s) == s[i..j] && AllSpace(s[..i]) && AllSpace(s[j..])
  {
    var i := LeadingSpace(s);
    var t := s[i..];
    var j := i + |t| - TrailingSpace(t);
    assert Strip(s) == s[i..j];
    assert AllSpace(s[j..]) by {
      forall k | 0 <= k < |s| - j ensures IsSpace(s[j..][k]) { assert s[j..][k] == t[|t| - TrailingSpace(t) + k]; }
    }
  }

  /** Reference characterisation: any slice that removes only whitespace and keeps no
      whitespace at its edges IS the result of `strip()`; with StripIsSlice this pins
      `Strip` down completely. */
  lemma StripUnique(s: string, i: nat, j: nat)
    requires i <= j <= |s|
    requires AllSpace(s[..i]) && AllSpace(s[j..]) && NoEdgeSpace(s[i..j])
    ensures Strip(s) == s[i..j]
  {
  }

  /** A string with no whitespace at its edges is left unchanged by `strip()`. */
  lemma StripKeepsTrimmed(s: string)
    requires NoEdgeSpace(s)
    ensures Strip(s) == s
  {
    StripUnique(s, 0, |s|);
    assert s[0..|s|] == s;
  }

  /** `strip()` is idempotent. */
  lemma StripIdempotent(s: string)
    ensures Strip(Strip(s)) == Strip(s)
  {
    StripKeepsTrimmed(Strip(s));
  }
}
