/**
 * The pieces of Python's `str` API that the blog's content pipeline uses:
 * `isspace`/`strip`, `startswith`/`endswith`, `find`, `split` with and
 * without a limit, `rsplit(' ', 1)` and ASCII `lower`. Strings are
 * sequences of Unicode scalar values, as Python strings are sequences of
 * code points.
 */
module Text {
  import opened Wrappers

  /** The characters for which Python's `str.isspace()` holds; `str.strip()`
      removes exactly these, and the regular-expression class `\s` matches them. */
  predicate IsSpace(c: char) {
    ('\t' <= c <= '\r') || ('\U{1C}' <= c <= ' ') || c == '\U{85}' || c == '\U{A0}'
    || c == '\U{1680}' || ('\U{2000}' <= c <= '\U{200A}') || c == '\U{2028}' || c == '\U{2029}'
    || c == '\U{202F}' || c == '\U{205F}' || c == '\U{3000}'
  }

  /** `str.lstrip()` */
  function TrimLeft(s: string): (r: string)
    ensures |r| <= |s|
    ensures r == [] || !IsSpace(r[0])
  {
    if s != [] && IsSpace(s[0]) then TrimLeft(s[1..]) else s
  }

  /** lstrip removes a prefix, and only whitespace. */
  lemma {:induction false} TrimLeftDropsSpaces(s: string)
    ensures TrimLeft(s) == s[|s| - |TrimLeft(s)|..]
    ensures forall i :: 0 <= i < |s| - |TrimLeft(s)| ==> IsSpace(s[i])
  {
    if s != [] && IsSpace(s[0]) {
      TrimLeftDropsSpaces(s[1..]);
    }
  }

  /** `str.rstrip()` */
  function TrimRight(s: string): (r: string)
    ensures |r| <= |s|
    ensures r == [] || !IsSpace(r[|r| - 1])
  {
    if s != [] && IsSpace(s[|s| - 1]) then TrimRight(s[..|s| - 1]) else s
  }

  /** rstrip removes a suffix, and only whitespace. */
  lemma {:induction false} TrimRightDropsSpaces(s: string)
    ensures TrimRight(s) == s[..|TrimRight(s)|]
    ensures forall i :: |TrimRight(s)| <= i < |s| ==> IsSpace(s[i])
  {
    if s != [] && IsSpace(s[|s| - 1]) {
      TrimRightDropsSpaces(s[..|s| - 1]);
    }
  }

  /** Neither the first nor the last character is whitespace. */
  predicate Trimmed(t: string) {
    t == [] || (!IsSpace(t[0]) && !IsSpace(t[|t| - 1]))
  }

  /** `str.strip()`: the longest infix of `s` that neither starts nor ends with whitespace. */
  function Strip(s: string): (r: string)
    ensures r == [] || (!IsSpace(r[0]) && !IsSpace(r[|r| - 1]))
  {
    var l := TrimLeft(s);
    TrimRightDropsSpaces(l);
    TrimRight(l)
  }

  /** Strip removes exactly the whitespace at both ends: what it keeps is a
      contiguous piece of its input, with only whitespace before and after it. */
  lemma StripIsInfix(s: string)
    ensures exists i :: && OccursAt(s, Strip(s), i)
                        && (forall k :: 0 <= k < i ==> IsSpace(s[k]))
                        && (forall k :: i + |Strip(s)| <= k < |s| ==> IsSpace(s[k]))
  {
    var l := TrimLeft(s);
    TrimLeftDropsSpaces(s);
    TrimRightDropsSpaces(l);
    var i, q := |s| - |l|, Strip(s);
    assert q == TrimRight(l);
    SpacesAround(s, l, q, i);
  }

  /** A prefix `q` of the suffix `l` of `s` that starts at `i`, with only
      whitespace around it, occurs in `s` at `i` with only whitespace around it. */
  lemma SpacesAround(s: string, l: string, q: string, i: nat)
    requires i <= |s| && l == s[i..] && |q| <= |l| && q == l[..|q|]
    requires forall k :: 0 <= k < i ==> IsSpace(s[k])
    requires forall k :: |q| <= k < |l| ==> IsSpace(l[k])
    ensures && OccursAt(s, q, i)
            && (forall k :: 0 <= k < i ==> IsSpace(s[k]))
            && (forall k :: i + |q| <= k < |s| ==> IsSpace(s[k]))
  {
    assert s[i..i + |q|] == q;
    forall k | i + |q| <= k < |s| ensures IsSpace(s[k]) {
      assert s[k] == l[k - i];
    }
  }

  /** Stripping a string keeps out any character it did not contain. */
  lemma StripKeepsOut(s: string, c: char)
    requires c !in s
    ensures c !in Strip(s)
  {
    StripIsInfix(s);
    var q := Strip(s);
    var i :| OccursAt(s, q, i);
    forall k | 0 <= k < |q| ensures q[k] != c {
      assert q[k] == s[i..i + |q|][k] == s[i + k];
    }
  }

  /** Upper-case ASCII letters lowered; every other character unchanged. */
  function LowerChar(c: char): (r: char)
    ensures 'A' <= c <= 'Z' ==> r as int == c as int + 32
    ensures !('A' <= c <= 'Z') ==> r == c
  {
    if 'A' <= c <= 'Z' then (c as int + 32) as char else c
  }

  /** `str.lower()` restricted to ASCII. */
  function Lower(s: string): (r: string)
    ensures |r| == |s|
    ensures forall i :: 0 <= i < |s| ==> r[i] == LowerChar(s[i])
  {
    if s == [] then [] else [LowerChar(s[0])] + Lower(s[1..])
  }

  predicate StartsWith(s: string, prefix: string) {
    |prefix| <= |s| && s[..|prefix|] == prefix
  }

  predicate EndsWith(s: string, suffix: string) {
    |suffix| <= |s| && s[|s| - |suffix|..] == suffix
  }

  /** `pat` occurs in `s` starting at index `i`. */
  predicate OccursAt(s: string, pat: string, i: int) {
    0 <= i && i + |pat| <= |s| && s[i..i + |pat|] == pat
  }

  /** Python's `pat in s` for a non-empty `pat`. */
  predicate Contains(s: string, pat: string) {
    exists i :: 0 <= i <= |s| && OccursAt(s, pat, i)
  }

  function FindFrom(s: string, pat: string, from: nat): (r: Option<nat>)
    requires from <= |s|
    ensures r.Some? ==> from <= r.value && OccursAt(s, pat, r.value)
    ensures forall j :: from <= j && (r.None? || j < r.value) ==> !OccursAt(s, pat, j)
    decreases |s| - from
  {
    if from + |pat| > |s| then None
    else if s[from..from + |pat|] == pat then Some(from)
    else FindFrom(s, pat, from + 1)
  }

  /** `s.find(pat)`: the first index at which `pat` occurs, if any. */
  function Find(s: string, pat: string): (r: Option<nat>)
    ensures r.Some? ==> OccursAt(s, pat, r.value)
    ensures forall j :: 0 <= j && (r.None? || j < r.value) ==> !OccursAt(s, pat, j)
    ensures r.None? <==> !Contains(s, pat)
  {
    FindFrom(s, pat, 0)
  }

  /** The text before the first occurrence of `pat` does not contain it. */
  lemma FindPrefixFree(s: string, pat: string)
    requires pat != [] && Find(s, pat).Some?
    ensures !Contains(s[..Find(s, pat).value], pat)
  {
    var h := s[..Find(s, pat).value];
    forall j | 0 <= j <= |h| ensures !OccursAt(h, pat, j) {
      if OccursAt(h, pat, j) {
        assert h[j..j + |pat|] == s[j..j + |pat|];
        assert OccursAt(s, pat, j);
      }
    }
  }

  /** No occurrence of `pat` starts before its first one, even one running on
      into it: the text before the first occurrence, followed by all but the
      last character of `pat`, does not contain `pat`. */
  lemma FindLeftmost(s: string, pat: string)
    requires pat != [] && Find(s, pat).Some?
    ensures !Contains(s[..Find(s, pat).value] + pat[..|pat| - 1], pat)
  {
    var i := Find(s, pat).value;
    var h := s[..i] + pat[..|pat| - 1];
    assert h == s[..i + |pat| - 1];
    forall j | 0 <= j <= |h| ensures !OccursAt(h, pat, j) {
      if OccursAt(h, pat, j) {
        assert h[j..j + |pat|] == s[j..j + |pat|];
        assert OccursAt(s, pat, j);
      }
    }
  }

  /** The pieces joined back together with `sep` between neighbours (`sep.join(parts)`). */
  function Join(sep: string, parts: seq<string>): string {
    if parts == [] then ""
    else if |parts| == 1 then parts[0]
    else parts[0] + sep + Join(sep, parts[1..])
  }

  /** Joining a piece in front of at least one more puts `sep` after it. */
  lemma JoinCons(sep: string, head: string, rest: seq<string>)
    requires rest != []
    ensures Join(sep, [head] + rest) == head + sep + Join(sep, rest)
  {
    assert ([head] + rest)[1..] == rest;
  }

  /** A string is what comes before an occurrence of `pat`, `pat`, and what comes after. */
  lemma SplitAround(s: string, pat: string, i: nat)
    requires OccursAt(s, pat, i)
    ensures s == s[..i] + pat + s[i + |pat|..]
  {
    assert s == s[..i] + s[i..i + |pat|] + s[i + |pat|..];
  }

  /** `s.split(sep, limit)`: split at the leftmost non-overlapping occurrences
      of `sep`, at most `limit` times; the rest of the string is the last piece.
      Each cut is at the leftmost occurrence in what is left: no occurrence
      starts inside a piece before the last, not even one that runs on into
      the separator after it. */
  function SplitN(s: string, sep: string, limit: nat): (parts: seq<string>)
    requires sep != []
    ensures 1 <= |parts| <= limit + 1
    ensures Join(sep, parts) == s
    ensures forall k :: 0 <= k < |parts| - 1 ==> !Contains(parts[k] + sep[..|sep| - 1], sep)
    ensures |parts| <= limit ==> !Contains(parts[|parts| - 1], sep)
    decreases limit
  {
    if limit == 0 then [s]
    else match Find(s, sep)
      case None => [s]
      case Some(i) =>
        FindLeftmost(s, sep);
        var rest := SplitN(s[i + |sep|..], sep, limit - 1);
        JoinCons(sep, s[..i], rest);
        SplitAround(s, sep, i);
        [s[..i]] + rest
  }

  /** `s.split(c)` for a one-character separator, without a limit: the
      pieces hold no `c`, and joined with `c` they give `s` back. */
  function SplitOn(s: string, c: char): (parts: seq<string>)
    ensures |parts| >= 1
    ensures forall k :: 0 <= k < |parts| ==> c !in parts[k]
    ensures Join([c], parts) == s
    decreases |s|
  {
    match Find(s, [c])
    case None =>
      assert forall j :: 0 <= j < |s| ==> !OccursAt(s, [c], j) && s[j..j + 1] == [s[j]];
      [s]
    case Some(i) =>
      assert forall j :: 0 <= j < i ==> !OccursAt(s, [c], j) && s[j..j + 1] == [s[j]];
      var rest := SplitOn(s[i + 1..], c);
      JoinCons([c], s[..i], rest);
      SplitAround(s, [c], i);
      [s[..i]] + rest
  }

  /** Index of the first occurrence of `c`, which must occur. */
  function IndexOf(s: string, c: char): (i: nat)
    requires c in s
    ensures i < |s| && s[i] == c && c !in s[..i]
  {
    if s[0] == c then 0 else IndexOf(s[1..], c) + 1
  }

  /** Index of the last occurrence of `c`, which must occur. */
  function LastIndexOf(s: string, c: char): (i: nat)
    requires c in s
    ensures i < |s| && s[i] == c && c !in s[i + 1..]
  {
    if s[|s| - 1] == c then |s| - 1 else LastIndexOf(s[..|s| - 1], c)
  }
}
