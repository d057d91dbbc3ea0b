/**
 * The text and date helpers of utils/__init__.py: `slugify`, `format_date`,
 * `truncate_text`, `is_markdown_file`, `get_reading_time` and
 * `validate_markdown_frontmatter`. All of them are pure functions of their
 * arguments.
 */
module Utils {
  import opened Wrappers
  import opened Text
  import opened Dates
  import opened Meta

  // ---- slugify ----

  /** The characters the model treats as `\w`: ASCII letters, digits, '_'
      and the CJK unified ideographs. */
  predicate IsWordChar(c: char) {
    ('a' <= c <= 'z') || ('A' <= c <= 'Z') || ('0' <= c <= '9') || c == '_'
    || ('\U{4E00}' <= c <= '\U{9FFF}')
  }

  /** Characters of the class `[-\s]`. */
  predicate IsSeparator(c: char) {
    c == '-' || IsSpace(c)
  }

  /** A character a lower-cased, filtered text can still hold: a word character that is not an upper-case ASCII letter, or a separator. */
  predicate KeptChar(c: char) {
    (IsWordChar(c) && !('A' <= c <= 'Z')) || IsSeparator(c)
  }

  /** A character a slug can hold. */
  predicate SlugChar(c: char) {
    (IsWordChar(c) && !('A' <= c <= 'Z')) || c == '-'
  }

  predicate NoUpper(s: string) {
    s == [] || (!('A' <= s[0] <= 'Z') && NoUpper(s[1..]))
  }

  predicate AllKept(s: string) {
    s == [] || (KeptChar(s[0]) && AllKept(s[1..]))
  }

  predicate AllSlug(s: string) {
    s == [] || (SlugChar(s[0]) && AllSlug(s[1..]))
  }

  /** No "--" anywhere in `s`. */
  predicate NoDoubleDash(s: string) {
    |s| < 2 || (!(s[0] == '-' && s[1] == '-') && NoDoubleDash(s[1..]))
  }

  /** The word characters of `s`, in order. */
  function WordChars(s: string): string {
    if s == [] then []
    else (if IsWordChar(s[0]) then [s[0]] else []) + WordChars(s[1..])
  }

  lemma {:induction false} WordCharsAppend(a: string, b: string)
    ensures WordChars(a + b) == WordChars(a) + WordChars(b)
  {
    if a == [] {
      assert a + b == b;
    } else {
      var head := if IsWordChar(a[0]) then [a[0]] else [];
      assert (a + b)[0] == a[0];
      assert (a + b)[1..] == a[1..] + b;
      assert WordChars(a + b) == head + WordChars(a[1..] + b);
      WordCharsAppend(a[1..], b);
      assert WordChars(a) == head + WordChars(a[1..]);
    }
  }

  lemma {:induction false} LowerHasNoUpper(s: string)
    ensures NoUpper(Lower(s))
  {
    if s != [] {
      assert Lower(s)[1..] == Lower(s[1..]);
      LowerHasNoUpper(s[1..]);
    }
  }

  /** `re.sub(r'[^\w\s-]', '', s)`: keep word characters, whitespace and '-'. */
  function KeepSlugChars(s: string): (r: string)
    ensures |s| == 1 ==> (r == s <==> IsWordChar(s[0]) || IsSeparator(s[0])) && (r == s || r == [])
    ensures NoUpper(s) ==> AllKept(r)
    ensures WordChars(r) == WordChars(s)
  {
    if s == [] then []
    else if IsWordChar(s[0]) || IsSeparator(s[0]) then
      var r := KeepSlugChars(s[1..]);
      assert ([s[0]] + r)[1..] == r;
      [s[0]] + r
    else KeepSlugChars(s[1..])
  }

  /** The filter works character by character: filtering a concatenation
      filters each part. With the one-character case above, this says the
      result is exactly the input's word characters, whitespace and '-', in order. */
  lemma {:induction false} KeepSlugCharsAppend(a: string, b: string)
    ensures KeepSlugChars(a + b) == KeepSlugChars(a) + KeepSlugChars(b)
  {
    if a == [] {
      assert a + b == b;
    } else {
      assert (a + b)[0] == a[0];
      assert (a + b)[1..] == a[1..] + b;
      KeepSlugCharsAppend(a[1..], b);
    }
  }

  /** Drop the leading run of separators. */
  function DropSeparators(s: string): (r: string)
    ensures |r| <= |s| && r == s[|s| - |r|..]
    ensures r == [] || !IsSeparator(r[0])
    ensures r == [] && s != [] ==> IsSeparator(s[|s| - 1])
    ensures AllKept(s) ==> AllKept(r)
    ensures WordChars(r) == WordChars(s)
  {
    if s != [] && IsSeparator(s[0]) then DropSeparators(s[1..]) else s
  }

  /** Every separator in `s` is a '-'. */
  predicate DashOnly(s: string) {
    s == [] || ((IsSeparator(s[0]) ==> s[0] == '-') && DashOnly(s[1..]))
  }

  /** `re.sub(r'[-\s]+', '-', s)`: every maximal run of separators becomes one '-'. */
  function CollapseSeparators(s: string): (r: string)
    ensures r == [] <==> s == []
    ensures r != [] ==> (r[0] == '-' <==> IsSeparator(s[0]))
    ensures r != [] && !IsSeparator(s[0]) ==> r[0] == s[0]
    ensures DashOnly(r) && NoDoubleDash(r)
    ensures AllKept(s) ==> AllSlug(r)
    decreases |s|
  {
    if s == [] then []
    else if IsSeparator(s[0]) then
      var r := CollapseSeparators(DropSeparators(s[1..]));
      assert ("-" + r)[1..] == r;
      "-" + r
    else
      var r := CollapseSeparators(s[1..]);
      assert ([s[0]] + r)[1..] == r;
      [s[0]] + r
  }

  /** The maximal runs of characters other than '-' and whitespace, in order
      (what `re.findall(r'[^-\s]+', s)` gives). */
  function Words(s: string): (words: seq<string>)
    ensures s != [] && !IsSeparator(s[0]) ==> words != []
    ensures forall k :: 0 <= k < |words| ==> words[k] != []
    decreases |s|
  {
    if s == [] then []
    else if IsSeparator(s[0]) then Words(s[1..])
    else
      var rest := Words(s[1..]);
      if s[1..] != [] && !IsSeparator(s[1]) then [[s[0]] + rest[0]] + rest[1..]
      else [[s[0]]] + rest
  }

  lemma {:induction false} WordsDropSeparators(s: string)
    ensures Words(DropSeparators(s)) == Words(s)
  {
    if s != [] && IsSeparator(s[0]) {
      WordsDropSeparators(s[1..]);
    }
  }

  /** A separator at the end of a text starts no word. */
  lemma {:induction false} WordsDropLast(s: string, c: char)
    requires IsSeparator(c)
    ensures Words(s + [c]) == Words(s)
  {
    if s == [] {
      assert ([] + [c])[1..] == [];
    } else {
      assert (s + [c])[0] == s[0];
      assert (s + [c])[1..] == s[1..] + [c];
      WordsDropLast(s[1..], c);
      if s[1..] != [] {
        assert (s + [c])[1] == s[1];
      }
    }
  }

  /** Collapsing changes the separators only: the words stay as they are, so
      each run of separators between two words becomes exactly one '-'. */
  lemma {:induction false} CollapseKeepsWords(s: string)
    ensures Words(CollapseSeparators(s)) == Words(s)
    decreases |s|
  {
    if s != [] {
      if IsSeparator(s[0]) {
        var d := DropSeparators(s[1..]);
        var r := CollapseSeparators(d);
        CollapseKeepsWords(d);
        WordsDropSeparators(s[1..]);
        assert ("-" + r)[1..] == r;
      } else {
        var r := CollapseSeparators(s[1..]);
        CollapseKeepsWords(s[1..]);
        assert ([s[0]] + r)[1..] == r;
      }
    }
  }

  /** A collapsed text ends with '-' exactly when the text ended with a separator. */
  lemma {:induction false} CollapseEnds(s: string)
    ensures CollapseSeparators(s) != [] ==>
      (CollapseSeparators(s)[|CollapseSeparators(s)| - 1] == '-' <==> IsSeparator(s[|s| - 1]))
    decreases |s|
  {
    if s != [] {
      var head := if IsSeparator(s[0]) then "-" else [s[0]];
      var t := if IsSeparator(s[0]) then DropSeparators(s[1..]) else s[1..];
      var r := CollapseSeparators(t);
      assert CollapseSeparators(s) == head + r;
      if t == [] {
        assert s[1..] != [] ==> IsSeparator(s[|s| - 1]);
      } else {
        CollapseEnds(t);
        assert t[|t| - 1] == s[|s| - 1];
      }
    }
  }

  /** Collapsing keeps every word character, in order. */
  lemma {:induction false} CollapseWordChars(s: string)
    ensures WordChars(CollapseSeparators(s)) == WordChars(s)
    decreases |s|
  {
    if s != [] {
      if IsSeparator(s[0]) {
        var rest := DropSeparators(s[1..]);
        CollapseWordChars(rest);
        WordCharsAppend("-", CollapseSeparators(rest));
      } else {
        CollapseWordChars(s[1..]);
        WordCharsAppend([s[0]], CollapseSeparators(s[1..]));
      }
    }
  }

  lemma {:induction false} SlugPrefix(s: string, k: nat)
    requires k <= |s|
    ensures AllSlug(s) ==> AllSlug(s[..k])
    ensures NoDoubleDash(s) ==> NoDoubleDash(s[..k])
  {
    if k > 0 {
      assert s[..k][1..] == s[1..][..k - 1];
      SlugPrefix(s[1..], k - 1);
    }
  }

  /** `s.strip('-')` */
  function StripDashes(s: string): (r: string)
    ensures r == [] || (r[0] != '-' && r[|r| - 1] != '-')
    ensures AllSlug(s) ==> AllSlug(r)
    ensures NoDoubleDash(s) ==> NoDoubleDash(r)
    ensures WordChars(r) == WordChars(s)
    ensures (s == [] || (s[0] != '-' && s[|s| - 1] != '-')) ==> r == s
  {
    if s != [] && s[0] == '-' then StripDashes(s[1..])
    else if s != [] && s[|s| - 1] == '-' then
      var init := s[..|s| - 1];
      assert s == init + ['-'];
      WordCharsAppend(init, ['-']);
      SlugPrefix(s, |s| - 1);
      StripDashes(init)
    else s
  }

  /** `r` occurs in `s` at `i`, with only `c` before and after it. */
  predicate PaddedBy(s: string, r: string, i: int, c: char) {
    && OccursAt(s, r, i)
    && (forall k :: 0 <= k < i ==> s[k] == c)
    && (forall k :: i + |r| <= k < |s| ==> s[k] == c)
  }

  lemma PaddedCons(s: string, r: string, j: int, c: char)
    requires s != [] && s[0] == c && PaddedBy(s[1..], r, j, c)
    ensures PaddedBy(s, r, j + 1, c)
  {
    var t := s[1..];
    assert s[j + 1..j + 1 + |r|] == t[j..j + |r|];
    forall k | 0 < k < |s| ensures s[k] == t[k - 1] { }
  }

  lemma PaddedSnoc(s: string, r: string, j: int, c: char)
    requires s != [] && s[|s| - 1] == c && PaddedBy(s[..|s| - 1], r, j, c)
    ensures PaddedBy(s, r, j, c)
  {
    var t := s[..|s| - 1];
    assert s[j..j + |r|] == t[j..j + |r|];
    forall k | 0 <= k < |t| ensures s[k] == t[k] { }
  }

  /** `strip('-')` removes exactly the '-' at both ends: what it keeps is a
      contiguous piece of its input, '-' inside included, with only '-'
      before and after it. */
  lemma {:induction false} StripDashesTrims(s: string)
    ensures exists i :: PaddedBy(s, StripDashes(s), i, '-')
    decreases |s|
  {
    var r := StripDashes(s);
    if s != [] && s[0] == '-' {
      StripDashesTrims(s[1..]);
      var j :| PaddedBy(s[1..], r, j, '-');
      PaddedCons(s, r, j, '-');
    } else if s != [] && s[|s| - 1] == '-' {
      StripDashesTrims(s[..|s| - 1]);
      var j :| PaddedBy(s[..|s| - 1], r, j, '-');
      PaddedSnoc(s, r, j, '-');
    } else {
      assert PaddedBy(s, s, 0, '-');
    }
  }

  /** Stripping '-' from the ends keeps the words. */
  lemma {:induction false} WordsStripDashes(s: string)
    ensures Words(StripDashes(s)) == Words(s)
    decreases |s|
  {
    if s != [] && s[0] == '-' {
      WordsStripDashes(s[1..]);
    } else if s != [] && s[|s| - 1] == '-' {
      var init := s[..|s| - 1];
      assert s == init + ['-'];
      WordsDropLast(init, '-');
      WordsStripDashes(init);
    }
  }

  lemma {:induction false} SlugDashOnly(s: string)
    requires AllSlug(s)
    ensures DashOnly(s)
  {
    if s != [] {
      SlugDashOnly(s[1..]);
    }
  }

  /** Putting a character in front of the first piece puts it in front of the join. */
  lemma JoinPrepend(sep: string, c: char, words: seq<string>)
    requires words != []
    ensures Join(sep, [[c] + words[0]] + words[1..]) == [c] + Join(sep, words)
  {
    var w := [[c] + words[0]] + words[1..];
    assert w[1..] == words[1..];
  }

  /** A text made of words with single '-' between them, and no '-' at
      either end, is its words joined by '-'. */
  lemma {:induction false} JoinWords(x: string)
    requires DashOnly(x) && NoDoubleDash(x) && (x == [] || (x[0] != '-' && x[|x| - 1] != '-'))
    ensures Join("-", Words(x)) == x
    decreases |x|
  {
    if x != [] {
      var y := x[1..];
      if y != [] && y[0] != '-' {
        JoinWords(y);
        JoinPrepend("-", x[0], Words(y));
        assert x == [x[0]] + y;
      } else if y != [] {
        var z := y[1..];
        assert z != [] && z[0] == x[2] && z[|z| - 1] == x[|x| - 1];
        JoinWords(z);
        assert Words(y) == Words(z);
        JoinCons("-", [x[0]], Words(z));
        assert x == [x[0]] + "-" + z;
      }
    }
  }

  lemma {:induction false} SlugCharsAt(s: string, i: nat)
    requires AllSlug(s) && i < |s|
    ensures SlugChar(s[i])
  {
    if i > 0 {
      SlugCharsAt(s[1..], i - 1);
    }
  }

  lemma {:induction false} NoDoubleDashAt(s: string, i: nat)
    requires NoDoubleDash(s) && i + 1 < |s|
    ensures !(s[i] == '-' && s[i + 1] == '-')
  {
    if i > 0 {
      NoDoubleDashAt(s[1..], i - 1);
    }
  }

  /** `slugify(text)`: lower-case, drop everything but word characters,
      whitespace and '-', turn each run of '-' and whitespace into one '-',
      and strip '-' from both ends. */
  function Slugify(text: string): (slug: string)
    ensures AllSlug(slug) && NoDoubleDash(slug)
    ensures slug == [] || (slug[0] != '-' && slug[|slug| - 1] != '-')
    ensures WordChars(slug) == WordChars(Lower(text))
  {
    var lowered := Lower(text);
    LowerHasNoUpper(text);
    var kept := KeepSlugChars(lowered);
    assert AllKept(kept) && WordChars(kept) == WordChars(lowered);
    var collapsed := CollapseSeparators(kept);
    CollapseWordChars(kept);
    assert AllSlug(collapsed) && NoDoubleDash(collapsed) && WordChars(collapsed) == WordChars(lowered);
    StripDashes(collapsed)
  }

  /** A slug is the words of the lower-cased text, with everything but word
      characters, whitespace and '-' dropped, joined by '-'. */
  lemma SlugifyJoinsWords(text: string)
    ensures Slugify(text) == Join("-", Words(KeepSlugChars(Lower(text))))
  {
    var kept := KeepSlugChars(Lower(text));
    CollapseKeepsWords(kept);
    WordsStripDashes(CollapseSeparators(kept));
    SlugDashOnly(Slugify(text));
    JoinWords(Slugify(text));
  }

  /** Slugs hold no whitespace, no upper-case ASCII letter and no "--", and
      neither start nor end with '-'. */
  lemma SlugifyShape(text: string)
    ensures var slug := Slugify(text);
      && (forall i :: 0 <= i < |slug| ==> !IsSpace(slug[i]) && !('A' <= slug[i] <= 'Z'))
      && (forall i :: 0 <= i < |slug| ==> IsWordChar(slug[i]) || slug[i] == '-')
      && (forall i :: 0 <= i < |slug| - 1 ==> !(slug[i] == '-' && slug[i + 1] == '-'))
      && (slug == [] || (slug[0] != '-' && slug[|slug| - 1] != '-'))
  {
    SlugShapeAt(Slugify(text));
  }

  /** The recursive slug predicates, stated position by position. */
  lemma SlugShapeAt(slug: string)
    requires AllSlug(slug) && NoDoubleDash(slug)
    ensures forall i :: 0 <= i < |slug| ==> !IsSpace(slug[i]) && !('A' <= slug[i] <= 'Z')
    ensures forall i :: 0 <= i < |slug| ==> IsWordChar(slug[i]) || slug[i] == '-'
    ensures forall i :: 0 <= i < |slug| - 1 ==> !(slug[i] == '-' && slug[i + 1] == '-')
  {
    forall i | 0 <= i < |slug| ensures SlugChar(slug[i]) {
      SlugCharsAt(slug, i);
    }
    forall i | 0 <= i < |slug| - 1 ensures !(slug[i] == '-' && slug[i + 1] == '-') {
      NoDoubleDashAt(slug, i);
    }
  }

  lemma {:induction false} SlugFixedPoints(s: string)
    requires AllSlug(s) && NoDoubleDash(s)
    ensures Lower(s) == s
    ensures KeepSlugChars(s) == s
    ensures CollapseSeparators(s) == s
  {
    SlugLowerFixed(s);
    SlugKeepFixed(s);
    SlugCollapseFixed(s);
  }

  lemma {:induction false} SlugLowerFixed(s: string)
    requires AllSlug(s)
    ensures Lower(s) == s
  {
    if s != [] {
      assert Lower(s) == [LowerChar(s[0])] + Lower(s[1..]);
      SlugLowerFixed(s[1..]);
    }
  }

  lemma {:induction false} SlugKeepFixed(s: string)
    requires AllSlug(s)
    ensures KeepSlugChars(s) == s
  {
    if s != [] {
      SlugKeepFixed(s[1..]);
    }
  }

  lemma {:induction false} SlugCollapseFixed(s: string)
    requires AllSlug(s) && NoDoubleDash(s)
    ensures CollapseSeparators(s) == s
  {
    if s != [] {
      if s[0] == '-' && |s| > 1 {
        assert DropSeparators(s[1..]) == s[1..];
      }
      SlugCollapseFixed(s[1..]);
    }
  }

  /** A slug is its own slug. */
  lemma SlugifyIdempotent(text: string)
    ensures Slugify(Slugify(text)) == Slugify(text)
  {
    SlugFixedPoints(Slugify(text));
  }

  // ---- format_date ----

  /** `format_date(value, format_from, format_to)`. A date object is formatted
      directly; a string is parsed with `format_from` and formatted again, or
      returned unchanged when it does not parse; anything else becomes
      `str(value)`. FormatDateConverts gives the result for a date and for a
      string that spells one. */
  function FormatDate(value: MetaValue, from: ParseFormat, to: OutFormat): (r: string)
    ensures value.Str? && Strptime(value.s, from).None? ==> r == value.s
    ensures value.ListVal? || value.Other? ==> r == Display(value)
  {
    match value
    case DateVal(d) => Strftime(d, to)
    case Str(s) =>
      (match Strptime(s, from)
       case Some(d) => Strftime(d, to)
       case None => s)
    case _ => Display(value)
  }

  /** `format_date` rewrites a date in the output pattern: a date object,
      and a string laying out that date's year, month and day in the input
      pattern (with or without leading zeros on the month and the day), both
      come out as the date written in `to`. */
  lemma FormatDateConverts(d: CalendarDate, from: ParseFormat, to: OutFormat, padMonth: bool, padDay: bool)
    ensures FormatDate(DateVal(d), from, to) == Strftime(d, to)
    ensures FormatDate(Str(Layout(from, FourDigits(d.year), NumText(d.month, padMonth), NumText(d.day, padDay))), from, to)
      == Strftime(d, to)
  {
    ParseRoundTrip(d, from, padMonth, padDay);
  }

  /** A canonical `YYYY-MM-DD` string comes back unchanged from
      `format_date(s, '%Y-%m-%d', '%Y-%m-%d')`, and so does its date object. */
  lemma FormatDateCanonical(d: CalendarDate)
    ensures FormatDate(Str(Strftime(d, IsoDay)), YmdDash, IsoDay) == Strftime(d, IsoDay)
    ensures FormatDate(DateVal(d), YmdDash, IsoDay) == Strftime(d, IsoDay)
  {
    IsoDayRoundTrip(d);
  }

  /** Formatting a string or a date as `%Y-%m-%d` twice gives what formatting it once gives. */
  lemma FormatDateIdempotent(value: MetaValue)
    requires value.Str? || value.DateVal?
    ensures var once := FormatDate(value, YmdDash, IsoDay);
      FormatDate(Str(once), YmdDash, IsoDay) == once
  {
    match value
    case DateVal(d) => IsoDayRoundTrip(d);
    case Str(s) =>
      match Strptime(s, YmdDash)
      case Some(d) => IsoDayRoundTrip(d);
      case None =>
  }

  // ---- truncate_text ----

  /** Where Python's slice `text[:length]` stops, for a text of `n` characters. */
  function SliceStop(n: nat, length: int): (stop: nat)
    ensures stop <= n
    ensures length >= 0 ==> stop == if length < n then length else n
    ensures length < 0 ==> stop == if n + length > 0 then n + length else 0
  {
    if length >= 0 then (if length < n then length else n)
    else if n + length > 0 then n + length else 0
  }

  /** `head.rsplit(' ', 1)[0]`: `head` up to its last space, or all of it when it has none. */
  function BeforeLastSpace(head: string): (kept: string)
    ensures ' ' !in head ==> kept == head
    ensures ' ' in head ==> |kept| < |head| && head[|kept|] == ' ' && ' ' !in head[|kept| + 1..]
    ensures kept == head[..|kept|]
  {
    if ' ' in head then head[..LastIndexOf(head, ' ')] else head
  }

  /** `truncate_text(text, length, suffix)` */
  function TruncateText(text: string, length: int, suffix: string): (r: string)
    ensures |text| <= length ==> r == text
    ensures |text| > length ==> |suffix| <= |r| && r[|r| - |suffix|..] == suffix
    ensures |text| > length && |suffix| <= |r| ==>
      var stop := SliceStop(|text|, length);
      var kept := r[..|r| - |suffix|];
      && |kept| <= stop && kept == text[..|kept|]
      && (' ' !in text[..stop] ==> |kept| == stop)
      && (' ' in text[..stop] ==> |kept| < stop && text[|kept|] == ' ' && ' ' !in text[|kept| + 1..stop])
  {
    if |text| <= length then text
    else
      var head := text[..SliceStop(|text|, length)];
      var kept := BeforeLastSpace(head);
      assert (kept + suffix)[..|kept|] == kept;
      if ' ' in head then
        assert head[|kept| + 1..] == text[|kept| + 1..|head|];
        kept + suffix
      else kept + suffix
  }

  // ---- is_markdown_file ----

  /** `is_markdown_file(filename)`: the name's last three characters are
      ".md", or its last nine are ".markdown", in any mix of case. */
  function IsMarkdownFile(filename: string): (b: bool)
    ensures b <==>
      || (|filename| >= 3 && Lower(filename[|filename| - 3..]) == ".md")
      || (|filename| >= 9 && Lower(filename[|filename| - 9..]) == ".markdown")
  {
    EndsWithLower(filename, ".md");
    EndsWithLower(filename, ".markdown");
    var lowered := Lower(filename);
    EndsWith(lowered, ".md") || EndsWith(lowered, ".markdown")
  }

  /** Lower-casing commutes with taking a suffix. */
  lemma {:induction false} LowerSuffix(s: string, k: nat)
    requires k <= |s|
    ensures Lower(s[|s| - k..]) == Lower(s)[|s| - k..]
  {
    var a, b := Lower(s[|s| - k..]), Lower(s)[|s| - k..];
    forall i | 0 <= i < k ensures a[i] == b[i] {
      assert s[|s| - k..][i] == s[|s| - k + i];
    }
  }

  /** The lower-cased name ends with `suffix` exactly when the name's own
      last characters lower-case to `suffix`. */
  lemma {:induction false} EndsWithLower(s: string, suffix: string)
    ensures EndsWith(Lower(s), suffix) <==> |suffix| <= |s| && Lower(s[|s| - |suffix|..]) == suffix
  {
    var lowered := Lower(s);
    if |suffix| <= |s| {
      LowerSuffix(s, |suffix|);
      assert EndsWith(lowered, suffix) <==> lowered[|s| - |suffix|..] == suffix;
    } else {
      assert !EndsWith(lowered, suffix);
    }
  }

  // ---- get_reading_time ----

  function Abs(x: int): nat {
    if x < 0 then -x else x
  }

  lemma MulMonotone(a: int, b: int, c: nat)
    requires a <= b
    ensures a * c <= b * c
  {
    assert b * c - a * c == (b - a) * c;
  }

  lemma DivMod(num: nat, den: nat)
    requires den > 0
    ensures num == (num / den) * den + num % den && 0 <= num % den < den
    ensures (num / den + 1) * den == (num / den) * den + den
  {
  }

  /** Python's `round(num / den)` for a non-negative quotient: the nearest
      integer, ties to the even one. */
  function RoundHalfEven(num: nat, den: nat): (r: nat)
    requires den > 0
    ensures 2 * Abs(num - r * den) <= den
    ensures 2 * Abs(num - r * den) == den ==> r % 2 == 0
  {
    var q, rem := num / den, num % den;
    DivMod(num, den);
    if 2 * rem < den then
      assert num - q * den == rem;
      q
    else if 2 * rem > den || q % 2 == 1 then
      assert num - (q + 1) * den == rem - den;
      q + 1
    else
      assert num - q * den == rem;
      q
  }

  /** The linear core of the uniqueness argument. */
  lemma CloseIsEqual(num: int, den: int, r: int, m: int, rd: int, md: int)
    requires den > 0
    requires 2 * Abs(num - rd) <= den && (2 * Abs(num - rd) == den ==> r % 2 == 0)
    requires 2 * Abs(num - md) < den || (2 * Abs(num - md) == den && m % 2 == 0)
    requires m >= r + 1 ==> md >= rd + den
    requires m >= r + 2 ==> md >= rd + 2 * den
    requires r >= m + 1 ==> rd >= md + den
    requires r >= m + 2 ==> rd >= md + 2 * den
    ensures m == r
  {
  }

  lemma MulStep(a: int, b: int, c: nat, k: nat)
    requires a + k <= b
    ensures a * c + k * c <= b * c
  {
    MulMonotone(a + k, b, c);
    assert (a + k) * c == a * c + k * c;
  }

  /** Only one integer is that close: any integer within half a unit of the
      quotient, and even when exactly half a unit away, is the rounded value. */
  lemma RoundHalfEvenUnique(num: nat, den: nat, m: nat)
    requires den > 0
    requires 2 * Abs(num - m * den) < den || (2 * Abs(num - m * den) == den && m % 2 == 0)
    ensures m == RoundHalfEven(num, den)
  {
    var r := RoundHalfEven(num, den);
    if m >= r + 1 {
      MulStep(r, m, den, 1);
    }
    if m >= r + 2 {
      MulStep(r, m, den, 2);
    }
    if r >= m + 1 {
      MulStep(m, r, den, 1);
    }
    if r >= m + 2 {
      MulStep(m, r, den, 2);
    }
    CloseIsEqual(num, den, r, m, r * den, m * den);
  }

  /** `max(1, round(n / wpm))` for a character count `n`. */
  function ReadingMinutes(n: nat, wpm: nat): (minutes: nat)
    requires wpm > 0
    ensures minutes >= 1
  {
    var rounded := RoundHalfEven(n, wpm);
    if rounded == 0 then 1 else rounded
  }

  /** The reading time is one minute for fewer than one and a half minutes'
      worth of characters, and otherwise the nearest whole number of minutes,
      the even one on a tie. */
  lemma ReadingMinutesRounds(n: nat, wpm: nat)
    requires wpm > 0
    ensures var minutes := ReadingMinutes(n, wpm);
      && (minutes == 1 <==> 2 * n < 3 * wpm)
      && (minutes > 1 ==> 2 * Abs(n - minutes * wpm) <= wpm)
      && (minutes > 1 && 2 * Abs(n - minutes * wpm) == wpm ==> minutes % 2 == 0)
  {
    var rounded := RoundHalfEven(n, wpm);
    var rw := rounded * wpm;
    if rounded == 1 {
      assert rw == wpm;
    } else if rounded > 1 {
      MulMonotone(2, rounded, wpm);
      assert rw >= 2 * wpm;
    }
  }

  /** `get_reading_time(text, wpm)`: the reading time of the stripped text. */
  function ReadingTime(text: string, wpm: nat): (minutes: nat)
    requires wpm > 0
    ensures minutes >= 1
  {
    ReadingMinutes(|Strip(text)|, wpm)
  }

  /** The reading time of a text is one minute when its stripped length is
      under one and a half minutes' worth of characters, and otherwise the
      whole number of minutes nearest to that length over `wpm`, the even
      one on a tie: `max(1, round(len(text.strip()) / wpm))`. */
  lemma ReadingTimeRounds(text: string, wpm: nat)
    requires wpm > 0
    ensures ReadingTime(text, wpm) == 1 <==> 2 * |Strip(text)| < 3 * wpm
    ensures ReadingTime(text, wpm) > 1 ==> 2 * Abs(|Strip(text)| - ReadingTime(text, wpm) * wpm) <= wpm
    ensures ReadingTime(text, wpm) > 1 && 2 * Abs(|Strip(text)| - ReadingTime(text, wpm) * wpm) == wpm ==>
      ReadingTime(text, wpm) % 2 == 0
  {
    ReadingMinutesRounds(|Strip(text)|, wpm);
  }

  /** Worked examples at the default 200 characters a minute. */
  lemma ReadingTimeExamples()
    ensures ReadingMinutes(0, 200) == 1 && ReadingMinutes(100, 200) == 1
    ensures ReadingMinutes(400, 200) == 2 && ReadingMinutes(500, 200) == 2
    ensures ReadingMinutes(700, 200) == 4
  {
  }

  // ---- validate_markdown_frontmatter ----

  const MissingOpening := "Frontmatter必须以 '---' 开始"
  const Incomplete := "Frontmatter格式不完整"
  const WellFormed := "格式正确"

  datatype Validation = Validation(valid: bool, message: string)

  /** `validate_markdown_frontmatter(content)` */
  function ValidateFrontmatter(content: string): (r: Validation)
    ensures r == Validation(false, MissingOpening) <==> !StartsWith(content, "---")
    ensures r == Validation(false, Incomplete) <==> StartsWith(content, "---") && |SplitN(content, "---", 2)| < 3
    ensures r.valid <==> StartsWith(content, "---") && |SplitN(content, "---", 2)| == 3
    ensures r.valid ==> r.message == WellFormed
  {
    if !StartsWith(content, "---") then Validation(false, MissingOpening)
    else if |SplitN(content, "---", 2)| < 3 then Validation(false, Incomplete)
    else Validation(true, WellFormed)
  }
}
