/**
 * Front-matter values. Python's front matter is duck-typed: YAML may hand
 * back strings, `datetime.date` objects, lists or anything else, and the
 * line parser produces strings. The model makes that a tagged union and
 * spells out `str()` on it, which is how the blog turns such values into
 * text.
 */
module Meta {
  import opened Wrappers
  import opened Text
  import opened Dates

  /** A date that `datetime.date` can hold. */
  type CalendarDate = d: Date | Valid(d) witness Date(1, 1, 1)

  datatype MetaValue =
    | Str(s: string)
    | DateVal(d: CalendarDate)
    | ListVal(items: seq<MetaValue>)
    | Other(text: string)   // any other value (number, boolean, None, mapping), held as its str()

  /** `str(n)` for a natural number. */
  function NatToString(n: nat): (r: string)
    ensures |r| >= 1 && forall i :: 0 <= i < |r| ==> IsDigit(r[i])
  {
    if n < 10 then [DigitChar(n)] else NatToString(n / 10) + [DigitChar(n % 10)]
  }

  /** `str(v)`: a string is itself, a date is its ISO text, and a list is
      the `repr` of its items, between brackets and separated by ", ".
      The text of a date reads back as that date. */
  function Display(v: MetaValue): (r: string)
    ensures v.Str? ==> r == v.s
    ensures v.DateVal? ==> r == Strftime(v.d, IsoDay) && Strptime(r, YmdDash) == Some(v.d)
    ensures v.ListVal? ==> r == "[" + Join(", ", ReprItems(v)) + "]"
    ensures v.ListVal? ==> |r| >= 2 && r[0] == '[' && r[|r| - 1] == ']'
    decreases v, 2
  {
    match v
    case Str(s) => s
    case DateVal(d) => IsoDayRoundTrip(d); Strftime(d, IsoDay)
    case ListVal(items) => ReprList(v)
    case Other(text) => text
  }

  /** `repr(v)` */
  function Repr(v: MetaValue): string
    decreases v, 2
  {
    match v
    case Str(s) => ReprStr(s)
    case DateVal(d) =>
      "datetime.date(" + NatToString(d.year) + ", " + NatToString(d.month) + ", " + NatToString(d.day) + ")"
    case ListVal(_) => ReprList(v)
    case Other(text) => text
  }

  /** The quote `repr` puts around a string: a double quote when the string
      holds a single quote and no double quote, else a single quote. */
  function QuoteFor(s: string): char {
    if '\'' in s && '"' !in s then '"' else '\''
  }

  /** The characters up to U+00FF that `str.isprintable()` rejects: the C0
      and C1 controls, DEL, the no-break space and the soft hyphen. */
  predicate Unprintable(c: char) {
    c < ' ' || ('\U{7F}' <= c <= '\U{A0}') || c == '\U{AD}'
  }

  /** A lower-case hexadecimal digit. */
  function HexDigit(n: nat): (r: char)
    requires n < 16
    ensures '0' <= r <= '9' || 'a' <= r <= 'f'
  {
    if n < 10 then ('0' as int + n) as char else ('a' as int + n - 10) as char
  }

  /** How `repr` writes one character inside quotes `quote`. */
  function EscapeChar(c: char, quote: char): string {
    if c == quote || c == '\\' then ['\\', c]
    else if c == '\t' then "\\t"
    else if c == '\n' then "\\n"
    else if c == '\r' then "\\r"
    else if Unprintable(c) then ['\\', 'x', HexDigit(c as int / 16), HexDigit(c as int % 16)]
    else [c]
  }

  function Escape(s: string, quote: char): string {
    if s == [] then [] else EscapeChar(s[0], quote) + Escape(s[1..], quote)
  }

  /** `repr(s)` for a string. */
  function ReprStr(s: string): (r: string)
    ensures |r| >= 2 && r[0] == r[|r| - 1] == QuoteFor(s)
  {
    [QuoteFor(s)] + Escape(s, QuoteFor(s)) + [QuoteFor(s)]
  }

  /** A string of printable characters other than quotes and backslashes is
      written as itself between single quotes. */
  lemma {:induction false} ReprPlain(s: string)
    requires forall i :: 0 <= i < |s| ==> !Unprintable(s[i]) && s[i] != '\'' && s[i] != '"' && s[i] != '\\'
    ensures ReprStr(s) == "'" + s + "'"
  {
    assert '\'' !in s;
    EscapePlain(s, '\'');
  }

  lemma {:induction false} EscapePlain(s: string, quote: char)
    requires forall i :: 0 <= i < |s| ==> !Unprintable(s[i]) && s[i] != quote && s[i] != '\\'
    ensures Escape(s, quote) == s
  {
    if s != [] {
      EscapePlain(s[1..], quote);
      assert s == [s[0]] + s[1..];
    }
  }

  /** Within the escape of one character, the quote appears only right after a backslash. */
  lemma HeadGuardsQuote(c: char, quote: char, i: nat)
    requires quote == '\'' || quote == '"'
    requires i < |EscapeChar(c, quote)| && EscapeChar(c, quote)[i] == quote
    ensures i == 1 && EscapeChar(c, quote)[0] == '\\'
  {
  }

  /** Escaping never lets the chosen quote through unescaped, so the text
      between the quotes never ends the string early: every quote inside is
      preceded by a backslash. */
  lemma {:induction false} EscapeGuardsQuote(s: string, quote: char, i: nat)
    requires quote == '\'' || quote == '"'
    requires i < |Escape(s, quote)| && Escape(s, quote)[i] == quote
    ensures i > 0 && Escape(s, quote)[i - 1] == '\\'
  {
    var head, rest := EscapeChar(s[0], quote), Escape(s[1..], quote);
    assert Escape(s, quote) == head + rest;
    if i < |head| {
      HeadGuardsQuote(s[0], quote, i);
    } else {
      EscapeGuardsQuote(s[1..], quote, i - |head|);
      assert Escape(s, quote)[i - 1] == rest[i - |head| - 1];
    }
  }

  /** The `repr` of each item of a list, in order. */
  function ReprItems(v: MetaValue): (r: seq<string>)
    requires v.ListVal?
    ensures |r| == |v.items|
    decreases v, 0
  {
    seq(|v.items|, i requires 0 <= i < |v.items| => Repr(v.items[i]))
  }

  /** `repr(list)`, which is also `str(list)`. */
  function ReprList(v: MetaValue): (r: string)
    requires v.ListVal?
    ensures |r| >= 2 && r[0] == '[' && r[|r| - 1] == ']'
    decreases v, 1
  {
    "[" + Join(", ", ReprItems(v)) + "]"
  }

  /** `str()` of a list of two plain strings, as a `tags: [a, b]` header
      gives: each string in single quotes, separated by ", ". */
  lemma DisplayPlainPair(a: string, b: string)
    requires forall i :: 0 <= i < |a| ==> !Unprintable(a[i]) && a[i] != '\'' && a[i] != '"' && a[i] != '\\'
    requires forall i :: 0 <= i < |b| ==> !Unprintable(b[i]) && b[i] != '\'' && b[i] != '"' && b[i] != '\\'
    ensures Display(ListVal([Str(a), Str(b)])) == "['" + a + "', '" + b + "']"
  {
    DisplayPair(Str(a), Str(b));
    ReprPlain(a);
    ReprPlain(b);
    QuotedPair(a, b);
  }

  lemma QuotedPair(a: string, b: string)
    ensures "[" + ("'" + a + "'") + ", " + ("'" + b + "'") + "]" == "['" + a + "', '" + b + "']"
  {
  }

  /** `str()` of a two-item list: the items' reprs, separated by ", ", between brackets. */
  lemma DisplayPair(x: MetaValue, y: MetaValue)
    ensures Display(ListVal([x, y])) == "[" + Repr(x) + ", " + Repr(y) + "]"
  {
    var v := ListVal([x, y]);
    assert Display(v) == ReprList(v);
    assert ReprItems(v) == [Repr(x), Repr(y)];
    JoinPair(", ", Repr(x), Repr(y));
  }

  lemma JoinPair(sep: string, p: string, q: string)
    ensures Join(sep, [p, q]) == p + sep + q
  {
    assert [p, q][1..] == [q];
  }
}
