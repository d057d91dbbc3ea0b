/**
 * Loading one content file (`load_content` in app.py): split an optional
 * front-matter block off the text, read metadata from it, and compute the
 * body, its HTML and its reading time.
 *
 * The file system, the YAML reader and the markdown converter are not part
 * of the model: the file arrives as a SourceFile value, and YAML and
 * markdown are functions passed in by the caller.
 */
module Content {
  import opened Wrappers
  import opened Text
  import opened Dates
  import opened Meta
  import opened Utils

  const Delimiter := "---"

  /** A content file as the loader sees it: its path, its file-name stem, its
      text (None when it is missing or cannot be read as UTF-8) and the
      local date of its last modification. */
  datatype SourceFile = SourceFile(path: string, stem: string, text: Option<string>, mtime: CalendarDate)

  /** What `yaml.safe_load` does with the front matter: raise (or be missing,
      which the loader treats the same way), return a mapping, or return
      something else (None for an empty block, a list, a scalar). */
  datatype YamlResult = YamlFails | YamlMapping(entries: map<string, MetaValue>) | YamlNonMapping

  /** The dictionary `load_content` returns. */
  datatype ContentItem = ContentItem(
    metadata: map<string, MetaValue>,
    html: string,
    rawBody: string,
    filePath: string,
    readingTime: nat)

  /** `{'title': stem}` */
  function TitleOnly(stem: string): (m: map<string, MetaValue>)
    ensures m.Keys == {"title"} && m["title"] == Str(stem)
  {
    map["title" := Str(stem)]
  }

  // ---- splitting off the front matter ----

  datatype FrontMatter = FrontMatter(header: string, rest: string)

  /** The loader's front-matter test (app.py:50-52): the text starts with
      '---' and `split('---', 2)` gives three parts; then the header is the
      second part and the rest the third. */
  function SplitFrontMatter(content: string): (r: Option<FrontMatter>)
    ensures r.Some? <==> StartsWith(content, Delimiter) && |SplitN(content, Delimiter, 2)| == 3
  {
    if !StartsWith(content, Delimiter) then None
    else
      var parts := SplitN(content, Delimiter, 2);
      if |parts| < 3 then None else Some(FrontMatter(parts[1], parts[2]))
  }

  /** After the opening delimiter, the header runs up to the first '---'
      and the rest follows it. */
  lemma SplitAfterOpening(content: string)
    requires StartsWith(content, Delimiter)
    ensures var t := content[3..];
      SplitFrontMatter(content) ==
        match Find(t, Delimiter)
        case None => None
        case Some(i) => Some(FrontMatter(t[..i], t[i + 3..]))
  {
    assert OccursAt(content, Delimiter, 0);
    assert content[3..] == content[0 + |Delimiter|..];
  }

  /** A text that opens with the delimiter and has another one at `i` after
      the opening is put back together from its pieces. */
  lemma Reassemble(content: string, i: nat)
    requires StartsWith(content, Delimiter) && OccursAt(content[3..], Delimiter, i)
    ensures var t := content[3..];
      content == Delimiter + t[..i] + Delimiter + t[i + 3..]
  {
    var t := content[3..];
    assert t == t[..i] + Delimiter + t[i + 3..];
    assert content == Delimiter + t;
  }

  /** Front matter is found exactly when a second '---' follows the opening
      one; the header is everything up to the first such, and the text is
      the opening delimiter, the header, the delimiter and the rest. */
  lemma FrontMatterShape(content: string)
    ensures var r := SplitFrontMatter(content);
      && (r.Some? <==> StartsWith(content, Delimiter) && Contains(content[3..], Delimiter))
      && (r.Some? ==> content == Delimiter + r.value.header + Delimiter + r.value.rest)
      && (r.Some? ==> !Contains(r.value.header, Delimiter))
  {
    if StartsWith(content, Delimiter) {
      SplitAfterOpening(content);
      var t := content[3..];
      var f := Find(t, Delimiter);
      if f.Some? {
        FindPrefixFree(t, Delimiter);
        Reassemble(content, f.value);
      }
    }
  }

  /** The validator of utils/__init__.py accepts exactly the texts the loader
      reads front matter from. */
  lemma ValidatorAgreesWithLoader(content: string)
    ensures ValidateFrontmatter(content).valid <==> SplitFrontMatter(content).Some?
  {
  }

  // ---- the line-by-line fallback parser ----

  /** `header.strip().split('\n')` */
  function Lines(header: string): seq<string> {
    SplitOn(Strip(header), '\n')
  }

  /** One `key: value` line of the fallback parser. */
  datatype Entry = Entry(key: string, value: string)

  /** A line with a ':' gives the stripped text before its first ':' as key
      and the stripped text after it as value (`line.split(':', 1)`); a line
      without one gives nothing. */
  function ParseLine(line: string): (e: Option<Entry>)
    ensures e.Some? <==> ':' in line
  {
    if ':' in line then
      var i := IndexOf(line, ':');
      Some(Entry(Strip(line[..i]), Strip(line[i + 1..])))
    else None
  }

  /** A line holding a ':' is split at its first ':'; the key holds no ':'
      and neither key nor value starts or ends with whitespace. */
  lemma ParseLineSplitsAtFirstColon(line: string)
    requires ':' in line
    ensures exists i :: && 0 <= i < |line| && line[i] == ':' && ':' !in line[..i]
                        && ParseLine(line) == Some(Entry(Strip(line[..i]), Strip(line[i + 1..])))
    ensures ':' !in ParseLine(line).value.key
    ensures Trimmed(ParseLine(line).value.key) && Trimmed(ParseLine(line).value.value)
  {
    var i := IndexOf(line, ':');
    var key, value := Strip(line[..i]), Strip(line[i + 1..]);
    assert ParseLine(line) == Some(Entry(key, value));
    StripKeepsOut(line[..i], ':');
    assert Trimmed(key) && Trimmed(value);
  }

  /** Every line, parsed. */
  function ParseLines(lines: seq<string>): (entries: seq<Option<Entry>>)
    ensures |entries| == |lines|
    ensures forall j :: 0 <= j < |lines| ==> entries[j] == ParseLine(lines[j])
  {
    if lines == [] then []
    else ParseLines(lines[..|lines| - 1]) + [ParseLine(lines[|lines| - 1])]
  }

  /** The index of the last entry that sets key `k`, if any does. */
  function LastSetting(entries: seq<Option<Entry>>, k: string): (r: Option<nat>)
    ensures r.Some? ==> r.value < |entries| && entries[r.value].Some? && entries[r.value].value.key == k
  {
    if entries == [] then None
    else
      var last := entries[|entries| - 1];
      if last.Some? && last.value.key == k then Some(|entries| - 1)
      else LastSetting(entries[..|entries| - 1], k)
  }

  /** No entry after the one LastSetting finds sets `k`, and when it finds
      none, no entry sets `k` at all. */
  lemma {:induction false} LastSettingIsLast(entries: seq<Option<Entry>>, k: string, j: nat)
    requires j < |entries| && entries[j].Some? && entries[j].value.key == k
    ensures LastSetting(entries, k).Some?
    ensures j <= LastSetting(entries, k).value
  {
    var last := entries[|entries| - 1];
    if !(last.Some? && last.value.key == k) {
      var init := entries[..|entries| - 1];
      assert j < |init| && init[j] == entries[j];
      LastSettingIsLast(init, k, j);
    }
  }

  /** Adding an entry at the end: it becomes the last setting of its own key
      and leaves every other key's last setting alone. */
  lemma LastSettingSnoc(entries: seq<Option<Entry>>, e: Option<Entry>, k: string)
    ensures LastSetting(entries + [e], k) ==
      if e.Some? && e.value.key == k then Some(|entries|) else LastSetting(entries, k)
  {
    assert (entries + [e])[..|entries|] == entries;
  }

  /** `m` holds one entry per key that some entry sets, with the value of the
      last such entry, and nothing else. */
  ghost predicate Describes(m: map<string, MetaValue>, entries: seq<Option<Entry>>) {
    forall k ::
      && (k in m <==> LastSetting(entries, k).Some?)
      && (k in m ==> m[k] == Str(entries[LastSetting(entries, k).value].value.value))
  }

  predicate NoEntries(entries: seq<Option<Entry>>) {
    forall j :: 0 <= j < |entries| ==> entries[j].None?
  }

  /** The parsed metadata is empty exactly when no line holds a ':'. */
  lemma DescribesEmpty(m: map<string, MetaValue>, entries: seq<Option<Entry>>)
    requires Describes(m, entries)
    ensures m == map[] <==> NoEntries(entries)
  {
    if !NoEntries(entries) {
      var j :| 0 <= j < |entries| && entries[j].Some?;
      LastSettingIsLast(entries, entries[j].value.key, j);
      assert entries[j].value.key in m;
    }
  }

  /** The map after one more line: an entry overwrites its key. */
  function Apply(m: map<string, MetaValue>, e: Option<Entry>): map<string, MetaValue> {
    if e.Some? then m[e.value.key := Str(e.value.value)] else m
  }

  /** Applying one entry keeps Describes. */
  lemma DescribesStep(m: map<string, MetaValue>, entries: seq<Option<Entry>>, e: Option<Entry>)
    requires Describes(m, entries)
    ensures Describes(Apply(m, e), entries + [e])
  {
    var m' := Apply(m, e);
    forall k
      ensures && (k in m' <==> LastSetting(entries + [e], k).Some?)
              && (k in m' ==> m'[k] == Str((entries + [e])[LastSetting(entries + [e], k).value].value.value))
    {
      LastSettingSnoc(entries, e, k);
      var r := LastSetting(entries, k);
      if r.Some? {
        assert (entries + [e])[r.value] == entries[r.value];
      }
    }
  }

  /** The map the fallback parser builds: the entries applied in order. */
  function FoldEntries(entries: seq<Option<Entry>>): map<string, MetaValue> {
    if entries == [] then map[]
    else Apply(FoldEntries(entries[..|entries| - 1]), entries[|entries| - 1])
  }

  /** Applying the entries in order gives the map that describes them. */
  lemma {:induction false} FoldDescribes(entries: seq<Option<Entry>>)
    ensures Describes(FoldEntries(entries), entries)
  {
    if entries != [] {
      var init := entries[..|entries| - 1];
      FoldDescribes(init);
      DescribesStep(FoldEntries(init), init, entries[|entries| - 1]);
      assert init + [entries[|entries| - 1]] == entries;
    }
  }

  /** The fallback parser's loop (app.py:61-64) over the header's lines:
      one entry per line holding a ':', later lines overwriting earlier ones. */
  method LineMetadata(lines: seq<string>) returns (m: map<string, MetaValue>)
    ensures m == FoldEntries(ParseLines(lines))
    ensures Describes(m, ParseLines(lines))
  {
    ghost var entries := ParseLines(lines);
    m := map[];
    var i := 0;
    while i < |lines|
      invariant 0 <= i <= |lines|
      invariant m == FoldEntries(entries[..i])
    {
      var e := ParseLine(lines[i]);
      assert entries[..i + 1][..i] == entries[..i];
      m := Apply(m, e);
      i := i + 1;
    }
    assert entries[..|lines|] == entries;
    FoldDescribes(entries);
  }

  // ---- load_content ----

  /** The item `load_content` builds from a readable file. */
  ghost predicate IsLoadOf(item: ContentItem, file: SourceFile, yaml: string -> YamlResult, render: string -> string)
    requires file.text.Some?
  {
    && item.filePath == file.path
    && item.html == render(item.rawBody)
    && item.readingTime == ReadingTime(item.rawBody, 200)
    && match SplitFrontMatter(file.text.value)
       case None =>
         item.rawBody == file.text.value && item.metadata == TitleOnly(file.stem)
       case Some(fm) =>
         && item.rawBody == Strip(fm.rest)
         && match yaml(fm.header)
            case YamlMapping(entries) =>
              item.metadata == if entries == map[] then TitleOnly(file.stem) else entries
            case YamlNonMapping =>
              item.metadata == TitleOnly(file.stem)
            case YamlFails =>
              var entries := ParseLines(Lines(fm.header));
              if NoEntries(entries) then item.metadata == TitleOnly(file.stem)
              else Describes(item.metadata, entries)
  }

  /** What the loader reads from a front-matter header: the YAML mapping;
      the line-by-line parse when the YAML reader fails; None when the YAML
      reader returns something other than a mapping. */
  function HeaderMetadata(header: string, yaml: string -> YamlResult): (r: Option<map<string, MetaValue>>)
    ensures r.None? <==> yaml(header).YamlNonMapping?
  {
    match yaml(header)
    case YamlMapping(entries) => Some(entries)
    case YamlNonMapping => None
    case YamlFails => Some(FoldEntries(ParseLines(Lines(header))))
  }

  /** The `try` block of app.py:53-74 on the header: the metadata read and
      whether it is a mapping. */
  method ReadHeader(header: string, yaml: string -> YamlResult) returns (metadata: map<string, MetaValue>, isMapping: bool)
    ensures isMapping <==> HeaderMetadata(header, yaml).Some?
    ensures isMapping ==> metadata == HeaderMetadata(header, yaml).value
  {
    metadata := map[];
    isMapping := true;
    match yaml(header) {
      case YamlMapping(entries) =>
        metadata := entries;
      case YamlNonMapping =>
        isMapping := false;
      case YamlFails =>
        metadata := LineMetadata(Lines(header));
    }
  }

  /** What `load_content` returns for a file (app.py:36-96). */
  function Load(file: SourceFile, yaml: string -> YamlResult, render: string -> string): (r: Option<ContentItem>)
    ensures r.None? <==> file.text.None?
  {
    if file.text.None? then None
    else
      var content := file.text.value;
      var split := SplitFrontMatter(content);
      var body := if split.Some? then Strip(split.value.rest) else content;
      var parsed := if split.None? then Some(map[]) else HeaderMetadata(split.value.header, yaml);
      var metadata := if parsed.None? || parsed.value == map[] then TitleOnly(file.stem) else parsed.value;
      Some(ContentItem(metadata, render(body), body, file.path, ReadingTime(body, 200)))
  }

  /** The fallback parse of a header gives empty metadata exactly when no
      line holds a ':', and otherwise metadata that Describes the entries. */
  lemma FallbackMetadata(header: string)
    ensures var entries := ParseLines(Lines(header));
      && (FoldEntries(entries) == map[] <==> NoEntries(entries))
      && Describes(FoldEntries(entries), entries)
  {
    var entries := ParseLines(Lines(header));
    FoldDescribes(entries);
    DescribesEmpty(FoldEntries(entries), entries);
  }

  /** Load follows every branch IsLoadOf describes, and its metadata is never
      empty. */
  lemma LoadIsLoadOf(file: SourceFile, yaml: string -> YamlResult, render: string -> string)
    requires file.text.Some?
    ensures IsLoadOf(Load(file, yaml, render).value, file, yaml, render)
    ensures Load(file, yaml, render).value.metadata != map[]
  {
    var item := Load(file, yaml, render).value;
    match SplitFrontMatter(file.text.value) {
      case None =>
        assert item.metadata == TitleOnly(file.stem);
      case Some(fm) =>
        assert item.rawBody == Strip(fm.rest);
        match yaml(fm.header) {
          case YamlMapping(entries) =>
            assert HeaderMetadata(fm.header, yaml) == Some(entries);
          case YamlNonMapping =>
            assert item.metadata == TitleOnly(file.stem);
          case YamlFails =>
            FallbackMetadata(fm.header);
            assert HeaderMetadata(fm.header, yaml) == Some(FoldEntries(ParseLines(Lines(fm.header))));
        }
    }
  }

  /** `load_content(file_path)`: None for a file that cannot be read; otherwise
      the body, its HTML and reading time, and metadata that is never empty. */
  method LoadContent(file: SourceFile, yaml: string -> YamlResult, render: string -> string)
    returns (r: Option<ContentItem>)
    ensures r == Load(file, yaml, render)
  {
    if file.text.None? {
      return None;
    }
    var content := file.text.value;
    var metadata: map<string, MetaValue> := map[];
    var isMapping := true;
    var body := content;
    if StartsWith(content, Delimiter) {
      var parts := SplitN(content, Delimiter, 2);
      if |parts| >= 3 {
        assert SplitFrontMatter(content) == Some(FrontMatter(parts[1], parts[2]));
        metadata, isMapping := ReadHeader(parts[1], yaml);
        body := Strip(parts[2]);
      } else {
        assert SplitFrontMatter(content).None?;
      }
    } else {
      assert SplitFrontMatter(content).None?;
    }
    if !isMapping {
      metadata := TitleOnly(file.stem);
    }
    var html := render(body);
    var minutes := ReadingTime(body, 200);
    if metadata == map[] {
      metadata := TitleOnly(file.stem);
    }
    r := Some(ContentItem(metadata, html, body, file.path, minutes));
  }
}
