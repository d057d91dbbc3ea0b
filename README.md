# simple-blog content pipeline, in Dafny

simple-blog is a small Flask blog. Posts and pages are markdown files that
may open with a front-matter block between `---` markers. `app.py` loads
each file (`load_content`), turns the posts into a listing sorted newest
first (`get_posts`), builds the page table (`get_pages`), and computes the
chart data of the development page. That chart data is posts per month over
the last twelve 30-day steps, plus the eight most common tags
(`safe_get_month`, `analyze_posts_data`). `utils/__init__.py` holds the
text and date helpers: `slugify`, `format_date`, `truncate_text`,
`is_markdown_file`, `get_reading_time` and `validate_markdown_frontmatter`.

This project models that pipeline and proves what it promises. The parts
outside the program are plain values or function parameters:

- a file is a `SourceFile` (path, stem, text or None, modification day);
- the YAML reader is a function returning a `YamlResult`;
- the markdown converter is a function from text to HTML;
- "now" is a calendar day.

Modules, one per concern:

- `Text` (`text.dfy`): the Python `str` operations the code relies on. These
  are `strip`, `split` with and without a limit, `find`, `startswith`,
  `endswith` and ASCII `lower`.
- `Dates` (`dates.dfy`): proleptic Gregorian dates with day numbers and
  `date - timedelta(days=n)`. Also `strftime` for the four output patterns
  and `strptime` for the four input patterns the blog uses. `strptime`
  follows the regular expressions of CPython's `_strptime`, first matching
  alternative, then the "unconverted data" and date-range checks.
- `Meta` (`meta.dfy`): the metadata values the loader can see. These are
  strings, dates, lists and anything else, with `str()` of each.
- `Utils` (`utils.dfy`): the helpers of `utils/__init__.py`.
- `StableSort` (`stablesort.dfy`): a stable descending sort. This is the
  contract of `list.sort(key=..., reverse=True)` and of `sorted` inside
  `Counter.most_common`.
- `Content` (`content.dfy`): `load_content`, including the front-matter
  split and the line-by-line fallback parser.
- `Posts` (`posts.dfy`): `get_posts`, its sort key and its ordering, and
  `get_pages`.
- `Analysis` (`analysis.dfy`): `safe_get_month` and `analyze_posts_data`.

Where the code loops and mutates, the model does too:

- The loop that builds the fallback metadata is a method with a `while`
  loop. It is proved against a fold over the parsed lines.
- The loops of `get_posts`, `get_pages` and `analyze_posts_data` are
  methods whose results are tied to specification functions. Lemmas then
  state what those functions mean.
- Everything else in the source is expressions and branches. It is modelled
  as functions.

Two behaviours of the loader are easy to miss:

- A file whose front matter is not a mapping, or is empty, gets the metadata
  `{'title': stem}` (app.py:77-78, 87), not empty metadata.
- The loader only guarantees that metadata is non-empty. A YAML mapping
  without a `title` key is kept as it is, so a `title` is not always
  present.

## Model

| member | source | states |
|---|---|---|
| Text.StripIsInfix | app.py:57 | `strip()` gives a contiguous piece of its input that neither starts nor ends with whitespace, and everything before and after that piece is whitespace |
| Text.Strip | app.py:57 | the stripped text neither starts nor ends with whitespace |
| Text.Find | app.py:51 | `find` gives the first position where the pattern occurs, and nothing exactly when it does not occur |
| Text.IndexOf | app.py:62 | the position of the first ':' of a line, with no ':' before it |
| Text.SplitN | app.py:51 | `split(sep, limit)` gives between one and `limit + 1` pieces; joining them with `sep` gives the text back; each cut is at the leftmost occurrence in what is left, so no occurrence starts inside a piece before the last, not even one running on into the separator after it; the last piece holds no `sep` unless the limit was reached |
| Text.SplitOn | app.py:193 | `split(',')` gives at least one piece, no piece holds the separator, and joining the pieces with the separator gives the text back |
| Text.Lower | utils/__init__.py:23 | lower-casing keeps the length and lowers each ASCII capital, leaving every other character as it is |
| Text.FindPrefixFree | app.py:51 | the text before the first occurrence of a pattern does not contain that pattern |
| Dates.PrevDay | app.py:201 | the day before a date is a valid date one day number earlier; 0001-01-01 has none |
| Dates.SubtractDays | app.py:201 | a successful subtraction gives a valid date |
| Dates.SubtractDaysNumber | app.py:201 | `date - timedelta(days=n)`, when it succeeds, lands exactly `n` day numbers earlier |
| Dates.SubtractDaysFails | app.py:201 | subtracting `n` days fails (OverflowError) exactly when the result would fall before 0001-01-01 |
| Dates.Strftime | app.py:110-112 | `strftime` writes the year as four digits, the month as two and, in the day patterns, the day as two, each spelling the date's number; the ISO patterns put '-' between them, '%Y年%m月' puts '年' after the year and '月' after the month, and '%Y年%m月%d日' also ends with '日' |
| Dates.Strptime | app.py:130 | a successful parse gives a valid date; the text has at least eight characters |
| Dates.StrptimeSpells | app.py:130 | a successful parse reads the date the text spells: the text is the pattern's layout of a four-digit year, a one- or two-digit month and a one- or two-character day, and the date holds their numbers |
| Dates.ParseRoundTrip | app.py:159-161 | each of the four input patterns reads back the date laid out in it, with or without leading zeros on the month and the day |
| Dates.IsoDayRoundTrip | app.py:110-112 | parsing a date written as '%Y-%m-%d' with '%Y-%m-%d' gives the same date back |
| Dates.IsoMonthIsPrefix | app.py:162 | the '%Y-%m' text of a date is the first seven characters of its '%Y-%m-%d' text |
| Meta.Display | app.py:190 | `str()` of a string is the string itself; of a date, its zero-padded '%Y-%m-%d' text, which parses back as that date; of a list, the `repr` of each item in order, joined by ", " between '[' and ']' |
| Meta.DisplayPair | app.py:190 | `str()` of a two-item list is '[', the first item's `repr`, ", ", the second's `repr`, and ']' |
| Meta.DisplayPlainPair | app.py:190 | `str()` of a list of two plain strings, as a `tags: [a, b]` header gives, is `['a', 'b']` |
| Meta.ReprStr | app.py:190 | `repr` of a string is the escaped text between two identical quotes, double quotes exactly when the text has a single quote and no double quote |
| Meta.ReprPlain | app.py:190 | a string of printable characters without quotes or backslashes is written as itself between single quotes |
| Meta.EscapeGuardsQuote | app.py:190 | inside the quotes, every quote character is preceded by a backslash |
| Utils.KeepSlugChars | utils/__init__.py:23 | `re.sub(r'[^\w\s-]', '', ...)` on one character keeps it exactly when it is a word character, whitespace or '-', and deletes it otherwise; lower-cased input keeps only slug characters and separators |
| Utils.KeepSlugCharsAppend | utils/__init__.py:23 | the substitution works character by character: on a concatenation it is the concatenation of the two results |
| Utils.CollapseSeparators | utils/__init__.py:24 | `re.sub(r'[-\s]+', '-', ...)`: the only separator left is '-', no "--" remains, the result is empty only for empty input, it starts with '-' exactly when the input starts with a separator and otherwise with the input's first character |
| Utils.CollapseWordChars | utils/__init__.py:24 | collapsing separators keeps every word character, in order |
| Utils.Words | utils/__init__.py:24 | the maximal runs of characters other than '-' and whitespace; there is at least one when the text starts with such a character, and none is empty |
| Utils.CollapseKeepsWords | utils/__init__.py:24 | collapsing separators keeps the same runs of non-separators, in the same order |
| Utils.CollapseEnds | utils/__init__.py:24 | the collapsed text ends with '-' exactly when the input ends with a separator |
| Utils.StripDashes | utils/__init__.py:24 | `strip('-')` leaves no '-' at either end, keeps the word characters, and changes nothing when there is no '-' at either end |
| Utils.StripDashesTrims | utils/__init__.py:24 | `strip('-')` removes only '-' characters, and only from the two ends: the input is some '-'s, the result, then some '-'s |
| Utils.WordsStripDashes | utils/__init__.py:24 | stripping '-' keeps the same runs of non-separators |
| Utils.JoinWords | utils/__init__.py:24 | a text whose only separator is '-', with no "--" and no '-' at either end, is its runs of non-separators joined by '-' |
| Utils.Slugify | utils/__init__.py:23-24 | a slug holds only lower-case word characters and '-', has no "--", no '-' at either end, and keeps the word characters of the lower-cased text in order |
| Utils.SlugifyJoinsWords | utils/__init__.py:23-24 | the slug is the runs of characters other than '-' and whitespace in the lower-cased, filtered text, joined by single '-' |
| Utils.SlugifyShape | utils/__init__.py:23-24 | a slug holds no whitespace and no upper-case ASCII letter, only word characters and '-', no two '-' in a row, and does not start or end with '-' |
| Utils.SlugFixedPoints | utils/__init__.py:23-24 | a text that already has the shape of a slug is unchanged by each stage of `slugify` |
| Utils.SlugifyIdempotent | utils/__init__.py:23-24 | slugifying a slug gives the same slug |
| Utils.FormatDate | utils/__init__.py:40-53 | a string that `format_from` does not parse comes back unchanged; a value that is neither a string nor a date becomes its `str()` |
| Utils.FormatDateConverts | utils/__init__.py:41-48 | a date, and a string laying out that date in the input pattern with or without leading zeros, are both written as that date in the output pattern |
| Utils.FormatDateCanonical | utils/__init__.py:41-51 | a canonical '%Y-%m-%d' string, and the date it writes, both come back unchanged from `format_date(v, '%Y-%m-%d', '%Y-%m-%d')` |
| Utils.FormatDateIdempotent | utils/__init__.py:41-53 | for a string or a date, formatting the output of `format_date(v, '%Y-%m-%d', '%Y-%m-%d')` again changes nothing |
| Utils.SliceStop | utils/__init__.py:98 | where `text[:length]` stops, including a negative `length`, which counts from the end |
| Utils.BeforeLastSpace | utils/__init__.py:98 | `rsplit(' ', 1)[0]` is the text up to its last space, or all of it when there is no space; it is a prefix |
| Utils.TruncateText | utils/__init__.py:96-98 | a text within the length comes back unchanged; a longer one is the cut text, up to its last space if it has one, followed by the suffix |
| Utils.EndsWithLower | utils/__init__.py:111 | the lower-cased name ends with a suffix exactly when the name's last characters, lower-cased, are that suffix |
| Utils.IsMarkdownFile | utils/__init__.py:111 | a name is a markdown file exactly when its last three characters are '.md' or its last nine are '.markdown', in any mix of ASCII case |
| Utils.RoundHalfEven | utils/__init__.py:127 | Python's `round(num / den)` is at most half a unit away from the quotient, and on an exact half it is even |
| Utils.RoundHalfEvenUnique | utils/__init__.py:127 | any integer closer than half a unit to the quotient, or exactly half a unit away and even, is the rounded value |
| Utils.ReadingMinutes | utils/__init__.py:127 | the reading time is at least one minute |
| Utils.ReadingMinutesRounds | utils/__init__.py:127 | the reading time is one minute exactly when the count is under one and a half minutes' worth; above that it is the quotient rounded half to even |
| Utils.ReadingTime | utils/__init__.py:126-128 | `get_reading_time(text)` is at least 1 |
| Utils.ReadingTimeRounds | utils/__init__.py:126-128 | `get_reading_time(text, wpm)` is 1 exactly when the stripped text has fewer than one and a half minutes' worth of characters; otherwise it is within half a unit of the stripped length over `wpm`, and even on a tie: `max(1, round(len(text.strip()) / wpm))` |
| Utils.ReadingTimeExamples | utils/__init__.py:126-128 | at 200 characters a minute: 0 gives 1, 100 gives 1, 400 gives 2, 500 gives 2 and 700 gives 4 |
| Utils.ValidateFrontmatter | utils/__init__.py:141-148 | "must start with '---'" exactly when the text does not start with '---'; "incomplete" exactly when it does but the split gives fewer than three pieces; valid, with the success message, exactly when the split gives three |
| Content.TitleOnly | app.py:78 | the fallback metadata has the single key `title`, mapped to the file stem |
| Content.SplitFrontMatter | app.py:50-52 | front matter is found exactly when the text starts with '---' and `split('---', 2)` gives three pieces |
| Content.SplitAfterOpening | app.py:50-51 | after the opening '---', the header runs to the first '---' and the rest follows it; without another '---' there is no front matter |
| Content.FrontMatterShape | app.py:50-52 | front matter is found exactly when another '---' follows the opening one; the text is '---', the header, '---' and the rest, and the header holds no '---' |
| Content.ValidatorAgreesWithLoader | utils/__init__.py:141-148 | the validator accepts exactly the texts from which the loader reads front matter |
| Content.ParseLine | app.py:62-64 | a line gives an entry exactly when it holds a ':' |
| Content.ParseLineSplitsAtFirstColon | app.py:62-64 | a line with a ':' is split at its first ':'; the key holds no ':', and neither key nor value has whitespace at either end |
| Content.ParseLines | app.py:60-61 | one parse per line, in order |
| Content.LastSettingIsLast | app.py:64 | no line after the last setting of a key sets it again |
| Content.LastSettingSnoc | app.py:64 | a new line becomes the last setting of its own key and leaves the other keys alone |
| Content.DescribesEmpty | app.py:60-64 | the parsed metadata is empty exactly when no line holds a ':' |
| Content.DescribesStep | app.py:64 | storing one more line keeps the metadata equal to "the value of the last line for each key" |
| Content.FoldDescribes | app.py:61-64 | the parsed metadata has exactly the keys some line sets, each with the value of the last line that sets it |
| Content.LineMetadata | app.py:61-64 | the loop over the lines builds that metadata |
| Content.HeaderMetadata | app.py:53-74 | the header gives no metadata exactly when the YAML reader returns something other than a mapping |
| Content.ReadHeader | app.py:53-74 | the `try` block: a mapping from YAML, the line-by-line parse when YAML fails, and a flag when the result is not a mapping |
| Content.FallbackMetadata | app.py:66-74 | when YAML fails, the fallback metadata is empty exactly when no header line holds a ':', and otherwise it holds the last value of each key |
| Content.Load | app.py:36-96 | `load_content` gives None exactly when the file cannot be read |
| Content.LoadIsLoadOf | app.py:47-92 | the body is the whole text without front matter, or the stripped rest with it; the metadata is the YAML mapping or the fallback parse, replaced by `{'title': stem}` when empty or not a mapping; the HTML and reading time are those of the body; the metadata is never empty |
| Content.LoadContent | app.py:36-96 | the imperative `load_content` returns what Load describes |
| Posts.WithDate | app.py:108-112 | a missing `date` becomes the modification day as '%Y-%m-%d'; all other keys are unchanged |
| Posts.AsPost | app.py:105-121 | a post's slug is its file stem; its metadata keeps every entry of the item's and adds `date`, which, when the item had none, is the modification day as '%Y-%m-%d'; body, HTML, path and reading time are the item's |
| Posts.AsPostFormattedDate | app.py:115-119 | the display date is the '%Y年%m月%d日' text of the modification day, of a date value, or of a date written as '%Y-%m-%d' |
| Posts.SortKeyOf | app.py:124-134 | the key is a `date` exactly when the post's `date` is a date value, and then it is that day; a string that parses as '%Y-%m-%d' gives a `datetime` on the parsed day; anything else gives `datetime.min` |
| Posts.RankOrdersDays | app.py:136 | the numeric rank of a day orders days as the calendar does, and equal ranks mean equal days |
| Posts.MinDayRanksLowest | app.py:132-134 | `datetime.min` ranks at or below every post, equal only to posts whose key is `datetime.min` |
| Posts.SortPosts | app.py:136 | the listing is a permutation of the posts in non-increasing date order |
| Posts.SortPostsStable | app.py:136 | posts of the same day keep their original order |
| Posts.OrderPosts | app.py:124-136 | the sort fails exactly when a `date` key and a `datetime` key are both present; otherwise it is a permutation in non-increasing date order |
| Posts.OrderPostsIntended | app.py:136 | when it succeeds, the sort is stable and is the intended order |
| Posts.UndatedPostsLast | app.py:131-136 | every post after one keyed `datetime.min` is keyed `datetime.min` too |
| Posts.MixedDatesFail | app.py:124-136 | a post dated by YAML beside a post whose date is a string makes the listing fail |
| Posts.PostOf | app.py:104-121 | a file gives a post exactly when it can be read |
| Posts.PostsOf | app.py:103-121 | one result per listed file, in the order of the listing |
| Posts.UnsortedFromReadable | app.py:101-121 | before sorting there is one post per readable file, in listing order, and each is the post built from that file's loaded content |
| Posts.UnsortedShape | app.py:105-112 | every post has a `date` and the stem of a readable file as its slug |
| Posts.CollectPosts | app.py:101-121 | the collecting loop keeps the built post of each readable file, in order |
| Posts.CollectPost | app.py:103-121 | one pass of the collecting loop gives the post built from that file |
| Posts.PostsForIsPostsOf | app.py:103-121 | the per-file description of the loop's results is exactly the list of built posts |
| Posts.GetPosts | app.py:99-137 | `get_posts` returns the ordering of the collected posts, or fails as the sort does |
| Posts.ListingShape | app.py:105-136 | a successful listing has one post per readable file, each with a `date` and a readable file's stem as slug |
| Posts.LoadAll | app.py:145 | each page file loads to what `load_content` gives, which is present exactly when the file can be read |
| Posts.LastReadable | app.py:144-147 | the found file has the stem and can be read, and comes before the limit |
| Posts.LastReadableIsLast | app.py:144-147 | no readable file with the same stem follows the one whose entry survives |
| Posts.PagesFromByStem | app.py:144-147 | a stem has an entry exactly when some readable file has it, and the entry is the last such file's content |
| Posts.PagesByStem | app.py:140-149 | `get_pages` maps a stem to the content of the last readable file with that stem, and has no other entries |
| Posts.GetPages | app.py:140-149 | the loop of `get_pages` builds that table |
| StableSort.SortDesc | app.py:136 | the sort returns a permutation in non-increasing key order |
| StableSort.SortDescStable | app.py:136 | elements with equal keys keep their relative order |
| StableSort.SortDescTiesOrdered | app.py:208 | elements that stood in rank order stay in rank order among equal keys |
| StableSort.SortDescUnique | app.py:136 | a stable descending order is unique: any descending sequence with the same elements per key is the sort |
| Analysis.FirstParse | app.py:159-164 | a date found by trying the patterns is a valid date |
| Analysis.FirstParseFirst | app.py:159-164 | no result exactly when every pattern fails; otherwise the result of the first pattern, in the order tried, that succeeds |
| Analysis.MonthDate | app.py:155-167 | only a date value or a string can give a date |
| Analysis.SafeGetMonth | app.py:152-170 | every month key has seven characters |
| Analysis.SafeGetMonthSpec | app.py:155-168 | a date gives its '%Y-%m'; a string gives the '%Y-%m' of the first pattern that parses it, else its first seven characters when it has seven, else None; anything else gives None |
| Analysis.MonthKey | app.py:181-182 | a post's month key has seven characters, and a post without `date` has none |
| Analysis.SafeGetMonthIsoText | app.py:155-167 | a date and its '%Y-%m-%d' text fall in the same month, which is the first seven characters of that text |
| Analysis.TallyCounts | app.py:184-185 | the tally of a key is the number of positions that hold it; a key is tallied exactly when some position holds it |
| Analysis.MonthTallyCounts | app.py:179-185 | `posts_by_month[k]` is the number of posts whose month key is `k`, and `k` is present exactly when such a post exists |
| Analysis.TagsOf | app.py:188-193 | a post without `tags` contributes none; a list contributes `str()` of each element, in order; a value that is neither a list nor a string contributes none |
| Analysis.StringTagsClean | app.py:191-193 | a comma-separated tag string gives one tag per piece, the `k`-th being the `k`-th piece stripped; none holds a comma or edge whitespace |
| Analysis.FlattenMembers | app.py:190-193 | a tag is in the flattened lists exactly when it is in one of them |
| Analysis.AllTagsFromPosts | app.py:179-193 | a tag is in `all_tags` exactly when it is one of some post's tags |
| Analysis.TallyPosts | app.py:176-193 | the posts loop builds the month tally of the posts' month keys and the concatenation of their tag lists |
| Analysis.ReadPost | app.py:180-193 | one pass of the posts loop, with its list-or-string test on `tags`, reads that post's month key and the tags TagsOf gives it |
| Analysis.ReadAllIsKeysAndLists | app.py:179-193 | the per-post description of what the loop reads is exactly the list of month keys and the list of tag lists |
| Analysis.BucketDayNumber | app.py:200-201 | bucket `j` lies `30 * (11 - j)` days before today |
| Analysis.Bucket | app.py:201-204 | one pass of the loop fails exactly when the step falls before 0001-01-01; otherwise it gives the bucket's '%Y年%m月' label and the tally of its '%Y-%m' month |
| Analysis.MonthlySeries | app.py:196-204 | no series exactly when the first step overflows; otherwise twelve labels and counts, the `j`-th for the day `30 * (11 - j)` days back |
| Analysis.BucketsStepBack | app.py:200-201 | consecutive buckets are 30 days apart, and the last is today |
| Analysis.Distinct | app.py:207 | the Counter's keys are the tags that occur, each once |
| Analysis.DistinctFirstSeen | app.py:207 | the Counter's keys stand in the order of their first occurrence |
| Analysis.CountAll | app.py:207 | each key is paired with its number of occurrences |
| Analysis.CounterItemsShape | app.py:207 | the Counter's items are one per distinct tag, each with its number of occurrences, and every tag that occurs has one |
| Analysis.CounterItemsRanked | app.py:207 | the Counter's items stand in first-occurrence order |
| Analysis.SortedItems | app.py:208 | sorting the items by count keeps equal counts in first-occurrence order |
| Analysis.MostCommon | app.py:208 | `most_common(n)` has `n` entries, or one per distinct tag when there are fewer |
| Analysis.MostCommonCounts | app.py:207-208 | each entry is a distinct tag that occurs, with its exact count |
| Analysis.MostCommonOrdered | app.py:207-208 | counts do not increase along `most_common`, and equal counts stand in first-occurrence order |
| Analysis.MostCommonMaximal | app.py:207-208 | no tag left out of `most_common` occurs more often than any tag in it; a tag left out whose count ties one kept was seen after every kept tag of that count |
| Analysis.AnalyzePostsData | app.py:173-214 | twelve month labels, oldest first; per month, the number of posts whose month key is that month; and the eight most common tags. None exactly when the twelve-month span reaches before 0001-01-01 |

## Left out

- The file system (`Path.exists`, `read_text`, `glob`, `stat`) is left out: each file is an input value. A file that is missing or cannot be decoded has no text. The listing order is whatever `glob` gives, taken as the order of the input sequence.
- `yaml.safe_load` is left out: it is a function parameter that may fail, return a mapping, or return anything else. The `ImportError` branch (app.py:58-65) does the same as the failure branch (app.py:66-74), so it is modelled by the same case.
- `markdown.markdown` is left out: it is a total function parameter. An exception raised inside it, which app.py:94-96 turns into None, is not modelled.
- `datetime.now()` is left out: it is a calendar-day parameter. Its time of day cannot change a whole-day subtraction or a '%Y-%m' key.
- YAML timestamps with a time of day (`datetime` values in the metadata) are not modelled. Metadata values are strings, dates, lists, or "other" with their text. Metadata keys are strings: a YAML mapping with a non-string key (`2024: x`) cannot be represented, and nothing in the blog looks such keys up.
- Unicode digits in `strptime`'s `\d` and Unicode word characters in `slugify`'s `\w` are restricted. The model accepts ASCII digits, and ASCII letters, digits, '_' and the CJK unified ideographs. Case folding is ASCII only.
- Text.Strip: its own contract only says the result has no whitespace at either end; Text.StripIsInfix states that it is the input with edge whitespace removed.
- Meta.ReprStr: non-printable characters above U+00FF are written as they are, not as `\u` or `\U` escapes, and non-printable characters are those up to U+00FF that `str.isprintable()` rejects.
- Dates.Strftime: `%Y` is written with four digits. Years below 1000 are padded differently on some C libraries.
- Utils.ReadingMinutes: `round(count / wpm)` is computed with exact integers. Python divides in floating point, which can round differently for counts far beyond any real file.
- Utils.FormatDate: only the four input and four output patterns the blog passes are modelled. The `except` branch at utils/__init__.py:54-56 cannot be reached in the model.
- Posts.GetPosts: the `TypeError` that the sort raises when `date` and `datetime` keys are mixed is a Failure result. Its propagation to the web request is not modelled.
- Analysis.AnalyzePostsData: the `OverflowError` of a subtraction before 0001-01-01 is a None result.
- `Counter` and `most_common` are modelled by their documented behaviour: counts in first-occurrence key order, then a stable sort by count, largest first, cut to `n`. CPython's heap-based code path is not modelled.
- `get_file_info`, `create_default_content`, the Flask routes and error pages, `config.py`, `run.py` and `static/js/main.js` are left out. They are I/O, framework and browser code outside the content pipeline.

## Findings

| source | as written | input that shows it | evidently intended | confidence | as-written member | corrected member |
|---|---|---|---|---|---|---|
| app.py:124-136 | `get_sort_key` returns the `date` object that YAML produces for an unquoted date. For a string date it returns a `datetime`, and for a missing or unparsable date `datetime.min`. `list.sort` must compare neighbouring keys, and Python refuses to order a `date` against a `datetime`, so `get_posts` raises `TypeError` | two posts: one with front matter `date: 2024-01-15` (a YAML date) and one whose date is the string `"2024-01-20"`, for example one without a `date` that gets its modification day filled in | posts ordered newest first by calendar day, posts of the same day in listing order | not executed | Posts.MixedDatesFail | Posts.SortPosts |
