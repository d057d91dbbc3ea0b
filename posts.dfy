/**
 * The post listing (`get_posts` in app.py) and the page table (`get_pages`).
 *
 * Every readable markdown file becomes a post: its slug is the file-name
 * stem, a missing `date` is filled in from the file's modification day, and
 * a display date is derived from it. The posts are then sorted newest first
 * by a key read from `date`.
 *
 * The sort key is a `date` object for a date the YAML reader returned, and
 * a `datetime` for everything else (a parsed string, or `datetime.min`).
 * Python refuses to order a `date` against a `datetime`, so a listing that
 * holds both kinds makes the sort raise. OrderPosts models that; SortPosts
 * is the ordering the listing evidently intends, and the one OrderPosts
 * returns whenever it succeeds.
 */
module Posts {
  import opened Wrappers
  import opened Dates
  import opened Meta
  import opened Utils
  import opened Content
  import opened StableSort

  /** A loaded content item extended with the fields `get_posts` adds. */
  datatype Post = Post(item: ContentItem, slug: string, formattedDate: string)

  /** The metadata after `get_posts` makes sure there is a `date`: a
      missing one becomes the modification day written as '%Y-%m-%d';
      nothing else changes. */
  function WithDate(metadata: map<string, MetaValue>, mtime: CalendarDate): (m: map<string, MetaValue>)
    ensures m.Keys == metadata.Keys + {"date"}
    ensures forall k :: k in metadata ==> m[k] == metadata[k]
    ensures "date" !in metadata ==> m["date"] == Str(Strftime(mtime, IsoDay))
  {
    if "date" in metadata then metadata else metadata["date" := Str(Strftime(mtime, IsoDay))]
  }

  /** The post `get_posts` builds from a loaded item (app.py:105-118): the
      slug is the file's stem; every entry of the metadata is kept, and a
      missing `date` is the modification day written as '%Y-%m-%d'; the
      body, the HTML, the path and the reading time are the item's. */
  function AsPost(item: ContentItem, file: SourceFile): (p: Post)
    ensures p.slug == file.stem
    ensures p.item.metadata.Keys == item.metadata.Keys + {"date"}
    ensures forall k :: k in item.metadata ==> p.item.metadata[k] == item.metadata[k]
    ensures "date" !in item.metadata ==> p.item.metadata["date"] == Str(Strftime(file.mtime, IsoDay))
    ensures p.item.rawBody == item.rawBody && p.item.html == item.html && p.item.filePath == item.filePath
    ensures p.item.readingTime == item.readingTime
  {
    var metadata := WithDate(item.metadata, file.mtime);
    Post(item.(metadata := metadata), file.stem, FormatDate(metadata["date"], YmdDash, CnDay))
  }

  /** The display date: a date object or a '%Y-%m-%d' string is shown as
      '%Y年%m月%d日', and a post without a date shows its file's
      modification day. */
  lemma AsPostFormattedDate(item: ContentItem, file: SourceFile)
    ensures "date" !in item.metadata ==>
      AsPost(item, file).formattedDate == Strftime(file.mtime, CnDay)
    ensures "date" in item.metadata && item.metadata["date"].DateVal? ==>
      AsPost(item, file).formattedDate == Strftime(item.metadata["date"].d, CnDay)
    ensures forall d: CalendarDate :: "date" in item.metadata && item.metadata["date"] == Str(Strftime(d, IsoDay)) ==>
      AsPost(item, file).formattedDate == Strftime(d, CnDay)
  {
    if "date" !in item.metadata {
      IsoDayRoundTrip(file.mtime);
    }
    forall d: CalendarDate | "date" in item.metadata && item.metadata["date"] == Str(Strftime(d, IsoDay))
      ensures AsPost(item, file).formattedDate == Strftime(d, CnDay)
    {
      IsoDayRoundTrip(d);
    }
  }

  // ---- the sort key ----

  /** Whether `get_sort_key` yields a `date` or a `datetime`. */
  datatype KeyKind = PlainDate | DateTime

  /** A key of `get_sort_key`: every `datetime` it yields is at midnight, so
      a calendar day and its kind determine it. */
  datatype SortKey = SortKey(day: CalendarDate, kind: KeyKind)

  /** `datetime.min`, at day precision. */
  const MinDay: CalendarDate := Date(1, 1, 1)

  /** `post['metadata'].get('date', '')` */
  function DateOf(p: Post): MetaValue {
    if "date" in p.item.metadata then p.item.metadata["date"] else Str("")
  }

  /** `get_sort_key(post)` (app.py:124-134): a date value keys on itself; a
      string that parses as '%Y-%m-%d' keys on that day as a `datetime`;
      anything else keys on `datetime.min`. */
  function SortKeyOf(p: Post): (key: SortKey)
    ensures key.kind == PlainDate <==> DateOf(p).DateVal?
    ensures DateOf(p).DateVal? ==> key.day == DateOf(p).d
    ensures DateOf(p).Str? && Strptime(DateOf(p).s, YmdDash).Some? ==> key.day == Strptime(DateOf(p).s, YmdDash).value
    ensures !DateOf(p).DateVal? && !(DateOf(p).Str? && Strptime(DateOf(p).s, YmdDash).Some?) ==> key.day == MinDay
  {
    match DateOf(p)
    case DateVal(d) => SortKey(d, PlainDate)
    case Str(s) =>
      (match Strptime(s, YmdDash)
       case Some(d) => SortKey(d, DateTime)
       case None => SortKey(MinDay, DateTime))
    case _ => SortKey(MinDay, DateTime)
  }

  /** A number that orders calendar days as Python orders dates. */
  function Rank(d: Date): int {
    d.year * 10000 + d.month * 100 + d.day
  }

  /** Day `a` comes before day `b` on the calendar. */
  predicate Earlier(a: Date, b: Date) {
    a.year < b.year || (a.year == b.year && (a.month < b.month || (a.month == b.month && a.day < b.day)))
  }

  /** Rank orders days exactly as the calendar does. */
  lemma RankOrdersDays(a: CalendarDate, b: CalendarDate)
    ensures Rank(a) < Rank(b) <==> Earlier(a, b)
    ensures Rank(a) == Rank(b) <==> a == b
  {
  }

  /** The integer the listing is sorted on. */
  function PostRank(p: Post): int {
    Rank(SortKeyOf(p).day)
  }

  /** `datetime.min` ranks below every post. */
  lemma MinDayRanksLowest(p: Post)
    ensures PostRank(p) >= Rank(MinDay)
    ensures PostRank(p) == Rank(MinDay) <==> SortKeyOf(p).day == MinDay
  {
    RankOrdersDays(MinDay, SortKeyOf(p).day);
  }

  // ---- sorting ----

  /** Some post's key is a `date` and another's a `datetime`. */
  predicate MixedKinds(posts: seq<Post>) {
    exists i, j :: 0 <= i < |posts| && 0 <= j < |posts| &&
      SortKeyOf(posts[i]).kind == PlainDate && SortKeyOf(posts[j]).kind == DateTime
  }

  datatype SortError = CannotCompareDateWithDatetime

  /** The intended order: newest first, posts of the same day in their
      original order. */
  function SortPosts(posts: seq<Post>): (r: seq<Post>)
    ensures multiset(r) == multiset(posts)
    ensures Descending(r, PostRank)
  {
    SortDesc(posts, PostRank)
  }

  /** SortPosts is stable: the posts of any one day keep their order. */
  lemma SortPostsStable(posts: seq<Post>, k: int)
    ensures WithKey(SortPosts(posts), PostRank, k) == WithKey(posts, PostRank, k)
  {
    SortDescStable(posts, PostRank, k);
  }

  /** `posts.sort(key=get_sort_key, reverse=True)` (app.py:136): any two
      posts whose keys are a `date` and a `datetime` end up next to each
      other or are separated only by posts of one of the two kinds, so the
      sort has to compare some `date` with some `datetime` and raises. */
  function OrderPosts(posts: seq<Post>): (r: Result<seq<Post>, SortError>)
    ensures r.Failure? <==> MixedKinds(posts)
    ensures r.Success? ==> multiset(r.value) == multiset(posts) && Descending(r.value, PostRank)
  {
    if MixedKinds(posts) then Failure(CannotCompareDateWithDatetime) else Success(SortPosts(posts))
  }

  /** When it succeeds, the listing is the intended order. */
  lemma OrderPostsIntended(posts: seq<Post>)
    requires OrderPosts(posts).Success?
    ensures forall k :: WithKey(OrderPosts(posts).value, PostRank, k) == WithKey(posts, PostRank, k)
    ensures OrderPosts(posts).value == SortPosts(posts)
  {
    forall k ensures WithKey(OrderPosts(posts).value, PostRank, k) == WithKey(posts, PostRank, k) {
      SortPostsStable(posts, k);
    }
  }

  /** Posts with no usable date sink to the end of the listing. */
  lemma UndatedPostsLast(sorted: seq<Post>, i: int, j: int)
    requires Descending(sorted, PostRank)
    requires 0 <= i < j < |sorted| && SortKeyOf(sorted[i]).day == MinDay
    ensures SortKeyOf(sorted[j]).day == MinDay
  {
    DescendingPairwise(sorted, PostRank, i, j);
    MinDayRanksLowest(sorted[i]);
    MinDayRanksLowest(sorted[j]);
  }

  /** A post dated by the YAML reader beside one whose date is a string:
      the listing fails. */
  lemma MixedDatesFail()
    ensures var yamlDated := Post(ContentItem(map["date" := DateVal(Date(2024, 1, 15))], "", "", "a.md", 1), "a", "2024年01月15日");
      var stringDated := Post(ContentItem(map["date" := Str("2024-01-20")], "", "", "b.md", 1), "b", "2024年01月20日");
      OrderPosts([yamlDated, stringDated]).Failure?
  {
    var yamlDated := Post(ContentItem(map["date" := DateVal(Date(2024, 1, 15))], "", "", "a.md", 1), "a", "2024年01月15日");
    var stringDated := Post(ContentItem(map["date" := Str("2024-01-20")], "", "", "b.md", 1), "b", "2024年01月20日");
    var posts := [yamlDated, stringDated];
    assert SortKeyOf(posts[0]).kind == PlainDate;
    assert SortKeyOf(posts[1]).kind == DateTime;
  }

  // ---- keeping the items that are there ----

  /** The present items among the first `n`, in order. */
  function Kept<T>(items: seq<Option<T>>, n: nat): seq<T>
    requires n <= |items|
  {
    if n == 0 then [] else Kept(items, n - 1) + if items[n - 1].Some? then [items[n - 1].value] else []
  }

  /** The positions of the present items among the first `n`. */
  function PresentAt<T>(items: seq<Option<T>>, n: nat): (r: seq<nat>)
    requires n <= |items|
    ensures |r| <= n
    ensures forall k :: 0 <= k < |r| ==> r[k] < n && items[r[k]].Some?
  {
    if n == 0 then [] else PresentAt(items, n - 1) + if items[n - 1].Some? then [n - 1] else []
  }

  /** PresentAt lists every present position, each once, in increasing order. */
  lemma {:induction false} PresentAtExact<T>(items: seq<Option<T>>, n: nat)
    requires n <= |items|
    ensures var r := PresentAt(items, n);
      && (forall i :: 0 <= i < n ==> (i in r <==> items[i].Some?))
      && (forall k, l :: 0 <= k < l < |r| ==> r[k] < r[l])
  {
    if n > 0 {
      PresentAtExact(items, n - 1);
    }
  }

  /** The k-th kept item is the item at the k-th present position. */
  lemma {:induction false} KeptAt<T>(items: seq<Option<T>>, n: nat)
    requires n <= |items|
    ensures var kept, at := Kept(items, n), PresentAt(items, n);
      && |kept| == |at|
      && forall k :: 0 <= k < |kept| ==> kept[k] == items[at[k]].value
  {
    if n > 0 {
      KeptAt(items, n - 1);
    }
  }

  // ---- get_posts ----

  /** The post one file of the posts directory yields: none for a file that
      cannot be read, else the post built from its loaded content. */
  function PostOf(file: SourceFile, yaml: string -> YamlResult, render: string -> string): (p: Option<Post>)
    ensures p.Some? <==> file.text.Some?
  {
    match Load(file, yaml, render)
    case Some(item) => Some(AsPost(item, file))
    case None => None
  }

  /** PostOf for each file of a directory listing, in order. */
  function PostsOf(files: seq<SourceFile>, yaml: string -> YamlResult, render: string -> string): (built: seq<Option<Post>>)
    ensures |built| == |files|
    ensures forall i :: 0 <= i < |files| ==> built[i] == PostOf(files[i], yaml, render)
  {
    if files == [] then []
    else PostsOf(files[..|files| - 1], yaml, render) + [PostOf(files[|files| - 1], yaml, render)]
  }

  /** The posts of a directory listing, before sorting. */
  function Unsorted(files: seq<SourceFile>, yaml: string -> YamlResult, render: string -> string): seq<Post> {
    Kept(PostsOf(files, yaml, render), |files|)
  }

  /** One post per readable file, in the order of the listing: the post
      built from that file's loaded content. */
  lemma UnsortedFromReadable(files: seq<SourceFile>, yaml: string -> YamlResult, render: string -> string)
    ensures var posts, at := Unsorted(files, yaml, render), PresentAt(PostsOf(files, yaml, render), |files|);
      && (forall i :: 0 <= i < |files| ==> (i in at <==> files[i].text.Some?))
      && (forall k, l :: 0 <= k < l < |at| ==> at[k] < at[l])
      && |posts| == |at|
      && forall k :: 0 <= k < |posts| ==> posts[k] == AsPost(Load(files[at[k]], yaml, render).value, files[at[k]])
  {
    var built := PostsOf(files, yaml, render);
    PresentAtExact(built, |files|);
    KeptAt(built, |files|);
  }

  /** Every collected post carries a date, and its slug is the stem of a
      readable file. */
  lemma UnsortedShape(files: seq<SourceFile>, yaml: string -> YamlResult, render: string -> string, p: Post)
    requires p in Unsorted(files, yaml, render)
    ensures "date" in p.item.metadata
    ensures exists f :: f in files && f.text.Some? && p.slug == f.stem
  {
    var built := PostsOf(files, yaml, render);
    var posts, at := Kept(built, |files|), PresentAt(built, |files|);
    KeptAt(built, |files|);
    var k :| 0 <= k < |posts| && posts[k] == p;
    assert files[at[k]] in files;
  }

  /** `built` holds, position by position, the post each file of the listing
      yields. (The trigger keeps the quantifier from unfolding PostOf until a
      proof mentions the post of a particular file.) */
  ghost predicate PostsFor(files: seq<SourceFile>, yaml: string -> YamlResult, render: string -> string, built: seq<Option<Post>>) {
    && |built| == |files|
    && forall i {:trigger PostOf(files[i], yaml, render)} :: 0 <= i < |files| ==> built[i] == PostOf(files[i], yaml, render)
  }

  /** PostsOf is the one sequence PostsFor describes. */
  lemma PostsForIsPostsOf(files: seq<SourceFile>, yaml: string -> YamlResult, render: string -> string, built: seq<Option<Post>>)
    ensures PostsFor(files, yaml, render, built) <==> built == PostsOf(files, yaml, render)
  {
    if PostsFor(files, yaml, render, built) {
      forall i | 0 <= i < |files| ensures built[i] == PostsOf(files, yaml, render)[i] {
        assert built[i] == PostOf(files[i], yaml, render);
      }
    }
  }

  /** One turn of the `get_posts` loop (app.py:102-121): load the i-th file
      and, when it loaded, make a post of it. */
  method CollectPost(files: seq<SourceFile>, i: nat, yaml: string -> YamlResult, render: string -> string, ghost built: seq<Option<Post>>)
    returns (post: Option<Post>)
    requires i < |files| && PostsFor(files, yaml, render, built)
    ensures post == built[i]
  {
    var loaded := LoadContent(files[i], yaml, render);
    if loaded.Some? {
      post := Some(AsPost(loaded.value, files[i]));
    } else {
      post := None;
    }
    assert post == PostOf(files[i], yaml, render);
  }

  /** The loop of `get_posts()` (app.py:102-121) over the markdown files of
      the posts directory, in the order the directory listing yields them:
      load each and keep the readable ones as posts. */
  method CollectPosts(files: seq<SourceFile>, yaml: string -> YamlResult, render: string -> string)
    returns (posts: seq<Post>, ghost built: seq<Option<Post>>)
    ensures PostsFor(files, yaml, render, built)
    ensures posts == Kept(built, |files|)
    ensures posts == Unsorted(files, yaml, render)
  {
    built := PostsOf(files, yaml, render);
    PostsForIsPostsOf(files, yaml, render, built);
    assert |built| == |files|;
    posts := [];
    for i := 0 to |files|
      invariant posts == Kept(built, i)
    {
      var post := CollectPost(files, i, yaml, render, built);
      posts := posts + if post.Some? then [post.value] else [];
    }
  }

  /** `get_posts()`: the posts of the directory, ordered newest first. */
  method GetPosts(files: seq<SourceFile>, yaml: string -> YamlResult, render: string -> string)
    returns (r: Result<seq<Post>, SortError>)
    ensures r == OrderPosts(Unsorted(files, yaml, render))
  {
    ghost var built;
    var posts;
    posts, built := CollectPosts(files, yaml, render);
    PostsForIsPostsOf(files, yaml, render, built);
    r := OrderPosts(posts);
  }

  /** A successful listing holds one post per readable file, each with a
      date and with the stem of a readable file as its slug. */
  lemma ListingShape(files: seq<SourceFile>, yaml: string -> YamlResult, render: string -> string)
    requires OrderPosts(Unsorted(files, yaml, render)).Success?
    ensures var listing, at := OrderPosts(Unsorted(files, yaml, render)).value, PresentAt(PostsOf(files, yaml, render), |files|);
      && |listing| == |at|
      && (forall p :: p in listing ==> "date" in p.item.metadata)
      && (forall p :: p in listing ==> exists f :: f in files && f.text.Some? && p.slug == f.stem)
  {
    var posts := Unsorted(files, yaml, render);
    var listing := OrderPosts(posts).value;
    KeptAt(PostsOf(files, yaml, render), |files|);
    assert |listing| == |multiset(listing)| == |multiset(posts)| == |posts|;
    forall p | p in listing
      ensures "date" in p.item.metadata
      ensures exists f :: f in files && f.text.Some? && p.slug == f.stem
    {
      assert p in multiset(listing);
      assert p in multiset(posts);
      UnsortedShape(files, yaml, render, p);
    }
  }

  // ---- get_pages ----

  /** The index of the last readable file among the first `n` whose stem is `stem`. */
  function LastReadable(files: seq<SourceFile>, n: nat, stem: string): (r: Option<nat>)
    requires n <= |files|
    ensures r.Some? ==> r.value < n && files[r.value].stem == stem && files[r.value].text.Some?
  {
    if n == 0 then None
    else if files[n - 1].stem == stem && files[n - 1].text.Some? then Some(n - 1)
    else LastReadable(files, n - 1, stem)
  }

  /** LastReadable finds the last readable file with the stem, and finds one
      whenever there is one. */
  lemma {:induction false} LastReadableIsLast(files: seq<SourceFile>, n: nat, stem: string, j: nat)
    requires j < n <= |files| && files[j].stem == stem && files[j].text.Some?
    ensures LastReadable(files, n, stem).Some? && j <= LastReadable(files, n, stem).value
  {
    if !(files[n - 1].stem == stem && files[n - 1].text.Some?) {
      LastReadableIsLast(files, n - 1, stem, j);
    }
  }

  /** What `load_content` returns for each file of a directory listing, in order. */
  function LoadAll(files: seq<SourceFile>, yaml: string -> YamlResult, render: string -> string): (loads: seq<Option<ContentItem>>)
    ensures |loads| == |files|
    ensures forall i :: 0 <= i < |files| ==> loads[i] == Load(files[i], yaml, render)
    ensures LoadsMatch(files, loads)
  {
    var loads := seq(|files|, i requires 0 <= i < |files| => Load(files[i], yaml, render));
    assert forall i :: 0 <= i < |files| ==> loads[i] == Load(files[i], yaml, render);
    loads
  }

  /** Each file has loaded to an item exactly when it is readable. */
  predicate LoadsMatch(files: seq<SourceFile>, loads: seq<Option<ContentItem>>) {
    |loads| == |files| && forall i :: 0 <= i < |files| ==> (loads[i].Some? <==> files[i].text.Some?)
  }

  /** The table so far, after one more file has loaded (or not). */
  function AddPage(pages: map<string, ContentItem>, file: SourceFile, loaded: Option<ContentItem>): map<string, ContentItem> {
    if loaded.Some? then pages[file.stem := loaded.value] else pages
  }

  /** The table `get_pages` builds from the first `n` files, given what each
      file loaded to. */
  function PagesFrom(files: seq<SourceFile>, loads: seq<Option<ContentItem>>, n: nat): map<string, ContentItem>
    requires n <= |files| == |loads|
  {
    if n == 0 then map[] else AddPage(PagesFrom(files, loads, n - 1), files[n - 1], loads[n - 1])
  }

  /** The page table of a directory listing. */
  function Pages(files: seq<SourceFile>, yaml: string -> YamlResult, render: string -> string): map<string, ContentItem> {
    PagesFrom(files, LoadAll(files, yaml, render), |files|)
  }

  /** A stem has an entry exactly when some file with that stem is readable,
      and the entry is what the last such file loaded to. */
  lemma {:induction false} PagesFromByStem(files: seq<SourceFile>, loads: seq<Option<ContentItem>>, n: nat, stem: string)
    requires n <= |files| && LoadsMatch(files, loads)
    ensures var pages, last := PagesFrom(files, loads, n), LastReadable(files, n, stem);
      && (stem in pages <==> last.Some?)
      && (stem in pages ==> pages[stem] == loads[last.value].value)
  {
    if n > 0 {
      PagesFromByStem(files, loads, n - 1, stem);
    }
  }

  /** A stem has a page exactly when some file with that stem is readable,
      and the page is what the last such file loads to. */
  lemma PagesByStem(files: seq<SourceFile>, yaml: string -> YamlResult, render: string -> string, stem: string)
    ensures var pages, last := Pages(files, yaml, render), LastReadable(files, |files|, stem);
      && (stem in pages <==> last.Some?)
      && (stem in pages ==> pages[stem] == Load(files[last.value], yaml, render).value)
  {
    PagesFromByStem(files, LoadAll(files, yaml, render), |files|, stem);
  }

  /** `get_pages()` (app.py:140-149): one entry per stem of a readable page
      file, holding the item loaded from the last such file. */
  method GetPages(files: seq<SourceFile>, yaml: string -> YamlResult, render: string -> string)
    returns (pages: map<string, ContentItem>)
    ensures pages == Pages(files, yaml, render)
  {
    ghost var loads := LoadAll(files, yaml, render);
    pages := map[];
    for i := 0 to |files|
      invariant pages == PagesFrom(files, loads, i)
    {
      var loaded := LoadContent(files[i], yaml, render);
      pages := AddPage(pages, files[i], loaded);
    }
  }
}
