/**
 * The chart data of the development page (`safe_get_month` and
 * `analyze_posts_data` in app.py): posts counted per month over the last
 * twelve 30-day steps, and the eight most common tags.
 *
 * The clock is not part of the model: the caller passes the current day.
 */
module Analysis {
  import opened Wrappers
  import opened Text
  import opened Dates
  import opened Meta
  import opened StableSort
  import opened Posts

  // ---- safe_get_month ----

  /** The patterns `safe_get_month` tries on a string, in this order. */
  const MonthFormats: seq<ParseFormat> := [YmdDash, YmdSlash, DmyDash, DmySlash]

  /** The date parsed by the first of `formats` that accepts `s`. */
  function FirstParse(s: string, formats: seq<ParseFormat>): (r: Option<Date>)
    ensures r.Some? ==> Valid(r.value)
  {
    if formats == [] then None
    else match Strptime(s, formats[0])
      case Some(d) => Some(d)
      case None => FirstParse(s, formats[1..])
  }

  /** The patterns are tried in order: no date exactly when every pattern
      fails, and otherwise the date of the first pattern that succeeds. */
  lemma {:induction false} FirstParseFirst(s: string, formats: seq<ParseFormat>)
    ensures FirstParse(s, formats).None? <==>
      forall i {:trigger Strptime(s, formats[i])} :: 0 <= i < |formats| ==> Strptime(s, formats[i]).None?
    ensures FirstParse(s, formats).Some? ==>
      exists i {:trigger Strptime(s, formats[i])} :: && 0 <= i < |formats| && Strptime(s, formats[i]) == FirstParse(s, formats)
        && forall j {:trigger Strptime(s, formats[j])} :: 0 <= j < i ==> Strptime(s, formats[j]).None?
  {
    if formats != [] {
      if Strptime(s, formats[0]).Some? {
        assert Strptime(s, formats[0]) == FirstParse(s, formats);
      } else {
        var rest := formats[1..];
        FirstParseFirst(s, rest);
        assert forall i {:trigger formats[i]} :: 1 <= i < |formats| ==> formats[i] == rest[i - 1];
        if FirstParse(s, rest).Some? {
          var k :| && 0 <= k < |rest| && Strptime(s, rest[k]) == FirstParse(s, rest)
                   && forall j {:trigger Strptime(s, rest[j])} :: 0 <= j < k ==> Strptime(s, rest[j]).None?;
          assert Strptime(s, formats[k + 1]) == FirstParse(s, formats);
        }
      }
    }
  }

  /** `safe_get_month(date_value)` (app.py:152-170): a date gives its
      '%Y-%m'; a string gives the '%Y-%m' of the first pattern that parses
      it, else its first seven characters when it has that many; anything
      else gives None. Every month key has seven characters. */
  function SafeGetMonth(v: MetaValue): (r: Option<string>)
    ensures r.Some? ==> |r.value| == 7
  {
    match MonthDate(v)
    case Some(d) => Some(Strftime(d, IsoMonth))
    case None => if v.Str? && |v.s| >= 7 then Some(v.s[..7]) else None
  }

  /** The date `safe_get_month` finds in a value: a date itself, or the
      first parse of a string; nothing in a value of any other kind. */
  function MonthDate(v: MetaValue): (r: Option<CalendarDate>)
    ensures !v.Str? && !v.DateVal? ==> r.None?
  {
    match v
    case DateVal(d) => Some(d)
    case Str(s) => FirstParse(s, MonthFormats)
    case _ => None
  }

  /** What `safe_get_month` promises: a date gives its '%Y-%m'; a string
      that some pattern parses gives the '%Y-%m' of the first pattern, in
      the order tried, that parses it; any other string gives its first
      seven characters when it has that many and None otherwise; a value
      of any other kind gives None. */
  lemma SafeGetMonthSpec(v: MetaValue)
    ensures v.DateVal? ==> SafeGetMonth(v) == Some(Strftime(v.d, IsoMonth))
    ensures v.Str? && (exists i :: 0 <= i < |MonthFormats| && Strptime(v.s, MonthFormats[i]).Some?) ==>
      exists i :: && 0 <= i < |MonthFormats|
                  && (forall j :: 0 <= j < i ==> Strptime(v.s, MonthFormats[j]).None?)
                  && Strptime(v.s, MonthFormats[i]).Some?
                  && SafeGetMonth(v) == Some(Strftime(Strptime(v.s, MonthFormats[i]).value, IsoMonth))
    ensures v.Str? && (forall i :: 0 <= i < |MonthFormats| ==> Strptime(v.s, MonthFormats[i]).None?) ==>
      SafeGetMonth(v) == if |v.s| >= 7 then Some(v.s[..7]) else None
    ensures !v.Str? && !v.DateVal? ==> SafeGetMonth(v).None?
  {
    if v.Str? {
      var s := v.s;
      var r := FirstParse(s, MonthFormats);
      FirstParseFirst(s, MonthFormats);
      if r.Some? {
        var i :| && 0 <= i < |MonthFormats| && Strptime(s, MonthFormats[i]) == r
                 && forall j {:trigger Strptime(s, MonthFormats[j])} :: 0 <= j < i ==> Strptime(s, MonthFormats[j]).None?;
        assert SafeGetMonth(v) == Some(Strftime(r.value, IsoMonth));
      }
    }
  }

  /** A date and its ISO text fall in the same month, and that month is the
      text's first seven characters. */
  lemma SafeGetMonthIsoText(d: CalendarDate)
    ensures SafeGetMonth(Str(Strftime(d, IsoDay))) == SafeGetMonth(DateVal(d))
    ensures SafeGetMonth(DateVal(d)) == Some(Strftime(d, IsoDay)[..7])
  {
    IsoDayRoundTrip(d);
    IsoMonthIsPrefix(d);
  }

  // ---- the posts loop ----

  /** The month key of a post, if it has one (app.py:181-182): seven
      characters, and none for a post without a `date`, whose empty
      stand-in neither parses nor has seven characters. */
  function MonthKey(p: Post): (r: Option<string>)
    ensures "date" !in p.item.metadata ==> r.None?
    ensures r.Some? ==> |r.value| == 7
  {
    FirstParseFirst("", MonthFormats);
    SafeGetMonth(DateOf(p))
  }

  /** `counts.get(k, 0)` */
  function Lookup(counts: map<string, nat>, k: string): nat {
    if k in counts then counts[k] else 0
  }

  /** `f` applied to each element, in order (a list comprehension). */
  function Map<A, B>(f: A -> B, xs: seq<A>): (ys: seq<B>)
    ensures |ys| == |xs| && forall i :: 0 <= i < |xs| ==> ys[i] == f(xs[i])
  {
    if xs == [] then [] else Map(f, xs[..|xs| - 1]) + [f(xs[|xs| - 1])]
  }

  /** The month key of each post, in order. */
  function MonthKeys(posts: seq<Post>): seq<Option<string>> {
    Map(MonthKey, posts)
  }

  /** `counts[k] = counts.get(k, 0) + 1` for each present key, in order. */
  function Tally(keys: seq<Option<string>>): map<string, nat> {
    if keys == [] then map[]
    else
      var counts := Tally(keys[..|keys| - 1]);
      match keys[|keys| - 1]
      case Some(k) => counts[k := Lookup(counts, k) + 1]
      case None => counts
  }

  /** The positions holding key `k`. */
  ghost function Positions(keys: seq<Option<string>>, k: string): set<nat> {
    set i | 0 <= i < |keys| && keys[i] == Some(k)
  }

  /** One more key adds one position for that key and none for any other. */
  lemma PositionsSnoc(keys: seq<Option<string>>, k: string)
    requires keys != []
    ensures var n := |keys| - 1;
      |Positions(keys, k)| == |Positions(keys[..n], k)| + if keys[n] == Some(k) then 1 else 0
  {
    var n := |keys| - 1;
    var init := keys[..n];
    var earlier := Positions(init, k);
    assert forall i :: 0 <= i < n ==> keys[i] == init[i];
    if keys[n] == Some(k) {
      assert Positions(keys, k) == earlier + {n};
      assert n !in earlier;
    } else {
      assert Positions(keys, k) == earlier;
    }
  }

  /** The tally of a key is the number of positions holding it, and a key is
      in the tally exactly when some position holds it. */
  lemma {:induction false} TallyCounts(keys: seq<Option<string>>)
    ensures forall k :: Lookup(Tally(keys), k) == |Positions(keys, k)|
    ensures forall k :: k in Tally(keys) <==> Positions(keys, k) != {}
  {
    if keys != [] {
      TallyCounts(keys[..|keys| - 1]);
      forall k
        ensures Lookup(Tally(keys), k) == |Positions(keys, k)|
        ensures k in Tally(keys) <==> Positions(keys, k) != {}
      {
        PositionsSnoc(keys, k);
      }
    }
  }

  /** `posts_by_month` after the loop of app.py:179-185 over `posts`. */
  function MonthTally(posts: seq<Post>): map<string, nat> {
    Tally(MonthKeys(posts))
  }

  /** The positions of the posts whose month key is `k`. */
  ghost function InMonth(posts: seq<Post>, k: string): set<nat> {
    set i | 0 <= i < |posts| && MonthKey(posts[i]) == Some(k)
  }

  /** The tally of a month is the number of posts in it, and a month is in
      the tally exactly when some post falls in it. */
  lemma MonthTallyCounts(posts: seq<Post>)
    ensures forall k :: Lookup(MonthTally(posts), k) == |InMonth(posts, k)|
    ensures forall k :: k in MonthTally(posts) <==> InMonth(posts, k) != {}
  {
    var keys := MonthKeys(posts);
    TallyCounts(keys);
    forall k ensures InMonth(posts, k) == Positions(keys, k) {
    }
  }

  /** The tags one post contributes (app.py:188-193): each element of a
      list as text, the comma-separated pieces of a string, stripped, and
      nothing for a value of any other kind or for a post without `tags`.
      StringTagsClean gives the string case. */
  function TagsOf(p: Post): (r: seq<string>)
    ensures "tags" !in p.item.metadata ==> r == []
    ensures "tags" in p.item.metadata && p.item.metadata["tags"].ListVal? ==>
      |r| == |p.item.metadata["tags"].items| &&
      forall k :: 0 <= k < |r| ==> r[k] == Display(p.item.metadata["tags"].items[k])
    ensures "tags" in p.item.metadata && !p.item.metadata["tags"].ListVal? && !p.item.metadata["tags"].Str? ==> r == []
  {
    var v := if "tags" in p.item.metadata then p.item.metadata["tags"] else ListVal([]);
    match v
    case ListVal(items) => Map(Display, items)
    case Str(s) => Map(Strip, SplitOn(s, ','))
    case _ => []
  }

  /** A tag that holds no comma and has no whitespace at either end. */
  predicate CleanTag(t: string) {
    ',' !in t && (t == [] || (!IsSpace(t[0]) && !IsSpace(t[|t| - 1])))
  }

  /** Stripping a piece without a comma gives a clean tag. */
  lemma StripClean(piece: string)
    requires ',' !in piece
    ensures CleanTag(Strip(piece))
  {
    StripKeepsOut(piece, ',');
  }

  /** Stripped pieces that held no comma are clean tags. */
  lemma StrippedPiecesClean(parts: seq<string>)
    requires forall k :: 0 <= k < |parts| ==> ',' !in parts[k]
    ensures forall t :: t in Map(Strip, parts) ==> CleanTag(t)
  {
    var tags := Map(Strip, parts);
    forall k | 0 <= k < |parts| ensures CleanTag(tags[k]) {
      StripClean(parts[k]);
    }
  }

  /** A comma-separated tag string gives one tag per piece, the piece with
      its edge whitespace stripped; no tag holds a comma or starts or ends
      with whitespace. */
  lemma StringTagsClean(p: Post, s: string)
    requires "tags" in p.item.metadata && p.item.metadata["tags"] == Str(s)
    ensures |TagsOf(p)| == |SplitOn(s, ',')|
    ensures forall k :: 0 <= k < |SplitOn(s, ',')| ==> TagsOf(p)[k] == Strip(SplitOn(s, ',')[k])
    ensures forall t :: t in TagsOf(p) ==> CleanTag(t)
  {
    var parts := SplitOn(s, ',');
    assert TagsOf(p) == Map(Strip, parts);
    StrippedPiecesClean(parts);
  }

  /** The tags of each post, in order. */
  function TagLists(posts: seq<Post>): seq<seq<string>> {
    Map(TagsOf, posts)
  }

  /** The lists one after another (`extend` in a loop). */
  function Flatten(lists: seq<seq<string>>): seq<string> {
    if lists == [] then [] else Flatten(lists[..|lists| - 1]) + lists[|lists| - 1]
  }

  /** A string is in the flattened lists exactly when it is in one of them. */
  lemma {:induction false} FlattenMembers(lists: seq<seq<string>>, t: string)
    ensures t in Flatten(lists) <==> exists i :: 0 <= i < |lists| && t in lists[i]
  {
    if lists != [] {
      var n := |lists| - 1;
      var init := lists[..n];
      FlattenMembers(init, t);
      if exists i :: 0 <= i < |lists| && t in lists[i] {
        var i :| 0 <= i < |lists| && t in lists[i];
        if i < n {
          assert init[i] == lists[i];
        }
      }
    }
  }

  /** `all_tags` after the loop of app.py:179-193 over `posts`. */
  function AllTags(posts: seq<Post>): seq<string> {
    Flatten(TagLists(posts))
  }

  /** Every tag in `all_tags` comes from some post, and every tag of every
      post is in it. */
  lemma AllTagsFromPosts(posts: seq<Post>, t: string)
    ensures t in AllTags(posts) <==> exists i :: 0 <= i < |posts| && t in TagsOf(posts[i])
  {
    var lists := TagLists(posts);
    FlattenMembers(lists, t);
    if t in Flatten(lists) {
      var i :| 0 <= i < |lists| && t in lists[i];
      assert t in TagsOf(posts[i]);
    }
    if exists i :: 0 <= i < |posts| && t in TagsOf(posts[i]) {
      var i :| 0 <= i < |posts| && t in TagsOf(posts[i]);
      assert t in lists[i];
    }
  }

  /** `keys` and `lists` hold each post's month key and tags. (The trigger
      keeps the quantifier from unfolding MonthKey until a proof mentions the
      key of a particular post.) */
  ghost predicate ReadAll(posts: seq<Post>, keys: seq<Option<string>>, lists: seq<seq<string>>) {
    && |keys| == |posts| && |lists| == |posts|
    && forall i {:trigger MonthKey(posts[i])} :: 0 <= i < |posts| ==>
         keys[i] == MonthKey(posts[i]) && lists[i] == TagsOf(posts[i])
  }

  /** MonthKeys and TagLists are what ReadAll describes. */
  lemma ReadAllIsKeysAndLists(posts: seq<Post>, keys: seq<Option<string>>, lists: seq<seq<string>>)
    ensures ReadAll(posts, keys, lists) <==> keys == MonthKeys(posts) && lists == TagLists(posts)
  {
    if ReadAll(posts, keys, lists) {
      forall i | 0 <= i < |posts| ensures keys[i] == MonthKeys(posts)[i] && lists[i] == TagLists(posts)[i] {
        assert keys[i] == MonthKey(posts[i]);
      }
    }
  }

  lemma ReadAllExists(posts: seq<Post>)
    ensures exists keys, lists :: ReadAll(posts, keys, lists)
  {
    ReadAllIsKeysAndLists(posts, MonthKeys(posts), TagLists(posts));
  }

  /** The body of the loop of app.py:179-193 for one post: its month key,
      and the tags it adds to `all_tags` by the list-or-string test on its
      `tags` entry; these are the key and the tags ReadAll gives the post. */
  method ReadPost(posts: seq<Post>, i: nat, ghost keys: seq<Option<string>>, ghost lists: seq<seq<string>>)
    returns (month: Option<string>, tags: seq<string>)
    requires i < |posts| && ReadAll(posts, keys, lists)
    ensures month == keys[i] && tags == lists[i]
  {
    var post := posts[i];
    month := SafeGetMonth(DateOf(post));
    var value := if "tags" in post.item.metadata then post.item.metadata["tags"] else ListVal([]);
    if value.ListVal? {
      tags := Map(Display, value.items);
    } else if value.Str? {
      tags := Map(Strip, SplitOn(value.s, ','));
    } else {
      tags := [];
    }
    assert MonthKey(posts[i]) == keys[i];
  }

  /** The loop of app.py:179-193: tally the posts per month and gather their
      tags; `keys` and `lists` are each post's month key and tags. */
  method TallyPosts(posts: seq<Post>)
    returns (byMonth: map<string, nat>, allTags: seq<string>, ghost keys: seq<Option<string>>, ghost lists: seq<seq<string>>)
    ensures ReadAll(posts, keys, lists)
    ensures byMonth == Tally(keys) && allTags == Flatten(lists)
    ensures byMonth == MonthTally(posts) && allTags == AllTags(posts)
  {
    ReadAllExists(posts);
    keys, lists :| ReadAll(posts, keys, lists);
    assert ReadAll(posts, keys, lists);
    byMonth := map[];
    allTags := [];
    for i := 0 to |posts|
      invariant byMonth == Tally(keys[..i])
      invariant allTags == Flatten(lists[..i])
    {
      assert keys[..i + 1][..i] == keys[..i];
      assert lists[..i + 1][..i] == lists[..i];
      var month, tags := ReadPost(posts, i, keys, lists);
      if month.Some? {
        byMonth := byMonth[month.value := Lookup(byMonth, month.value) + 1];
      }
      allTags := allTags + tags;
    }
    assert keys[..|posts|] == keys;
    assert lists[..|posts|] == lists;
    ReadAllIsKeysAndLists(posts, keys, lists);
  }

  // ---- the twelve monthly buckets ----

  /** The bucket days step back 30 days at a time, so eleven steps must stay
      on or after 0001-01-01. */
  const Span := 30 * 11

  /** The day of bucket `j`, oldest first: `now - timedelta(days=30 * (11 - j))`. */
  function BucketDay(today: CalendarDate, j: nat): CalendarDate
    requires j < 12 && DayNumber(today) > Span
  {
    SubtractDaysFails(today, 30 * (11 - j));
    SubtractDays(today, 30 * (11 - j)).value
  }

  /** Bucket `j` lies 30 * (11 - j) days before today. */
  lemma BucketDayNumber(today: CalendarDate, j: nat)
    requires j < 12 && DayNumber(today) > Span
    ensures DayNumber(BucketDay(today, j)) == DayNumber(today) - 30 * (11 - j)
  {
    SubtractDaysFails(today, 30 * (11 - j));
    SubtractDaysNumber(today, 30 * (11 - j));
  }

  /** The labels and counts of the twelve months. */
  datatype Series = Series(labels: seq<string>, counts: seq<nat>)

  /** `labels` and `counts` are the twelve buckets, oldest first: bucket `j`
      is labelled '%Y年%m月' and counted by the tally of its '%Y-%m' month.
      (The trigger keeps the quantifier from unfolding Strftime until a proof
      names the day of a particular bucket.) */
  ghost predicate Buckets(today: CalendarDate, byMonth: map<string, nat>, labels: seq<string>, counts: seq<nat>) {
    && |labels| == 12 && |counts| == 12
    && forall j {:trigger BucketDay(today, j)} :: 0 <= j < 12 && DayNumber(today) > Span ==>
         && labels[j] == Strftime(BucketDay(today, j), CnMonth)
         && counts[j] == Lookup(byMonth, Strftime(BucketDay(today, j), IsoMonth))
  }

  lemma BucketsExist(today: CalendarDate, byMonth: map<string, nat>)
    ensures exists labels, counts :: Buckets(today, byMonth, labels, counts)
  {
    var labels := seq(12, j => if 0 <= j < 12 && DayNumber(today) > Span then Strftime(BucketDay(today, j), CnMonth) else "");
    var counts := seq(12, j => if 0 <= j < 12 && DayNumber(today) > Span then Lookup(byMonth, Strftime(BucketDay(today, j), IsoMonth)) else 0);
    assert Buckets(today, byMonth, labels, counts);
  }

  /** The label and tally of the bucket `i` steps of 30 days back from
      today (app.py:198-203); None where Python raises OverflowError. */
  method Bucket(today: CalendarDate, byMonth: map<string, nat>, i: nat,
                ghost wantLabels: seq<string>, ghost wantCounts: seq<nat>) returns (r: Option<(string, nat)>)
    requires i < 12 && Buckets(today, byMonth, wantLabels, wantCounts)
    ensures r.None? <==> DayNumber(today) <= 30 * i
    ensures r.Some? && DayNumber(today) > Span ==> r.value == (wantLabels[11 - i], wantCounts[11 - i])
  {
    var day := SubtractDays(today, 30 * i);
    SubtractDaysFails(today, 30 * i);
    if day.None? {
      return None;
    }
    r := Some((Strftime(day.value, CnMonth), Lookup(byMonth, Strftime(day.value, IsoMonth))));
    if DayNumber(today) > Span {
      assert day.value == BucketDay(today, 11 - i);
    }
  }

  /** The loop of app.py:196-204: for i from 11 down to 0, the month of
      `now - 30*i days` gives a '%Y年%m月' label and that month's tally.
      Python raises OverflowError when the first step falls before
      0001-01-01; the model returns None then. */
  method MonthlySeries(today: CalendarDate, byMonth: map<string, nat>) returns (r: Option<Series>)
    ensures r.None? <==> DayNumber(today) <= Span
    ensures r.Some? ==> Buckets(today, byMonth, r.value.labels, r.value.counts)
  {
    BucketsExist(today, byMonth);
    ghost var wantLabels, wantCounts :| Buckets(today, byMonth, wantLabels, wantCounts);
    assert Buckets(today, byMonth, wantLabels, wantCounts);
    var labels: seq<string> := [];
    var counts: seq<nat> := [];
    var i := 12;
    while i > 0
      invariant 0 <= i <= 12
      invariant i < 12 ==> DayNumber(today) > Span
      invariant labels == wantLabels[..12 - i] && counts == wantCounts[..12 - i]
    {
      i := i - 1;
      var bucket := Bucket(today, byMonth, i, wantLabels, wantCounts);
      if bucket.None? {
        return None;
      }
      assert wantLabels[..12 - i] == labels + [wantLabels[11 - i]];
      assert wantCounts[..12 - i] == counts + [wantCounts[11 - i]];
      labels := labels + [bucket.value.0];
      counts := counts + [bucket.value.1];
    }
    assert labels == wantLabels && counts == wantCounts;
    r := Some(Series(labels, counts));
  }

  /** Consecutive buckets are 30 days apart and the last is today. */
  lemma BucketsStepBack(today: CalendarDate, j: nat)
    requires j < 11 && DayNumber(today) > Span
    ensures DayNumber(BucketDay(today, j + 1)) == DayNumber(BucketDay(today, j)) + 30
    ensures BucketDay(today, 11) == today
  {
    BucketDayNumber(today, j);
    BucketDayNumber(today, j + 1);
  }

  // ---- the most common tags ----

  /** A tag and how often it occurs. */
  datatype TagCount = TagCount(tag: string, count: nat)

  function CountOf(c: TagCount): int {
    c.count
  }

  /** The distinct tags in the order they first occur (a Counter's key order). */
  function Distinct(tags: seq<string>): (r: seq<string>)
    ensures forall t :: t in r <==> t in tags
    ensures forall i, j :: 0 <= i < j < |r| ==> r[i] != r[j]
  {
    if tags == [] then []
    else
      var d := Distinct(tags[..|tags| - 1]);
      var last := tags[|tags| - 1];
      assert tags == tags[..|tags| - 1] + [last];
      if last in d then d else d + [last]
  }

  /** Where `t` first occurs in `tags`. */
  function FirstAt(tags: seq<string>, t: string): (i: nat)
    requires t in tags
    ensures i < |tags| && tags[i] == t && t !in tags[..i]
  {
    var init := tags[..|tags| - 1];
    if t in init then
      var i := FirstAt(init, t);
      assert tags[..i] == init[..i];
      i
    else |tags| - 1
  }

  /** Distinct lists the tags by where they first occur. */
  lemma {:induction false} DistinctFirstSeen(tags: seq<string>)
    ensures forall i, j :: 0 <= i < j < |Distinct(tags)| ==>
      FirstAt(tags, Distinct(tags)[i]) < FirstAt(tags, Distinct(tags)[j])
  {
    if tags != [] {
      var n := |tags| - 1;
      var init, last := tags[..n], tags[n];
      DistinctFirstSeen(init);
      var d, r := Distinct(init), Distinct(tags);
      forall t | t in init ensures FirstAt(tags, t) == FirstAt(init, t) {
      }
      forall i, j | 0 <= i < j < |r| ensures FirstAt(tags, r[i]) < FirstAt(tags, r[j]) {
        assert r[i] == d[i] && d[i] in d && d[i] in init;
        var a := FirstAt(init, d[i]);
        assert FirstAt(tags, r[i]) == a;
        if j < |d| {
          assert r[j] == d[j] && d[j] in d && d[j] in init;
          assert FirstAt(tags, r[j]) == FirstAt(init, d[j]);
          assert a < FirstAt(init, d[j]);
        } else {
          assert r[j] == last && last !in d && last !in init;
          assert FirstAt(tags, r[j]) == n;
          assert a < n;
        }
      }
    }
  }

  /** Each tag of `distinct` with its number of occurrences in `tags`. */
  function CountAll(distinct: seq<string>, tags: seq<string>): (r: seq<TagCount>)
    ensures |r| == |distinct|
    ensures forall i :: 0 <= i < |distinct| ==> r[i] == TagCount(distinct[i], multiset(tags)[distinct[i]])
  {
    if distinct == [] then []
    else
      var last := distinct[|distinct| - 1];
      CountAll(distinct[..|distinct| - 1], tags) + [TagCount(last, multiset(tags)[last])]
  }

  /** `Counter(tags).items()`, in the Counter's key order. */
  function CounterItems(tags: seq<string>): seq<TagCount> {
    CountAll(Distinct(tags), tags)
  }

  /** `Counter(tags).most_common(n)`: the items sorted by count, largest
      first, ties in the Counter's key order, cut to the first n. */
  function MostCommon(tags: seq<string>, n: nat): (r: seq<TagCount>)
    ensures |r| == if n < |Distinct(tags)| then n else |Distinct(tags)|
  {
    var sorted := SortDesc(CounterItems(tags), CountOf);
    if n < |sorted| then sorted[..n] else sorted
  }

  /** Where an item's tag first occurs, for ordering ties. */
  function FirstRank(tags: seq<string>): TagCount -> int {
    (c: TagCount) => if c.tag in tags then FirstAt(tags, c.tag) else -1
  }

  /** The Counter's items: one per distinct tag, each with that tag's number
      of occurrences. */
  lemma CounterItemsShape(tags: seq<string>)
    ensures forall c :: c in CounterItems(tags) ==> c.tag in tags && c.count == multiset(tags)[c.tag]
    ensures forall i, j :: 0 <= i < j < |CounterItems(tags)| ==> CounterItems(tags)[i].tag != CounterItems(tags)[j].tag
    ensures forall t :: t in tags ==> TagCount(t, multiset(tags)[t]) in CounterItems(tags)
  {
    var items, d := CounterItems(tags), Distinct(tags);
    forall c | c in items ensures c.tag in tags && c.count == multiset(tags)[c.tag] {
      var a :| 0 <= a < |items| && items[a] == c;
      assert d[a] in d;
    }
    forall t | t in tags ensures TagCount(t, multiset(tags)[t]) in items {
      var a :| 0 <= a < |d| && d[a] == t;
      assert items[a] == TagCount(t, multiset(tags)[t]);
    }
  }

  /** The Counter's items stand in the order their tags first occur. */
  lemma CounterItemsRanked(tags: seq<string>)
    ensures var items := CounterItems(tags);
      forall i, j :: 0 <= i < j < |items| ==> FirstRank(tags)(items[i]) < FirstRank(tags)(items[j])
  {
    var items, d := CounterItems(tags), Distinct(tags);
    DistinctFirstSeen(tags);
    forall i, j | 0 <= i < j < |items| ensures FirstRank(tags)(items[i]) < FirstRank(tags)(items[j]) {
      assert items[i].tag == d[i] && items[j].tag == d[j];
      assert d[i] in d && d[j] in d;
    }
  }

  /** Sorting the Counter's items keeps equal counts in the order their tags first occur. */
  lemma SortedItems(tags: seq<string>)
    ensures TiesOrdered(SortDesc(CounterItems(tags), CountOf), CountOf, FirstRank(tags))
  {
    CounterItemsRanked(tags);
    SortDescTiesOrdered(CounterItems(tags), CountOf, FirstRank(tags));
  }

  /** In a sequence without repeats, every element occurs at most once. */
  lemma {:induction false} MultiplicityAtMostOne(items: seq<TagCount>, x: TagCount)
    requires forall a, b :: 0 <= a < b < |items| ==> items[a] != items[b]
    ensures multiset(items)[x] <= 1
  {
    if items != [] {
      var init := items[..|items| - 1];
      MultiplicityAtMostOne(init, x);
      assert items == init + [items[|items| - 1]];
    }
  }

  /** A rearrangement of a sequence without repeats has none either. */
  lemma NoRepeatsKept(items: seq<TagCount>, sorted: seq<TagCount>, i: nat, j: nat)
    requires multiset(sorted) == multiset(items)
    requires forall a, b :: 0 <= a < b < |items| ==> items[a] != items[b]
    requires i < j < |sorted|
    ensures sorted[i] != sorted[j]
  {
    var x := sorted[i];
    MultiplicityAtMostOne(items, x);
    assert sorted == sorted[..i] + [x] + sorted[i + 1..j] + [sorted[j]] + sorted[j + 1..];
  }

  /** MostCommon is a prefix of the sorted Counter items. */
  lemma MostCommonPrefix(tags: seq<string>, n: nat)
    ensures |MostCommon(tags, n)| <= |SortDesc(CounterItems(tags), CountOf)|
    ensures MostCommon(tags, n) == SortDesc(CounterItems(tags), CountOf)[..|MostCommon(tags, n)|]
  {
  }

  /** A prefix of a rearrangement of items with distinct tags holds items,
      with distinct tags. */
  lemma PrefixDistinct(items: seq<TagCount>, sorted: seq<TagCount>, r: seq<TagCount>)
    requires multiset(sorted) == multiset(items)
    requires forall i, j :: 0 <= i < j < |items| ==> items[i].tag != items[j].tag
    requires |r| <= |sorted| && r == sorted[..|r|]
    ensures forall e :: e in r ==> e in items
    ensures forall i, j :: 0 <= i < j < |r| ==> r[i].tag != r[j].tag
  {
    forall e | e in r ensures e in items {
      assert e in sorted;
      assert e in multiset(sorted);
    }
    forall i, j | 0 <= i < j < |r| ensures r[i].tag != r[j].tag {
      NoRepeatsKept(items, sorted, i, j);
      assert sorted[i] in multiset(items) && sorted[j] in multiset(items);
      var a :| 0 <= a < |items| && items[a] == sorted[i];
      var b :| 0 <= b < |items| && items[b] == sorted[j];
      assert a != b;
    }
  }

  /** A prefix of a descending, tie-ordered sequence is descending and
      tie-ordered, pair by pair. */
  lemma PrefixOrdered(sorted: seq<TagCount>, r: seq<TagCount>, rank: TagCount -> int)
    requires Descending(sorted, CountOf) && TiesOrdered(sorted, CountOf, rank)
    requires |r| <= |sorted| && r == sorted[..|r|]
    ensures forall i, j :: 0 <= i < j < |r| ==>
      r[i].count >= r[j].count && (r[i].count == r[j].count ==> rank(r[i]) < rank(r[j]))
  {
    forall i, j | 0 <= i < j < |r|
      ensures r[i].count >= r[j].count && (r[i].count == r[j].count ==> rank(r[i]) < rank(r[j]))
    {
      DescendingPairwise(sorted, CountOf, i, j);
    }
  }

  /** What a prefix of a descending, tie-ordered rearrangement leaves out
      counts no more than anything it keeps, and on equal counts it ranks
      after everything it keeps. */
  lemma {:induction false} PrefixMaximal(items: seq<TagCount>, sorted: seq<TagCount>, r: seq<TagCount>, c: TagCount, rank: TagCount -> int)
    requires multiset(sorted) == multiset(items) && Descending(sorted, CountOf)
    requires TiesOrdered(sorted, CountOf, rank)
    requires |r| <= |sorted| && r == sorted[..|r|]
    requires c in items
    ensures c in r || forall e :: e in r ==> e.count >= c.count && (e.count == c.count ==> rank(e) < rank(c))
  {
    assert c in multiset(sorted);
    var j :| 0 <= j < |sorted| && sorted[j] == c;
    if j < |r| {
      assert r[j] == c;
    } else {
      forall e | e in r ensures e.count >= c.count && (e.count == c.count ==> rank(e) < rank(c)) {
        var i :| 0 <= i < |r| && r[i] == e;
        assert sorted[i] == e && i < j;
        DescendingPairwise(sorted, CountOf, i, j);
        assert CountOf(e) == CountOf(c) ==> rank(e) < rank(c);
      }
    }
  }

  /** Entries drawn from items that count their tags' occurrences count them too. */
  lemma OccurringEntries(tags: seq<string>, items: seq<TagCount>, r: seq<TagCount>)
    requires forall c :: c in items ==> c.tag in tags && c.count == multiset(tags)[c.tag]
    requires forall e :: e in r ==> e in items
    ensures forall e :: e in r ==> e.tag in tags && e.count == multiset(tags)[e.tag] && e.count >= 1
  {
  }

  /** Each entry of `most_common` is a distinct tag that occurs, with the
      number of times it occurs. */
  lemma MostCommonCounts(tags: seq<string>, n: nat)
    ensures forall e :: e in MostCommon(tags, n) ==> e.tag in tags && e.count == multiset(tags)[e.tag] && e.count >= 1
    ensures forall i, j :: 0 <= i < j < |MostCommon(tags, n)| ==> MostCommon(tags, n)[i].tag != MostCommon(tags, n)[j].tag
  {
    var items := CounterItems(tags);
    var sorted := SortDesc(items, CountOf);
    var r := MostCommon(tags, n);
    CounterItemsShape(tags);
    MostCommonPrefix(tags, n);
    PrefixDistinct(items, sorted, r);
    OccurringEntries(tags, items, r);
  }

  /** `most_common` lists counts from largest to smallest, and entries with
      equal counts in the order their tags first occur. */
  lemma MostCommonOrdered(tags: seq<string>, n: nat)
    ensures var r := MostCommon(tags, n);
      forall i, j :: 0 <= i < j < |r| ==>
        && r[i].count >= r[j].count
        && (r[i].count == r[j].count ==>
              r[i].tag in tags && r[j].tag in tags && FirstAt(tags, r[i].tag) < FirstAt(tags, r[j].tag))
  {
    var r := MostCommon(tags, n);
    SortedItems(tags);
    MostCommonPrefix(tags, n);
    MostCommonCounts(tags, n);
    PrefixOrdered(SortDesc(CounterItems(tags), CountOf), r, FirstRank(tags));
    forall i, j | 0 <= i < j < |r| ensures r[i].tag in tags && r[j].tag in tags {
      assert r[i] in r && r[j] in r;
    }
  }

  /** No tag left out of `most_common` occurs more often than any tag in it,
      and a tag left out at a tie first occurs after every tag kept with
      the same count. */
  lemma MostCommonMaximal(tags: seq<string>, n: nat, t: string)
    requires t in tags
    requires forall e :: e in MostCommon(tags, n) ==> e.tag != t
    ensures forall e :: e in MostCommon(tags, n) ==> e.count >= multiset(tags)[t]
    ensures forall e :: e in MostCommon(tags, n) && e.count == multiset(tags)[t] ==>
      e.tag in tags && FirstAt(tags, e.tag) < FirstAt(tags, t)
  {
    var items := CounterItems(tags);
    var sorted := SortDesc(items, CountOf);
    var r := MostCommon(tags, n);
    CounterItemsShape(tags);
    SortedItems(tags);
    MostCommonPrefix(tags, n);
    MostCommonCounts(tags, n);
    PrefixMaximal(items, sorted, r, TagCount(t, multiset(tags)[t]), FirstRank(tags));
  }

  // ---- analyze_posts_data ----

  /** The number of tags the development page shows. */
  const TopTagCount := 8

  /** What `analyze_posts_data` returns. */
  datatype ChartData = ChartData(months: seq<string>, postsByMonth: seq<nat>, topTags: seq<TagCount>)

  /** `analyze_posts_data(posts)` (app.py:173-214) with `today` for
      `datetime.now()`: twelve month labels, oldest first; for each, the
      number of posts whose month key is that month; and the eight most
      common tags. None where Python raises OverflowError. */
  method AnalyzePostsData(posts: seq<Post>, today: CalendarDate) returns (r: Option<ChartData>)
    ensures r.None? <==> DayNumber(today) <= Span
    ensures r.Some? ==> |r.value.months| == 12 && |r.value.postsByMonth| == 12
    ensures r.Some? ==> forall j :: 0 <= j < 12 ==>
      && r.value.months[j] == Strftime(BucketDay(today, j), CnMonth)
      && r.value.postsByMonth[j] == |InMonth(posts, Strftime(BucketDay(today, j), IsoMonth))|
    ensures r.Some? ==> r.value.topTags == MostCommon(AllTags(posts), TopTagCount)
  {
    ghost var keys, lists;
    var byMonth, allTags;
    byMonth, allTags, keys, lists := TallyPosts(posts);
    ReadAllIsKeysAndLists(posts, keys, lists);
    MonthTallyCounts(posts);
    var series := MonthlySeries(today, byMonth);
    if series.None? {
      return None;
    }
    r := Some(ChartData(series.value.labels, series.value.counts, MostCommon(allTags, TopTagCount)));
  }
}
