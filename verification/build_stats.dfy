/** `getBuildTimeStats` (app/lib/stats/build-time-stats.ts): article,
    word, reading-time and category figures over the published content. */
module BuildStats {
  import opened Seqs
  import opened Content
  import opened WordCount
  import opened Tally
  import opened Sorting

  /** A `CategoryCount { name, count }` is the tally entry of the name. */
  type CategoryCount = Entry<string>

  datatype BuildTimeStats = BuildTimeStats(
    totalArticles: nat,
    totalWords: int,
    combinedReadingMinutes: int,
    avgWordsPerArticle: int,
    changelogCount: nat,
    categoryBreakdown: seq<CategoryCount>)

  /** The words read per minute. */
  const WordsPerMinute: nat := 200

  /** `Math.round(a / n)` for `a >= 0` and `n > 0`: the nearest integer,
      halves rounded up. */
  function RoundDiv(a: nat, n: nat): (r: nat)
    requires n > 0
    ensures RoundsToNearest(r, a, n)
  {
    var r := (2 * a + n) / (2 * n);
    assert 2 * a + n == 2 * n * r + (2 * a + n) % (2 * n);
    r
  }

  /** `Math.ceil(a / d)` for `a >= 0` and `d > 0`. */
  function CeilDiv(a: nat, d: nat): (m: nat)
    requires d > 0
    ensures d * (m - 1) < a <= d * m
    ensures m == 0 <==> a == 0
  {
    var m := (a + d - 1) / d;
    assert a + d - 1 == d * m + (a + d - 1) % d;
    m
  }

  /** The word estimate of every post, in order. */
  function WordCounts(posts: seq<Post>): (ws: seq<int>)
    ensures |ws| == |posts|
    ensures forall i :: 0 <= i < |posts| ==> ws[i] == EstimateWordCount(posts[i].code)
  {
    if posts == [] then [] else [EstimateWordCount(posts[0].code)] + WordCounts(posts[1..])
  }

  /** Every category tag of every post, in order. */
  function Tags(posts: seq<Post>): seq<string> {
    if posts == [] then [] else posts[0].categories + Tags(posts[1..])
  }

  function Name(c: string): string {
    c
  }

  function One(c: string): int {
    1
  }

  /** The category tally, sorted by non-increasing count. */
  function CategoryBreakdown(tags: seq<string>): seq<CategoryCount> {
    SortDesc(TallyAll(tags, Name, One), CountOf)
  }

  function CountOf(e: CategoryCount): int {
    e.total
  }

  function GetBuildTimeStats(posts: seq<Post>, changelog: seq<ChangelogItem>): BuildTimeStats {
    var published := Published(posts);
    var totalWords := Sum(WordCounts(published));
    SumNonNegative(WordCounts(published));
    var n := |published|;
    BuildTimeStats(
      n,
      totalWords,
      CeilDiv(totalWords, WordsPerMinute),
      if n > 0 then RoundDiv(totalWords, n) else 0,
      |PublishedChangelog(changelog)|,
      CategoryBreakdown(Tags(published)))
  }

  /** The counts: published articles and changelog items only, and the
      total is the sum of the per-article estimates. */
  lemma CountsSpec(posts: seq<Post>, changelog: seq<ChangelogItem>)
    ensures var s := GetBuildTimeStats(posts, changelog);
      && s.totalArticles == |Published(posts)|
      && s.changelogCount == |PublishedChangelog(changelog)|
      && s.totalWords == Sum(WordCounts(Published(posts))) >= 0
  {
    SumNonNegative(WordCounts(Published(posts)));
  }

  /** The average is the total over the published articles rounded to the
      nearest integer, halves up, and 0 without articles. */
  lemma AverageSpec(posts: seq<Post>, changelog: seq<ChangelogItem>)
    ensures |Published(posts)| == 0 ==> GetBuildTimeStats(posts, changelog).avgWordsPerArticle == 0
    ensures |Published(posts)| > 0 ==>
              RoundsToNearest(GetBuildTimeStats(posts, changelog).avgWordsPerArticle,
                              GetBuildTimeStats(posts, changelog).totalWords, |Published(posts)|)
  {
    var n := |Published(posts)|;
    var total := Sum(WordCounts(Published(posts)));
    SumNonNegative(WordCounts(Published(posts)));
    var s := GetBuildTimeStats(posts, changelog);
    assert s.totalWords == total;
    if n > 0 {
      assert s.avgWordsPerArticle == RoundDiv(total, n);
    }
  }

  /** `a` is `total / n` rounded to the nearest integer, halves up. */
  predicate RoundsToNearest(a: int, total: int, n: int) {
    n * (2 * a - 1) <= 2 * total < n * (2 * a + 1)
  }

  /** The reading time is the total at 200 words a minute, rounded up. */
  lemma ReadingTimeSpec(posts: seq<Post>, changelog: seq<ChangelogItem>)
    ensures var s := GetBuildTimeStats(posts, changelog);
      200 * (s.combinedReadingMinutes - 1) < s.totalWords <= 200 * s.combinedReadingMinutes
  {
    var total := Sum(WordCounts(Published(posts)));
    SumNonNegative(WordCounts(Published(posts)));
    var s := GetBuildTimeStats(posts, changelog);
    assert s.totalWords == total;
    assert s.combinedReadingMinutes == CeilDiv(total, WordsPerMinute);
  }

  lemma {:induction false} SumOfOnes(tags: seq<string>, k: string)
    ensures SumOf(tags, Name, One, k) == Count(tags, k)
  {
    if tags != [] {
      SumOfOnes(tags[1..], k);
    }
  }

  lemma {:induction false} AllOnes(tags: seq<string>)
    ensures Sum(Project(tags, One)) == |tags|
  {
    if tags != [] {
      AllOnes(tags[1..]);
      assert Project(tags, One)[1..] == Project(tags[1..], One);
    }
  }

  lemma {:induction false} TotalInsert(x: CategoryCount, xs: seq<CategoryCount>)
    ensures Total(Insert(x, xs, CountOf)) == x.total + Total(xs)
  {
    if xs != [] && CountOf(x) < CountOf(xs[0]) {
      TotalInsert(x, xs[1..]);
      assert ([xs[0]] + Insert(x, xs[1..], CountOf))[1..] == Insert(x, xs[1..], CountOf);
    }
  }

  lemma {:induction false} TotalSorted(xs: seq<CategoryCount>)
    ensures Total(SortDesc(xs, CountOf)) == Total(xs)
  {
    if xs != [] {
      TotalSorted(xs[1..]);
      TotalInsert(xs[0], SortDesc(xs[1..], CountOf));
    }
  }

  /** The breakdown holds the tally's entries, reordered. */
  lemma BreakdownPermutes(tags: seq<string>)
    ensures multiset(CategoryBreakdown(tags)) == multiset(TallyAll(tags, Name, One))
  {
  }

  /** One entry per distinct category, and each counts the category's
      occurrences. */
  lemma BreakdownCounts(tags: seq<string>)
    ensures var b := CategoryBreakdown(tags);
      && NoDuplicates(Keys(b))
      && (forall i :: 0 <= i < |b| ==> b[i].total == Count(tags, b[i].key))
  {
    var t := TallyAll(tags, Name, One);
    var b := CategoryBreakdown(tags);
    TallyAllSpec(tags, Name, One);
    BreakdownPermutes(tags);
    DistinctKeysPermuted(t, b);
    forall i | 0 <= i < |b| ensures b[i].total == Count(tags, b[i].key) {
      assert b[i] in multiset(t);
      var j :| 0 <= j < |t| && t[j] == b[i];
      SumOfOnes(tags, b[i].key);
    }
  }

  lemma {:induction false} NamesAreTags(tags: seq<string>)
    ensures Project(tags, Name) == tags
  {
    if tags != [] {
      NamesAreTags(tags[1..]);
    }
  }

  /** Exactly the categories that occur have an entry. */
  lemma BreakdownCategories(tags: seq<string>)
    ensures forall x :: x in tags <==> x in Keys(CategoryBreakdown(tags))
  {
    TallyAllSpec(tags, Name, One);
    NamesAreTags(tags);
    forall x ensures x in tags <==> x in Keys(CategoryBreakdown(tags)) {
      if x in tags {
        TaggedHasEntry(tags, x);
      }
      if x in Keys(CategoryBreakdown(tags)) {
        EntryIsTagged(tags, x);
      }
    }
  }

  lemma TaggedHasEntry(tags: seq<string>, x: string)
    requires x in Keys(TallyAll(tags, Name, One))
    ensures x in Keys(CategoryBreakdown(tags))
  {
    BreakdownPermutes(tags);
    KeyPermuted(TallyAll(tags, Name, One), CategoryBreakdown(tags), x);
  }

  lemma EntryIsTagged(tags: seq<string>, x: string)
    requires x in Keys(CategoryBreakdown(tags))
    ensures x in Keys(TallyAll(tags, Name, One))
  {
    BreakdownPermutes(tags);
    KeyPermuted(CategoryBreakdown(tags), TallyAll(tags, Name, One), x);
  }

  /** Each tag adds exactly one: the counts add up to the number of tags. */
  lemma BreakdownTotal(tags: seq<string>)
    ensures Total(CategoryBreakdown(tags)) == |tags|
  {
    TallyAllSpec(tags, Name, One);
    AllOnes(tags);
    TotalSorted(TallyAll(tags, Name, One));
  }

  /** Sorted by non-increasing count; categories of equal count keep their
      order of first occurrence. */
  lemma BreakdownOrder(tags: seq<string>, c: int)
    ensures SortedDesc(CategoryBreakdown(tags), CountOf)
    ensures Filter(CategoryBreakdown(tags), KeyIs(CountOf, c)) ==
              Filter(TallyAll(tags, Name, One), KeyIs(CountOf, c))
  {
    SortStable(TallyAll(tags, Name, One), CountOf, c);
  }
}
