/** The pure aggregation inside `getServerStats`
    (app/lib/stats/server-stats.ts): view and reaction totals, per-type
    reaction tallies and the two top-5 article lists. The query results are
    parameters; a missing result (`data` is `null`) is `None`. */
module ServerStats {
  import opened Options
  import opened Seqs
  import opened Content
  import opened Tally
  import opened Sorting

  datatype ViewRow = ViewRow(slug: string, viewCount: int)
  datatype ReactionRow = ReactionRow(articleSlug: string, reactionType: string, count: int)

  /** `Record<ReactionType, number>`. */
  datatype ReactionCounts = ReactionCounts(like: int, heart: int, celebrate: int, insightful: int)

  datatype ArticleMetric = ArticleMetric(slug: string, title: string, count: int, imageName: Option<string>)

  datatype ServerStats = ServerStats(
    totalViews: int,
    totalReactions: int,
    reactionsByType: ReactionCounts,
    topViewedArticles: seq<ArticleMetric>,
    topReactedArticles: seq<ArticleMetric>,
    communityWallMessages: int)

  const ValidReactions: seq<string> := ["like", "heart", "celebrate", "insightful"]

  /** The length of both top lists. */
  const TopCount: nat := 5

  // ---------------------------------------------------------------------
  // Views

  function ViewCountOf(row: ViewRow): int {
    row.viewCount
  }

  /** `viewsData?.reduce((sum, row) => sum + row.view_count, 0) || 0`. */
  function TotalViews(views: Option<seq<ViewRow>>): (t: int)
    ensures views.None? ==> t == 0
    ensures views.Some? ==> t == Sum(Project(views.value, ViewCountOf))
  {
    match views
    case None => 0
    case Some(rows) => Sum(Project(rows, ViewCountOf))
  }

  /** The total of a single row is its view count, the total of two lists of
      rows is the sum of their totals, and no reordering of the rows (in
      particular the sort behind the top list) changes the total. */
  lemma TotalViewsAdds(a: seq<ViewRow>, b: seq<ViewRow>, r: ViewRow)
    ensures TotalViews(Some([r])) == r.viewCount
    ensures TotalViews(Some(a + b)) == TotalViews(Some(a)) + TotalViews(Some(b))
    ensures multiset(a) == multiset(b) ==> TotalViews(Some(a)) == TotalViews(Some(b))
    ensures TotalViews(Some(SortDesc(a, ViewCountOf))) == TotalViews(Some(a))
  {
    SumProjectSingle(r, ViewCountOf);
    SumProjectAppend(a, b, ViewCountOf);
    if multiset(a) == multiset(b) {
      SumProjectPermuted(a, b, ViewCountOf);
    }
    var sorted := SortDesc(a, ViewCountOf);
    SumProjectPermuted(a, sorted, ViewCountOf);
  }

  // ---------------------------------------------------------------------
  // Reactions by type

  /** The count stored for a reaction type. */
  function CountFor(c: ReactionCounts, t: string): int
    requires t in ValidReactions
  {
    if t == "like" then c.like
    else if t == "heart" then c.heart
    else if t == "celebrate" then c.celebrate
    else c.insightful
  }

  /** One row of the `forEach`: a valid type adds the row's count to its
      own field; any other row changes nothing. */
  function AddReaction(c: ReactionCounts, row: ReactionRow): (d: ReactionCounts)
    ensures forall t :: t in ValidReactions ==>
              CountFor(d, t) == CountFor(c, t) + (if row.reactionType == t then row.count else 0)
    ensures row.reactionType !in ValidReactions ==> d == c
    ensures TotalReactions(d) == TotalReactions(c) + (if IsValidRow(row) then row.count else 0)
  {
    var t := row.reactionType;
    if t == "like" then c.(like := c.like + row.count)
    else if t == "heart" then c.(heart := c.heart + row.count)
    else if t == "celebrate" then c.(celebrate := c.celebrate + row.count)
    else if t == "insightful" then c.(insightful := c.insightful + row.count)
    else c
  }

  function AddReactions(c: ReactionCounts, rows: seq<ReactionRow>): ReactionCounts
    decreases |rows|
  {
    if rows == [] then c else AddReactions(AddReaction(c, rows[0]), rows[1..])
  }

  /** All four types start at 0; a missing result adds nothing. */
  function ReactionsByType(reactions: Option<seq<ReactionRow>>): ReactionCounts {
    var zero := ReactionCounts(0, 0, 0, 0);
    match reactions
    case None => zero
    case Some(rows) => AddReactions(zero, rows)
  }

  /** `Object.values(reactionsByType)` summed. */
  function TotalReactions(c: ReactionCounts): int {
    c.like + c.heart + c.celebrate + c.insightful
  }

  function TypeOf(row: ReactionRow): string {
    row.reactionType
  }

  function CountOfRow(row: ReactionRow): int {
    row.count
  }

  predicate IsValidRow(row: ReactionRow) {
    row.reactionType in ValidReactions
  }

  lemma {:induction false} AddReactionsCounts(c: ReactionCounts, rows: seq<ReactionRow>, t: string)
    requires t in ValidReactions
    ensures CountFor(AddReactions(c, rows), t) == CountFor(c, t) + SumOf(rows, TypeOf, CountOfRow, t)
    decreases |rows|
  {
    if rows != [] {
      AddReactionsCounts(AddReaction(c, rows[0]), rows[1..], t);
    }
  }

  /** Each of the four types holds the sum of the counts of the rows of
      that type, starting from 0. */
  lemma ReactionsByTypeSpec(reactions: Option<seq<ReactionRow>>, t: string)
    requires t in ValidReactions
    ensures reactions.None? ==> CountFor(ReactionsByType(reactions), t) == 0
    ensures reactions.Some? ==>
              CountFor(ReactionsByType(reactions), t) == SumOf(reactions.value, TypeOf, CountOfRow, t)
  {
    var zero := ReactionCounts(0, 0, 0, 0);
    assert CountFor(zero, t) == 0;
    if reactions.Some? {
      assert ReactionsByType(reactions) == AddReactions(zero, reactions.value);
      AddReactionsCounts(zero, reactions.value, t);
    }
  }

  lemma {:induction false} AddReactionsTotal(c: ReactionCounts, rows: seq<ReactionRow>)
    ensures TotalReactions(AddReactions(c, rows)) == TotalReactions(c) + Sum(Project(Filter(rows, IsValidRow), CountOfRow))
    decreases |rows|
  {
    if rows != [] {
      AddReactionsTotal(AddReaction(c, rows[0]), rows[1..]);
      var kept := Filter(rows[1..], IsValidRow);
      if IsValidRow(rows[0]) {
        var vs := Project([rows[0]] + kept, CountOfRow);
        assert Filter(rows, IsValidRow) == [rows[0]] + kept;
        assert vs[0] == rows[0].count && vs[1..] == Project(kept, CountOfRow);
      } else {
        assert Filter(rows, IsValidRow) == [] + kept == kept;
      }
    }
  }

  /** The reaction total is the sum of the counts of the rows with a valid
      type: rows of any other type are left out. */
  lemma TotalReactionsSpec(reactions: Option<seq<ReactionRow>>)
    ensures reactions.None? ==> TotalReactions(ReactionsByType(reactions)) == 0
    ensures reactions.Some? ==>
              TotalReactions(ReactionsByType(reactions)) == Sum(Project(Filter(reactions.value, IsValidRow), CountOfRow))
  {
    if reactions.Some? {
      AddReactionsTotal(ReactionCounts(0, 0, 0, 0), reactions.value);
    }
  }

  // ---------------------------------------------------------------------
  // Top lists

  /** `posts.find(p => p.slug === slug)`: the first post with the slug. */
  function FindPost(posts: seq<Post>, slug: string): (r: Option<Post>)
    ensures r.None? <==> forall i :: 0 <= i < |posts| ==> posts[i].slug != slug
    ensures r.Some? ==> exists i :: 0 <= i < |posts| && posts[i] == r.value && r.value.slug == slug &&
                          forall j :: 0 <= j < i ==> posts[j].slug != slug
  {
    if posts == [] then None
    else if posts[0].slug == slug then Some(posts[0])
    else
      var r := FindPost(posts[1..], slug);
      assert r.Some? ==> exists i :: 0 <= i < |posts[1..]| && posts[1..][i] == r.value &&
                          forall j :: 0 <= j < i ==> posts[1..][j].slug != slug;
      assert forall i :: 0 < i < |posts| ==> posts[i] == posts[1..][i - 1];
      r
  }

  /** The list item of an article: `title: post?.title || slug`, so a
      missing post or an empty title falls back to the slug, and
      `imageName: post?.imageName`. */
  function Metric(slug: string, count: int, posts: seq<Post>): (m: ArticleMetric)
    ensures m.slug == slug && m.count == count
    ensures FindPost(posts, slug).None? ==> m.title == slug && m.imageName.None?
    ensures FindPost(posts, slug).Some? ==>
              m.imageName == FindPost(posts, slug).value.imageName &&
              m.title == (if FindPost(posts, slug).value.title != [] then FindPost(posts, slug).value.title else slug)
  {
    match FindPost(posts, slug)
    case None => ArticleMetric(slug, slug, count, None)
    case Some(post) =>
      ArticleMetric(slug, if post.title != [] then post.title else slug, count, post.imageName)
  }

  /** `.map(...)` of `Metric` over list elements. */
  function Metrics<T>(xs: seq<T>, slug: T -> string, count: T -> int, posts: seq<Post>): (ms: seq<ArticleMetric>)
    ensures |ms| == |xs|
    ensures forall i :: 0 <= i < |xs| ==> ms[i] == Metric(slug(xs[i]), count(xs[i]), posts)
  {
    if xs == [] then [] else [Metric(slug(xs[0]), count(xs[0]), posts)] + Metrics(xs[1..], slug, count, posts)
  }

  function SlugOfView(row: ViewRow): string {
    row.slug
  }

  /** The five most viewed articles: the rows sorted by non-increasing
      view count (stably), the first five kept. */
  function TopViewed(views: Option<seq<ViewRow>>, posts: seq<Post>): seq<ArticleMetric> {
    match views
    case None => []
    case Some(rows) => Metrics(Slice(SortDesc(rows, ViewCountOf), 0, TopCount), SlugOfView, ViewCountOf, posts)
  }

  function SlugOfRow(row: ReactionRow): string {
    row.articleSlug
  }

  function EntryKey(e: Entry<string>): string {
    e.key
  }

  function EntryTotal(e: Entry<string>): int {
    e.total
  }

  /** `reactionsPerArticle`: every row's count added under its article,
      whatever its reaction type. */
  function ReactionsPerArticle(reactions: Option<seq<ReactionRow>>): seq<Entry<string>> {
    match reactions
    case None => []
    case Some(rows) => TallyAll(rows, SlugOfRow, CountOfRow)
  }

  /** The five most reacted articles. */
  function TopReacted(reactions: Option<seq<ReactionRow>>, posts: seq<Post>): seq<ArticleMetric> {
    var perArticle := ReactionsPerArticle(reactions);
    Metrics(Slice(SortDesc(perArticle, EntryTotal), 0, TopCount), EntryKey, EntryTotal, posts)
  }

  function GetServerStats(views: Option<seq<ViewRow>>, reactions: Option<seq<ReactionRow>>,
                          messageCount: Option<int>, posts: seq<Post>): ServerStats {
    var byType := ReactionsByType(reactions);
    ServerStats(
      TotalViews(views),
      TotalReactions(byType),
      byType,
      TopViewed(views, posts),
      TopReacted(reactions, posts),
      MessageCount(messageCount))
  }

  /** `messageCount || 0`: a missing count is 0. */
  function MessageCount(count: Option<int>): (n: int)
    ensures count.None? ==> n == 0
    ensures count.Some? ==> n == count.value
  {
    match count
    case None => 0
    case Some(c) => if c != 0 then c else 0
  }

  /** Metrics in the order of a sorted list are sorted by count. */
  lemma MetricsSorted<T>(xs: seq<T>, slug: T -> string, count: T -> int, posts: seq<Post>)
    requires SortedDesc(xs, count)
    ensures forall i, j :: 0 <= i < j < |xs| ==>
              Metrics(xs, slug, count, posts)[i].count >= Metrics(xs, slug, count, posts)[j].count
  {
  }

  /** The most viewed list: at most five items, by non-increasing count,
      and they are the first rows of the stably sorted views; the rows left
      out have no more views than any listed article. */
  lemma TopViewedSpec(views: Option<seq<ViewRow>>, posts: seq<Post>)
    ensures var top := TopViewed(views, posts);
      && |top| <= TopCount
      && (views.None? ==> top == [])
      && (forall i, j :: 0 <= i < j < |top| ==> top[i].count >= top[j].count)
      && (views.Some? ==> var sorted := SortDesc(views.value, ViewCountOf);
            && multiset(sorted) == multiset(views.value)
            && |top| == (if |sorted| < TopCount then |sorted| else TopCount)
            && (forall i :: 0 <= i < |top| ==> top[i] == Metric(sorted[i].slug, sorted[i].viewCount, posts))
            && (forall i, j :: 0 <= i < |top| && |top| <= j < |sorted| ==> top[i].count >= sorted[j].viewCount))
  {
    if views.Some? {
      var sorted := SortDesc(views.value, ViewCountOf);
      var kept := Slice(sorted, 0, TopCount);
      assert forall i, j :: 0 <= i < j < |kept| ==> ViewCountOf(kept[i]) >= ViewCountOf(kept[j]);
    }
  }

  /** One entry per article that has reactions, holding the sum of all its
      rows' counts, of any reaction type. */
  lemma PerArticleSpec(reactions: Option<seq<ReactionRow>>)
    ensures var es := ReactionsPerArticle(reactions);
      && NoDuplicates(Keys(es))
      && (reactions.None? ==> es == [])
      && (reactions.Some? ==> forall i :: 0 <= i < |es| ==>
            es[i].total == SumOf(reactions.value, SlugOfRow, CountOfRow, es[i].key))
  {
    if reactions.Some? {
      TallyAllSpec(reactions.value, SlugOfRow, CountOfRow);
    }
  }

  /** The most reacted list holds the first entries of the sorted tally. */
  lemma TopReactedEntries(reactions: Option<seq<ReactionRow>>, posts: seq<Post>)
    ensures var top := TopReacted(reactions, posts);
            var sorted := SortDesc(ReactionsPerArticle(reactions), EntryTotal);
      && |top| == (if |sorted| < TopCount then |sorted| else TopCount)
      && forall i :: 0 <= i < |top| ==> top[i].slug == sorted[i].key && top[i].count == sorted[i].total
  {
  }

  /** The most reacted list: at most five items, by non-increasing count. */
  lemma TopReactedOrder(reactions: Option<seq<ReactionRow>>, posts: seq<Post>)
    ensures var top := TopReacted(reactions, posts);
      && |top| <= TopCount
      && (reactions.None? ==> top == [])
      && (forall i, j :: 0 <= i < j < |top| ==> top[i].count >= top[j].count)
  {
    TopReactedEntries(reactions, posts);
  }

  /** Each article is listed once. */
  lemma TopReactedDistinct(reactions: Option<seq<ReactionRow>>, posts: seq<Post>)
    ensures var top := TopReacted(reactions, posts);
            forall i, j :: 0 <= i < j < |top| ==> top[i].slug != top[j].slug
  {
    var perArticle := ReactionsPerArticle(reactions);
    var sorted := SortDesc(perArticle, EntryTotal);
    var top := TopReacted(reactions, posts);
    PerArticleSpec(reactions);
    TopReactedEntries(reactions, posts);
    DistinctKeysPermuted(perArticle, sorted);
    forall i, j | 0 <= i < j < |top| ensures top[i].slug != top[j].slug {
      assert Keys(sorted)[i] != Keys(sorted)[j];
    }
  }

  /** Each listed article has the sum of the counts of all its reaction
      rows, of any reaction type. */
  lemma TopReactedCounts(reactions: Option<seq<ReactionRow>>, posts: seq<Post>)
    requires reactions.Some?
    ensures var top := TopReacted(reactions, posts);
            forall i :: 0 <= i < |top| ==> top[i].count == SumOf(reactions.value, SlugOfRow, CountOfRow, top[i].slug)
  {
    var perArticle := ReactionsPerArticle(reactions);
    var sorted := SortDesc(perArticle, EntryTotal);
    var top := TopReacted(reactions, posts);
    PerArticleSpec(reactions);
    TopReactedEntries(reactions, posts);
    forall i | 0 <= i < |top| ensures top[i].count == SumOf(reactions.value, SlugOfRow, CountOfRow, top[i].slug) {
      assert sorted[i] in multiset(perArticle);
      var j :| 0 <= j < |perArticle| && perArticle[j] == sorted[i];
    }
  }
}
