/** The content build's records as the scripts and the stats page read
    them (Velite's `posts` and `changelogItems`). */
module Content {
  import opened Options
  import opened Seqs

  /** A post: its slug and title, its compiled MDX, the draft flag (absent
      means not a draft), its categories and its cover image name. */
  datatype Post = Post(
    slug: string,
    title: string,
    code: string,
    draft: bool,
    categories: seq<string>,
    imageName: Option<string>)

  datatype ChangelogItem = ChangelogItem(draft: bool)

  /** The published posts, in order. */
  function Published(posts: seq<Post>): (r: seq<Post>)
    ensures |r| <= |posts|
    ensures forall p :: p in r <==> p in posts && !p.draft
  {
    if posts == [] then []
    else
      var rest := Published(posts[..|posts| - 1]);
      var last := posts[|posts| - 1];
      assert forall p :: p in posts <==> p == last || p in posts[..|posts| - 1] by {
        assert posts == posts[..|posts| - 1] + [last];
      }
      if last.draft then rest else rest + [last]
  }

  predicate IsPublishedItem(item: ChangelogItem) {
    !item.draft
  }

  /** The published changelog items, in order. */
  function PublishedChangelog(items: seq<ChangelogItem>): (r: seq<ChangelogItem>)
    ensures |r| <= |items|
    ensures forall item :: item in r <==> item in items && !item.draft
  {
    FilterMembers(items, IsPublishedItem);
    Filter(items, IsPublishedItem)
  }
}
