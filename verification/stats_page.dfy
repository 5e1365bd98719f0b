/** The arithmetic and the guards of `StatsPage` (app/stats/page.tsx):
    coffee cups, the reading time as hours and minutes, the two article
    lists and the sections shown only when their data is there. */
module StatsPage {
  import opened Options
  import opened JsText
  import opened Seqs
  import opened ServerStats

  /** Words per cup of coffee. */
  const WordsPerCup: nat := 500

  /** `Math.floor(totalWords / 500)`. */
  function CoffeeCups(totalWords: int): (cups: int)
    ensures WordsPerCup * cups <= totalWords < WordsPerCup * (cups + 1)
    ensures totalWords >= 0 ==> cups >= 0
  {
    totalWords / WordsPerCup
  }

  /** `Math.floor(m / 60)` and `m % 60`: the minute count is never negative,
      so the truncating `%` agrees with the floor. */
  function HoursMinutes(m: nat): (hm: (nat, nat))
    ensures hm.0 * 60 + hm.1 == m
    ensures hm.1 < 60
  {
    (m / 60, m % 60)
  }

  /** `"{h}h {m}m"` when there is at least one hour, else `"{m}m"`. */
  function FormatReadingTime(m: nat): string {
    var hm := HoursMinutes(m);
    if hm.0 > 0 then NatToString(hm.0) + ("h " + NatToString(hm.1)) + "m"
    else NatToString(hm.1) + "m"
  }

  /** The index of the first `h`, if any. */
  function IndexOfH(s: string): (r: Option<nat>)
    ensures r.Some? ==> r.value < |s| && s[r.value] == 'h' && forall i :: 0 <= i < r.value ==> s[i] != 'h'
    ensures r.None? ==> forall i :: 0 <= i < |s| ==> s[i] != 'h'
  {
    if s == [] then None
    else if s[0] == 'h' then Some(0)
    else match IndexOfH(s[1..])
      case None => None
      case Some(k) => Some(k + 1)
  }

  /** Reads a formatted reading time back as a number of minutes: digits
      and `m`, or digits, `h `, digits and `m`. */
  function ParseReadingTime(s: string): Option<nat> {
    if |s| < 2 || s[|s| - 1] != 'm' then None else ParseBody(s[..|s| - 1])
  }

  /** The text before the final `m`. */
  function ParseBody(body: string): Option<nat> {
    match IndexOfH(body)
    case None => if AllDigits(body) then Some(DigitsValue(body)) else None
    case Some(k) => ParseHoursMinutes(body[..k], body[k + 1..])
  }

  /** The hour digits, and the text after the `h`. */
  function ParseHoursMinutes(hs: string, rest: string): Option<nat> {
    if hs != [] && AllDigits(hs) && |rest| >= 2 && rest[0] == ' ' && AllDigits(rest[1..])
    then Some(DigitsValue(hs) * 60 + DigitsValue(rest[1..]))
    else None
  }

  /** Digits are never `h`. */
  lemma DigitsHaveNoH(ds: string)
    requires AllDigits(ds)
    ensures forall i :: 0 <= i < |ds| ==> ds[i] != 'h'
  {
  }

  /** The first `h` of `a + t` is just after `a` when `a` has none. */
  lemma IndexOfHAfter(a: string, t: string)
    requires t != [] && t[0] == 'h'
    requires forall i :: 0 <= i < |a| ==> a[i] != 'h'
    ensures IndexOfH(a + t) == Some(|a|)
  {
    var s := a + t;
    assert s[|a|] == 'h';
    assert forall i :: 0 <= i < |a| ==> s[i] == a[i];
  }

  lemma ParseDropsM(body: string)
    requires body != []
    ensures ParseReadingTime(body + "m") == ParseBody(body)
  {
    var s := body + "m";
    assert s[..|s| - 1] == body;
  }

  lemma ParseWithHours(hs: string, ms: string)
    requires hs != [] && AllDigits(hs) && ms != [] && AllDigits(ms)
    ensures ParseBody(hs + ("h " + ms)) == Some(DigitsValue(hs) * 60 + DigitsValue(ms))
  {
    BodySplitsAtH(hs, ms);
    HoursMinutesValue(hs, ms);
  }

  lemma BodySplitsAtH(hs: string, ms: string)
    requires AllDigits(hs)
    ensures ParseBody(hs + ("h " + ms)) == ParseHoursMinutes(hs, " " + ms)
  {
    FirstHAfterDigits(hs, "h " + ms);
    SplitAtH(hs, ms);
  }

  lemma HoursMinutesValue(hs: string, ms: string)
    requires hs != [] && AllDigits(hs) && ms != [] && AllDigits(ms)
    ensures ParseHoursMinutes(hs, " " + ms) == Some(DigitsValue(hs) * 60 + DigitsValue(ms))
  {
    assert (" " + ms)[1..] == ms;
  }

  lemma FirstHAfterDigits(hs: string, t: string)
    requires AllDigits(hs) && t != [] && t[0] == 'h'
    ensures IndexOfH(hs + t) == Some(|hs|)
  {
    DigitsHaveNoH(hs);
    IndexOfHAfter(hs, t);
  }

  lemma SplitAtH(hs: string, ms: string)
    ensures (hs + ("h " + ms))[..|hs|] == hs
    ensures (hs + ("h " + ms))[|hs| + 1..] == " " + ms
    ensures (" " + ms)[1..] == ms
  {
    var t := "h " + ms;
    assert (hs + t)[|hs| + 1..] == t[1..];
  }

  lemma ParseMinutes(ms: string)
    requires ms != [] && AllDigits(ms)
    ensures ParseBody(ms) == Some(DigitsValue(ms))
  {
    DigitsHaveNoH(ms);
  }

  /** The formatted reading time reads back as the minute count it came
      from, so no two minute counts print alike. */
  lemma ReadingTimeRoundTrip(m: nat)
    ensures ParseReadingTime(FormatReadingTime(m)) == Some(m)
  {
    if m >= 60 {
      RoundTripWithHours(m);
    } else {
      RoundTripMinutesOnly(m);
    }
  }

  lemma RoundTripWithHours(m: nat)
    requires m >= 60
    ensures ParseReadingTime(FormatReadingTime(m)) == Some(m)
  {
    var hm := HoursMinutes(m);
    RenderedRoundTrip(hm.0, hm.1);
  }

  lemma RenderedRoundTrip(h: nat, mins: nat)
    ensures ParseReadingTime(NatToString(h) + ("h " + NatToString(mins)) + "m") == Some(h * 60 + mins)
  {
    var hs, ms := NatToString(h), NatToString(mins);
    ParseDropsM(hs + ("h " + ms));
    ParseWithHours(hs, ms);
  }

  lemma RoundTripMinutesOnly(m: nat)
    requires m < 60
    ensures ParseReadingTime(FormatReadingTime(m)) == Some(m)
  {
    var ms := NatToString(HoursMinutes(m).1);
    ParseDropsM(ms);
    ParseMinutes(ms);
  }

  /** The reading time shows hours exactly when there are at least 60
      minutes. */
  lemma ReadingTimeHasHours(m: nat)
    ensures 'h' in FormatReadingTime(m) <==> m >= 60
  {
    var hm := HoursMinutes(m);
    var ms := NatToString(hm.1);
    if hm.0 > 0 {
      var s := FormatReadingTime(m);
      assert s[|NatToString(hm.0)|] == 'h';
    } else {
      assert FormatReadingTime(m) == ms + "m";
      DigitsHaveNoH(ms);
    }
  }

  // ---------------------------------------------------------------------
  // Article lists

  /** The featured card's article: `topViewedArticles[0]`. */
  function MostViewed(top: seq<ArticleMetric>): (r: Option<ArticleMetric>)
    ensures r.None? <==> top == []
    ensures r.Some? ==> r.value == top[0]
  {
    if top == [] then None else Some(top[0])
  }

  /** `topViewedArticles.slice(1, 5)`: the list next to the featured card
      skips it. */
  function TopViewedList(top: seq<ArticleMetric>): (r: seq<ArticleMetric>)
    ensures |r| <= 4
    ensures |r| == (if |top| <= 1 then 0 else if |top| >= 5 then 4 else |top| - 1)
    ensures forall k :: 0 <= k < |r| ==> r[k] == top[k + 1]
  {
    Slice(top, 1, 5)
  }

  /** `topReactedArticles.slice(0, 4)`. */
  function MostReactedList(top: seq<ArticleMetric>): (r: seq<ArticleMetric>)
    ensures |r| == (if |top| >= 4 then 4 else |top|)
    ensures forall k :: 0 <= k < |r| ==> r[k] == top[k]
  {
    Slice(top, 0, 4)
  }

  /** The most viewed article and the list beside it split the top five
      between them: the list is everything after the first entry. */
  lemma FeaturedAndListCoverTopFive(top: seq<ArticleMetric>)
    requires |top| <= 5
    ensures MostViewed(top).None? ==> TopViewedList(top) == []
    ensures MostViewed(top).Some? ==> [MostViewed(top).value] + TopViewedList(top) == top
  {
  }

  /** `mostViewedArticle && mostViewedArticle.imageName`: an empty image
      name is falsy too. */
  predicate ShowFeatured(top: seq<ArticleMetric>) {
    match MostViewed(top)
    case None => false
    case Some(a) => a.imageName.Some? && a.imageName.value != []
  }

  /** The featured card appears exactly when there are view rows and the
      post of the most viewed one (after the stable sort) has a non-empty
      image name. */
  lemma FeaturedShownIff(views: Option<seq<ViewRow>>, posts: seq<Content.Post>)
    ensures ShowFeatured(TopViewed(views, posts)) <==>
              && views.Some? && views.value != []
              && var first := Sorting.SortDesc(views.value, ViewCountOf)[0];
                 && FindPost(posts, first.slug).Some?
                 && FindPost(posts, first.slug).value.imageName.Some?
                 && FindPost(posts, first.slug).value.imageName.value != []
  {
    TopViewedSpec(views, posts);
  }

  /** What the page shows of the most viewed list: the featured card, when
      it is shown, followed by the list. With the card shown, that is the
      first five articles. Without it, the top article is shown nowhere:
      the list still starts at the second. */
  lemma TopViewedRendered(top: seq<ArticleMetric>)
    ensures ShowFeatured(top) ==> [top[0]] + TopViewedList(top) == top[..if |top| < 5 then |top| else 5]
    ensures !ShowFeatured(top) && top != [] ==>
              TopViewedList(top) == top[1..if |top| < 5 then |top| else 5]
    ensures !ShowFeatured(top) && top != [] && top[0] !in top[1..] ==> top[0] !in TopViewedList(top)
  {
    if top != [] {
      var n := if |top| < 5 then |top| else 5;
      assert TopViewedList(top) == top[1..n];
      assert [top[0]] + top[1..n] == top[..n];
      if top[0] in TopViewedList(top) {
        assert top[0] in top[1..];
      }
    }
  }

  // ---------------------------------------------------------------------
  // Performance section

  datatype Strategy = Mobile | Desktop

  /** The score cards: mobile first, each only when its scores exist. */
  function PerformanceCards<S>(mobile: Option<S>, desktop: Option<S>): (cards: seq<Strategy>)
    ensures |cards| <= 2
    ensures Mobile in cards <==> mobile.Some?
    ensures Desktop in cards <==> desktop.Some?
    ensures |cards| == 2 ==> cards == [Mobile, Desktop]
  {
    (if mobile.Some? then [Mobile] else []) + (if desktop.Some? then [Desktop] else [])
  }

  /** `lighthouseStats.mobile || lighthouseStats.desktop`. */
  predicate ShowPerformance<S>(mobile: Option<S>, desktop: Option<S>) {
    mobile.Some? || desktop.Some?
  }

  /** The section is shown exactly when it would hold a card: never empty,
      never hiding scores. */
  lemma PerformanceShownIff<S>(mobile: Option<S>, desktop: Option<S>)
    ensures ShowPerformance(mobile, desktop) <==> PerformanceCards(mobile, desktop) != []
  {
  }
}
