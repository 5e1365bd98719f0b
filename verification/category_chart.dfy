/** The rules of `CategoryBarChart` (app/components/stats/CategoryBarChart.tsx):
    the bar scale, the six bars shown, their colours and the note about the
    categories left out. */
module CategoryChart {
  import opened Options
  import opened Arith
  import opened Seqs
  import opened Tally
  import opened Sorting
  import BuildStats

  /** `BAR_COLORS`. */
  const BarColors: seq<string> := ["bg-purple-500", "bg-indigo-500", "bg-blue-500",
                                   "bg-cyan-500", "bg-teal-500", "bg-emerald-500"]

  /** The number of bars shown. */
  const MaxBars: nat := 6

  datatype Bar = Bar(name: string, count: int, percentage: real, color: string)

  /** `Math.max(...counts, 1)`: the largest count, and never less than 1. */
  function MaxCount(cats: seq<Entry<string>>): (m: int)
    ensures m >= 1
    ensures forall i :: 0 <= i < |cats| ==> cats[i].total <= m
    ensures m == 1 || exists i :: 0 <= i < |cats| && cats[i].total == m
  {
    if cats == [] then 1
    else
      var rest := MaxCount(cats[1..]);
      assert forall i :: 1 <= i < |cats| ==> cats[i] == cats[1..][i - 1];
      if cats[0].total > rest then cats[0].total else rest
  }

  /** `(count / maxCount) * 100`. */
  function Percentage(count: int, maxCount: int): (p: real)
    requires maxCount >= 1
    ensures 0 <= count <= maxCount ==> 0.0 <= p <= 100.0
    ensures 0 < count <= maxCount ==> 0.0 < p
    ensures count == maxCount ==> p == 100.0
  {
    var q := count as real / maxCount as real;
    assert 0 <= count <= maxCount ==>
             0.0 <= q <= 1.0 && (0 < count ==> 0.0 < q) && (count == maxCount ==> q == 1.0) by {
      if 0 <= count <= maxCount {
        DivUnit(count as real, maxCount as real);
      }
    }
    q * 100.0
  }

  /** The bars for the first six categories, in their order, scaled against
      the largest count of all the categories, shown or not. */
  function Bars(cats: seq<Entry<string>>): (bars: seq<Bar>)
    ensures |bars| == (if |cats| < MaxBars then |cats| else MaxBars)
    ensures forall i :: 0 <= i < |bars| ==>
              && bars[i].name == cats[i].key
              && bars[i].count == cats[i].total
              && bars[i].color == BarColors[i % |BarColors|]
              && bars[i].percentage == Percentage(cats[i].total, MaxCount(cats))
  {
    var shown := Slice(cats, 0, MaxBars);
    var maxCount := MaxCount(cats);
    seq(|shown|, i requires 0 <= i < |shown| =>
      Bar(shown[i].key, shown[i].total, Percentage(shown[i].total, maxCount), BarColors[i % |BarColors|]))
  }

  /** `+N more categories`, shown only when some categories have no bar. */
  function MoreNote(cats: seq<Entry<string>>): (more: Option<nat>)
    ensures more.Some? <==> |cats| > MaxBars
    ensures more.Some? ==> |Bars(cats)| + more.value == |cats|
    ensures more.None? ==> |Bars(cats)| == |cats|
  {
    if |cats| > MaxBars then Some(|cats| - MaxBars) else None
  }

  /** With counts that are not negative every bar is between empty and
      full, and a category with the largest count fills its bar. */
  lemma BarsInRange(cats: seq<Entry<string>>)
    requires forall i :: 0 <= i < |cats| ==> cats[i].total >= 0
    ensures forall i :: 0 <= i < |Bars(cats)| ==> 0.0 <= Bars(cats)[i].percentage <= 100.0
    ensures forall i :: 0 <= i < |Bars(cats)| && cats[i].total == MaxCount(cats) ==> Bars(cats)[i].percentage == 100.0
  {
  }

  /** For the category breakdown of the published posts every shown
      category has a bar that is not empty, and the first, the most used
      category, fills its bar. */
  lemma BreakdownBars(tags: seq<string>)
    ensures var bars := Bars(BuildStats.CategoryBreakdown(tags));
      && (forall i :: 0 <= i < |bars| ==> 0.0 < bars[i].percentage <= 100.0)
      && (bars != [] ==> bars[0].percentage == 100.0)
  {
    var cats := BuildStats.CategoryBreakdown(tags);
    BreakdownPositive(tags);
    if cats != [] {
      BuildStats.BreakdownOrder(tags, 0);
      MaxIsFirst(cats);
    }
  }

  /** Every category in the breakdown is used at least once. */
  lemma BreakdownPositive(tags: seq<string>)
    ensures var cats := BuildStats.CategoryBreakdown(tags);
            forall i :: 0 <= i < |cats| ==> cats[i].total >= 1
  {
    var cats := BuildStats.CategoryBreakdown(tags);
    BuildStats.BreakdownCounts(tags);
    BuildStats.BreakdownCategories(tags);
    forall i | 0 <= i < |cats| ensures cats[i].total >= 1 {
      assert Keys(cats)[i] == cats[i].key;
      CountPositive(tags, cats[i].key);
    }
  }

  /** In a sorted list of positive counts the first is the largest. */
  lemma MaxIsFirst(cats: seq<Entry<string>>)
    requires cats != [] && cats[0].total >= 1
    requires SortedDesc(cats, BuildStats.CountOf)
    ensures MaxCount(cats) == cats[0].total
  {
    var m := MaxCount(cats);
    if m != 1 {
      var k :| 0 <= k < |cats| && cats[k].total == m;
      assert BuildStats.CountOf(cats[0]) >= BuildStats.CountOf(cats[k]);
    }
  }

  /** An element of a sequence occurs in it at least once. */
  lemma {:induction false} CountPositive<T>(xs: seq<T>, x: T)
    requires x in xs
    ensures Count(xs, x) >= 1
  {
    if xs[0] != x {
      CountPositive(xs[1..], x);
    }
  }
}
