/** The rules of `ContributionGraphCard`
    (app/components/stats/ContributionGraphCard.tsx): which weeks carry a
    month label, how a day's date is split before it is formatted, and
    the tooltip's plural. Reading a date's month and the locale's month
    names are parameters. */
module ContributionGraph {
  import opened Options
  import opened JsText

  datatype Level = None_ | FirstQuartile | SecondQuartile | ThirdQuartile | FourthQuartile

  datatype Day = Day(date: string, contributionCount: int, level: Level)
  datatype Week = Week(days: seq<Day>)
  datatype MonthLabel = MonthLabel(text: string, index: nat)

  /** `Date.prototype.getMonth`: 0 for January up to 11. */
  type Month = m: int | 0 <= m < 12

  /** The month of the first day of a week. */
  function FirstMonth(w: Week, monthOf: string -> Month): int
    requires w.days != []
  {
    monthOf(w.days[0].date)
  }

  /** The month of the last week before `w` that has a day, or -1 when
      there is none: what `currentMonth` holds when week `w` is reached. */
  function PrevMonth(weeks: seq<Week>, w: nat, monthOf: string -> Month): (m: int)
    requires w <= |weeks|
    ensures -1 <= m < 12
  {
    if w == 0 then -1
    else if weeks[w - 1].days != [] then FirstMonth(weeks[w - 1], monthOf)
    else PrevMonth(weeks, w - 1, monthOf)
  }

  /** A week is labelled when it has a day and its month is not the month
      of the last week before it that has one. */
  predicate Labelled(weeks: seq<Week>, w: nat, monthOf: string -> Month)
    requires w < |weeks|
  {
    weeks[w].days != [] && FirstMonth(weeks[w], monthOf) != PrevMonth(weeks, w, monthOf)
  }

  /** Every label is of a labelled week before `bound`, named after the
      month of its first day. */
  predicate LabelsSound(weeks: seq<Week>, labels: seq<MonthLabel>, bound: nat,
                        monthOf: string -> Month, monthName: string -> string)
    requires bound <= |weeks|
  {
    forall k :: 0 <= k < |labels| ==>
      && labels[k].index < bound
      && Labelled(weeks, labels[k].index, monthOf)
      && labels[k].text == monthName(weeks[labels[k].index].days[0].date)
  }

  predicate Increasing(labels: seq<MonthLabel>) {
    forall k, l :: 0 <= k < l < |labels| ==> labels[k].index < labels[l].index
  }

  /** Every labelled week before `bound` has a label. */
  predicate LabelsComplete(weeks: seq<Week>, labels: seq<MonthLabel>, bound: nat, monthOf: string -> Month)
    requires bound <= |weeks|
  {
    forall w :: 0 <= w < bound && Labelled(weeks, w, monthOf) ==>
      exists k :: 0 <= k < |labels| && labels[k].index == w
  }

  /** `getMonthLabels`: one label per labelled week, in week order, named
      after the month of the week's first day. */
  method GetMonthLabels(weeks: seq<Week>, monthOf: string -> Month, monthName: string -> string)
    returns (labels: seq<MonthLabel>)
    ensures LabelsSound(weeks, labels, |weeks|, monthOf, monthName)
    ensures Increasing(labels)
    ensures LabelsComplete(weeks, labels, |weeks|, monthOf)
  {
    labels := [];
    var currentMonth: int := -1;
    var i := 0;
    while i < |weeks|
      invariant 0 <= i <= |weeks|
      invariant currentMonth == PrevMonth(weeks, i, monthOf)
      invariant LabelsSound(weeks, labels, i, monthOf, monthName)
      invariant Increasing(labels)
      invariant LabelsComplete(weeks, labels, i, monthOf)
    {
      if weeks[i].days != [] {
        var month := monthOf(weeks[i].days[0].date);
        if month != currentMonth {
          currentMonth := month;
          AppendLabel(weeks, labels, i, monthOf, monthName);
          labels := labels + [MonthLabel(monthName(weeks[i].days[0].date), i)];
        } else {
          assert !Labelled(weeks, i, monthOf);
        }
      } else {
        assert !Labelled(weeks, i, monthOf);
      }
      i := i + 1;
    }
  }

  /** Labelling week `i` keeps the labels sound, increasing and complete
      up to `i + 1`. */
  lemma AppendLabel(weeks: seq<Week>, labels: seq<MonthLabel>, i: nat,
                    monthOf: string -> Month, monthName: string -> string)
    requires i < |weeks| && Labelled(weeks, i, monthOf)
    requires LabelsSound(weeks, labels, i, monthOf, monthName) && Increasing(labels)
    requires LabelsComplete(weeks, labels, i, monthOf)
    ensures var next := labels + [MonthLabel(monthName(weeks[i].days[0].date), i)];
      && LabelsSound(weeks, next, i + 1, monthOf, monthName)
      && Increasing(next)
      && LabelsComplete(weeks, next, i + 1, monthOf)
  {
    var next := labels + [MonthLabel(monthName(weeks[i].days[0].date), i)];
    assert forall k :: 0 <= k < |labels| ==> next[k] == labels[k];
    assert next[|labels|].index == i;
  }

  /** The first week that has a day is always labelled: no month equals
      the starting -1. */
  lemma FirstFilledWeekLabelled(weeks: seq<Week>, w: nat, monthOf: string -> Month)
    requires w < |weeks| && weeks[w].days != []
    requires forall v :: 0 <= v < w ==> weeks[v].days == []
    ensures Labelled(weeks, w, monthOf)
  {
    NoFilledWeekBefore(weeks, w, monthOf);
  }

  lemma {:induction false} NoFilledWeekBefore(weeks: seq<Week>, w: nat, monthOf: string -> Month)
    requires w <= |weeks|
    requires forall v :: 0 <= v < w ==> weeks[v].days == []
    ensures PrevMonth(weeks, w, monthOf) == -1
  {
    if w > 0 {
      NoFilledWeekBefore(weeks, w - 1, monthOf);
    }
  }

  /** Between a labelled week `a` and a later week `b`, with no label in
      between, the month carried forward is still `a`'s. */
  lemma {:induction false} MonthCarried(weeks: seq<Week>, a: nat, b: nat, monthOf: string -> Month)
    requires a < b <= |weeks| && weeks[a].days != []
    requires forall v :: a < v < b ==> !Labelled(weeks, v, monthOf)
    ensures PrevMonth(weeks, b, monthOf) == FirstMonth(weeks[a], monthOf)
    decreases b - a
  {
    if b - 1 > a {
      MonthCarried(weeks, a, b - 1, monthOf);
      assert !Labelled(weeks, b - 1, monthOf);
    }
  }

  /** Two labels in a row name different months. */
  lemma ConsecutiveLabelsDiffer(weeks: seq<Week>, a: nat, b: nat, monthOf: string -> Month)
    requires a < b < |weeks|
    requires Labelled(weeks, a, monthOf) && Labelled(weeks, b, monthOf)
    requires forall v :: a < v < b ==> !Labelled(weeks, v, monthOf)
    ensures FirstMonth(weeks[a], monthOf) != FirstMonth(weeks[b], monthOf)
  {
    MonthCarried(weeks, a, b, monthOf);
  }

  /** In the labels of `GetMonthLabels`, each label names a different
      month from the one before it. */
  lemma NeighbourLabelsDiffer(weeks: seq<Week>, labels: seq<MonthLabel>, k: nat,
                              monthOf: string -> Month, monthName: string -> string)
    requires LabelsSound(weeks, labels, |weeks|, monthOf, monthName) && Increasing(labels)
    requires LabelsComplete(weeks, labels, |weeks|, monthOf)
    requires k + 1 < |labels|
    ensures FirstMonth(weeks[labels[k].index], monthOf) != FirstMonth(weeks[labels[k + 1].index], monthOf)
  {
    var a, b := labels[k].index, labels[k + 1].index;
    forall v | a < v < b ensures !Labelled(weeks, v, monthOf) {
      forall j | 0 <= j < |labels| ensures labels[j].index != v {
        if j <= k {
          assert labels[j].index <= a;
        } else {
          assert labels[j].index >= b;
        }
      }
    }
    ConsecutiveLabelsDiffer(weeks, a, b, monthOf);
  }

  // ---------------------------------------------------------------------
  // formatDate

  /** `s.split(sep)`. */
  function SplitOn(s: string, sep: char): (parts: seq<string>)
    ensures |parts| >= 1
    ensures forall i :: 0 <= i < |parts| ==> sep !in parts[i]
  {
    if s == [] then [[]]
    else
      var rest := SplitOn(s[1..], sep);
      if s[0] == sep then [[]] + rest
      else
        assert forall i :: 1 <= i < |rest| ==> ([[s[0]] + rest[0]] + rest[1..])[i] == rest[i];
        [[s[0]] + rest[0]] + rest[1..]
  }

  /** Splitting at the first separator. */
  lemma {:induction false} SplitOnFirst(a: string, sep: char, t: string)
    requires sep !in a
    ensures SplitOn(a + [sep] + t, sep) == [a] + SplitOn(t, sep)
  {
    if a != [] {
      SplitOnFirst(a[1..], sep, t);
      var s := a + [sep] + t;
      assert s[0] == a[0] != sep;
      assert s[1..] == a[1..] + [sep] + t;
      var rest := [a[1..]] + SplitOn(t, sep);
      assert rest[0] == a[1..] && rest[1..] == SplitOn(t, sep);
      assert [a[0]] + a[1..] == a;
    } else {
      assert a + [sep] + t == [sep] + t;
    }
  }

  /** A piece without a separator is a single part. */
  lemma {:induction false} SplitOnNone(a: string, sep: char)
    requires sep !in a
    ensures SplitOn(a, sep) == [a]
  {
    if a != [] {
      SplitOnNone(a[1..], sep);
      assert a[0] != sep;
      assert [a[0]] + a[1..] == a;
    }
  }

  /** The arguments of `new Date(year, month - 1, day)`. */
  datatype DateArgs = DateArgs(year: int, monthIndex: int, day: int)

  predicate NumberPart(p: string) {
    p != [] && AllDigits(p)
  }

  /** `dateString.split("-").map(Number)`, the first three parts, with the
      month made 0-based. Only non-empty digit strings are read as numbers;
      `Number` also accepts empty and space-padded parts, which have no
      model here. */
  function FormatDateArgs(s: string): Option<DateArgs> {
    var parts := SplitOn(s, '-');
    if |parts| >= 3 && NumberPart(parts[0]) && NumberPart(parts[1]) && NumberPart(parts[2])
    then Some(DateArgs(DigitsValue(parts[0]), DigitsValue(parts[1]) - 1, DigitsValue(parts[2])))
    else None
  }

  /** A `Y-M-D` date gives its own year, the month before its month number
      and its day, leading zeros or not. */
  lemma FormatDateArgsOfDate(ys: string, ms: string, ds: string)
    requires NumberPart(ys) && NumberPart(ms) && NumberPart(ds)
    ensures FormatDateArgs(ys + "-" + ms + "-" + ds) ==
              Some(DateArgs(DigitsValue(ys), DigitsValue(ms) - 1, DigitsValue(ds)))
  {
    var parts := SplitOn(ys + "-" + ms + "-" + ds, '-');
    SplitDate(ys, ms, ds);
    assert parts[0] == ys && parts[1] == ms && parts[2] == ds;
  }

  lemma SplitDate(ys: string, ms: string, ds: string)
    requires AllDigits(ys) && AllDigits(ms) && AllDigits(ds)
    ensures SplitOn(ys + "-" + ms + "-" + ds, '-') == [ys, ms, ds]
  {
    DigitsHaveNoDash(ys);
    DigitsHaveNoDash(ms);
    DigitsHaveNoDash(ds);
    SplitOnNone(ds, '-');
    SplitOnFirst(ms, '-', ds);
    SplitOnFirst(ys, '-', ms + "-" + ds);
    assert ys + "-" + ms + "-" + ds == ys + ['-'] + (ms + ['-'] + ds);
  }

  lemma DigitsHaveNoDash(p: string)
    requires AllDigits(p)
    ensures '-' !in p
  {
    forall i | 0 <= i < |p| ensures p[i] != '-' {
      assert IsDigit(p[i]);
    }
  }

  // ---------------------------------------------------------------------
  // Tooltip

  /** `{count} contribution{count !== 1 ? "s" : ""}`. */
  function ContributionText(count: nat): string {
    NatToString(count) + " contribution" + (if count != 1 then "s" else "")
  }

  /** The text ends in `s` exactly when the count is not one, and it begins
      with the count. */
  lemma ContributionPlural(count: nat)
    ensures var t := ContributionText(count);
      && (t[|t| - 1] == 's' <==> count != 1)
      && t[..|NatToString(count)|] == NatToString(count)
  {
  }
}
