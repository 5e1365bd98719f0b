/** The trend line of the `StatsBento` card (app/components/StatsBento.tsx):
    the bar centres, the line's height at a cursor position, the peak bar
    and the cursor clamp. The bar heights are percentages; the card's own
    seven are `BarHeights`. */
module StatsBento {
  import opened Arith

  const BarHeights: seq<real> := [35.0, 52.0, 45.0, 68.0, 58.0, 82.0, 75.0]

  /** `getX`: the centre of bar `i` of `n`, as a percentage of the width. */
  function GetX(i: int, n: nat): real
    requires n > 0
  {
    ((i * 2 + 1) as real / (n * 2) as real) * 100.0
  }

  /** The centres go left to right inside the chart. */
  lemma CentresOrdered(a: int, b: int, n: nat)
    requires n > 0 && a < b
    ensures GetX(a, n) < GetX(b, n)
  {
    DivLess((a * 2 + 1) as real, (b * 2 + 1) as real, (n * 2) as real);
  }

  /** A point `t` of the way from `a` to `b` lies between them. */
  lemma ScaleBetween(t: real, a: real, b: real)
    requires 0.0 <= t <= 1.0
    ensures Between(a + t * (b - a), a, b)
  {
    if a <= b {
      assert t * (b - a) <= b - a;
    } else {
      assert t * (a - b) <= a - b;
    }
  }

  /** Every bar's centre lies strictly inside the chart. */
  lemma CentreInside(i: nat, n: nat)
    requires i < n
    ensures 0.0 < GetX(i, n) < 100.0
  {
    DivUnit((i * 2 + 1) as real, (n * 2) as real);
  }

  /** `100 - height`: the SVG y of a bar's top. */
  function YOf(height: real): real {
    100.0 - height
  }

  predicate Between(y: real, a: real, b: real) {
    (a <= y <= b) || (b <= y <= a)
  }

  /** `y1 + t * (y2 - y1)` with `t = (x - x1) / (x2 - x1)`. */
  function Lerp(x: real, x1: real, x2: real, y1: real, y2: real): (y: real)
    requires x1 < x2 && x1 <= x <= x2
    ensures x == x1 ==> y == y1
    ensures x == x2 ==> y == y2
    ensures Between(y, y1, y2)
  {
    var t := (x - x1) / (x2 - x1);
    DivUnit(x - x1, x2 - x1);
    ScaleBetween(t, y1, y2);
    y1 + t * (y2 - y1)
  }

  /** What the line's height `y` at `x` must be: the bar's own height at
      each centre, flat beyond the first and last centres, and between the
      heights of the two centres around `x`. */
  predicate OnLine(x: real, heights: seq<real>, y: real)
    requires |heights| > 0
  {
    var n := |heights|;
    && (forall j :: 0 <= j < n && x == GetX(j, n) ==> y == YOf(heights[j]))
    && (x < GetX(0, n) ==> y == YOf(heights[0]))
    && (x > GetX(n - 1, n) ==> y == YOf(heights[n - 1]))
    && (forall i :: 0 <= i < n - 1 && GetX(i, n) <= x <= GetX(i + 1, n) ==>
          Between(y, YOf(heights[i]), YOf(heights[i + 1])))
  }

  /** `getYOnLine`: the first segment between neighbouring centres that
      holds `x` interpolates; left of the first centre the line is flat at
      the first bar, right of the last at the last bar. */
  method GetYOnLine(x: real, heights: seq<real>) returns (y: real)
    requires |heights| > 0
    ensures OnLine(x, heights, y)
  {
    var n := |heights|;
    var i := 0;
    while i < n - 1
      invariant 0 <= i <= n - 1
      invariant forall j :: 0 <= j < i ==> !(GetX(j, n) <= x <= GetX(j + 1, n))
    {
      var x1, x2 := GetX(i, n), GetX(i + 1, n);
      if x >= x1 && x <= x2 {
        CentresOrdered(i, i + 1, n);
        y := Lerp(x, x1, x2, YOf(heights[i]), YOf(heights[i + 1]));
        SegmentOnLine(x, heights, i);
        return;
      }
      i := i + 1;
    }
    if x < GetX(0, n) {
      y := YOf(heights[0]);
      BeforeFirst(x, heights);
    } else {
      y := YOf(heights[n - 1]);
      AfterSegments(x, heights);
    }
  }

  /** Interpolating in the first segment that holds `x` is on the line. */
  lemma SegmentOnLine(x: real, heights: seq<real>, i: nat)
    requires i + 1 < |heights|
    requires GetX(i, |heights|) <= x <= GetX(i + 1, |heights|)
    requires forall j :: 0 <= j < i ==> !(GetX(j, |heights|) <= x <= GetX(j + 1, |heights|))
    ensures GetX(i, |heights|) < GetX(i + 1, |heights|)
    ensures OnLine(x, heights, Lerp(x, GetX(i, |heights|), GetX(i + 1, |heights|),
                                     YOf(heights[i]), YOf(heights[i + 1])))
  {
    var n := |heights|;
    CentresOrdered(i, i + 1, n);
    InSegment(x, i, n);
    CentreInsideOrder(x, i, n);
  }

  /** A point of a segment lies between the first and the last centre. */
  lemma CentreInsideOrder(x: real, i: nat, n: nat)
    requires i + 1 < n && GetX(i, n) <= x <= GetX(i + 1, n)
    ensures GetX(0, n) <= x && x <= GetX(n - 1, n)
  {
    if i > 0 {
      CentresOrdered(0, i, n);
    }
    if i + 1 < n - 1 {
      CentresOrdered(i + 1, n - 1, n);
    }
  }

  /** A point of segment `i` is the centre of no bar but `i` and `i + 1`,
      and lies in no later segment but `i + 1`, at its left end. */
  lemma InSegment(x: real, i: nat, n: nat)
    requires i + 1 < n && GetX(i, n) <= x <= GetX(i + 1, n)
    ensures forall j :: 0 <= j < n && x == GetX(j, n) ==> j == i || j == i + 1
    ensures forall k :: i + 1 < k < n - 1 ==> !(GetX(k, n) <= x <= GetX(k + 1, n))
    ensures x >= GetX(i + 1, n) ==> x == GetX(i + 1, n)
  {
    forall j | 0 <= j < n && x == GetX(j, n) ensures j == i || j == i + 1 {
      if j < i {
        CentresOrdered(j, i, n);
      } else if j > i + 1 {
        CentresOrdered(i + 1, j, n);
      }
    }
    forall k | i + 1 < k < n - 1 ensures !(GetX(k, n) <= x <= GetX(k + 1, n)) {
      CentresOrdered(i + 1, k, n);
    }
  }

  /** Left of the first centre the line is flat at the first bar. */
  lemma BeforeFirst(x: real, heights: seq<real>)
    requires |heights| > 0 && x < GetX(0, |heights|)
    ensures OnLine(x, heights, YOf(heights[0]))
  {
    var n := |heights|;
    forall j | 0 < j < n ensures x < GetX(j, n) {
      CentresOrdered(0, j, n);
    }
  }

  /** At or right of the first centre and in no segment: past the last
      centre, or on it when there is one bar. */
  lemma AfterSegments(x: real, heights: seq<real>)
    requires |heights| > 0 && x >= GetX(0, |heights|)
    requires forall j :: 0 <= j < |heights| - 1 ==> !(GetX(j, |heights|) <= x <= GetX(j + 1, |heights|))
    ensures OnLine(x, heights, YOf(heights[|heights| - 1]))
  {
    var n := |heights|;
    forall k | 0 <= k < n - 1 ensures GetX(k, n) < x {
      PastCentres(x, n, k + 1);
      CentresOrdered(k, k + 1, n);
    }
  }

  /** Outside every segment and not left of the first centre, `x` is right
      of each later centre. */
  lemma {:induction false} PastCentres(x: real, n: nat, k: nat)
    requires k < n && x >= GetX(0, n)
    requires forall j :: 0 <= j < n - 1 ==> !(GetX(j, n) <= x <= GetX(j + 1, n))
    ensures GetX(k, n) <= x
    ensures k > 0 ==> GetX(k, n) < x
  {
    if k > 0 {
      PastCentres(x, n, k - 1);
      assert !(GetX(k - 1, n) <= x <= GetX(k, n));
    }
  }

  // ---------------------------------------------------------------------
  // Peak and cursor

  /** `Math.max(...heights)`. */
  function MaxHeight(heights: seq<real>): (m: real)
    requires |heights| > 0
    ensures forall j :: 0 <= j < |heights| ==> heights[j] <= m
    ensures exists j :: 0 <= j < |heights| && heights[j] == m
  {
    if |heights| == 1 then heights[0]
    else
      var rest := MaxHeight(heights[1..]);
      assert forall j :: 1 <= j < |heights| ==> heights[j] == heights[1..][j - 1];
      if heights[0] >= rest then heights[0] else rest
  }

  /** `findIndex` of the maximum: the first tallest bar. */
  function PeakIndex(heights: seq<real>): (p: nat)
    requires |heights| > 0
    ensures p < |heights|
    ensures forall j :: 0 <= j < |heights| ==> heights[j] <= heights[p]
    ensures forall j :: 0 <= j < p ==> heights[j] < heights[p]
  {
    FirstAtLeast(heights, MaxHeight(heights), 0)
  }

  /** The first index from `from` whose height reaches `m`. */
  function FirstAtLeast(heights: seq<real>, m: real, from: nat): (p: nat)
    requires from <= |heights|
    requires exists j :: from <= j < |heights| && heights[j] == m
    requires forall j :: 0 <= j < |heights| ==> heights[j] <= m
    ensures from <= p < |heights| && heights[p] == m
    ensures forall j :: from <= j < p ==> heights[j] < m
    decreases |heights| - from
  {
    if heights[from] == m then from else FirstAtLeast(heights, m, from + 1)
  }

  /** The card's peak is its sixth bar. */
  lemma CardPeak()
    ensures PeakIndex(BarHeights) == 5
  {
    var p := PeakIndex(BarHeights);
    assert BarHeights[5] == 82.0;
    assert p <= 5;
  }

  /** `Math.max(0, Math.min(100, percent))`. */
  function ClampPercent(percent: real): (c: real)
    ensures 0.0 <= c <= 100.0
    ensures 0.0 <= percent <= 100.0 ==> c == percent
    ensures percent < 0.0 ==> c == 0.0
    ensures percent > 100.0 ==> c == 100.0
  {
    var low := if percent < 100.0 then percent else 100.0;
    if low > 0.0 then low else 0.0
  }
}
