/** The rules of `LighthouseScoreCard`
    (app/components/stats/LighthouseScoreCard.tsx): the colour band of a
    score, the order of the four score items, and the score a bar shows. */
module Lighthouse {
  datatype Scores = Scores(performance: real, accessibility: real, bestPractices: real, seo: real)

  datatype Band = Emerald | Amber | Red

  /** The classes of a band: the bar, its background, the text and the glow. */
  datatype ScoreColor = ScoreColor(bar: string, barBg: string, text: string, glow: string)

  const GoodFrom: real := 90.0
  const AverageFrom: real := 50.0

  /** The band of a score: emerald from 90, amber from 50, red below. */
  function BandOf(score: real): (b: Band)
    ensures b == Emerald <==> score >= GoodFrom
    ensures b == Amber <==> AverageFrom <= score < GoodFrom
    ensures b == Red <==> score < AverageFrom
  {
    if score >= GoodFrom then Emerald else if score >= AverageFrom then Amber else Red
  }

  /** How good a band is: red 0, amber 1, emerald 2. */
  function Rank(b: Band): nat {
    match b
    case Red => 0
    case Amber => 1
    case Emerald => 2
  }

  function ColorOf(b: Band): ScoreColor {
    match b
    case Emerald => ScoreColor("bg-emerald-500", "bg-emerald-100", "text-emerald-600", "shadow-emerald-500/20")
    case Amber => ScoreColor("bg-amber-500", "bg-amber-100", "text-amber-600", "shadow-amber-500/20")
    case Red => ScoreColor("bg-red-500", "bg-red-100", "text-red-600", "shadow-red-500/20")
  }

  /** `getScoreColor`: all four classes come from the score's band, and
      different bands never share a class set. */
  function GetScoreColor(score: real): (c: ScoreColor)
    ensures score >= GoodFrom ==> c == ColorOf(Emerald)
    ensures AverageFrom <= score < GoodFrom ==> c == ColorOf(Amber)
    ensures score < AverageFrom ==> c == ColorOf(Red)
    ensures forall b :: c == ColorOf(b) ==> b == BandOf(score)
  {
    ColorOf(BandOf(score))
  }

  /** A higher score never gets a worse band. */
  lemma BandMonotone(a: real, b: real)
    requires a <= b
    ensures Rank(BandOf(a)) <= Rank(BandOf(b))
  {
  }

  datatype ScoreItem = ScoreItem(score: real, title: string)

  const Labels: seq<string> := ["Performance", "Accessibility", "Best Practices", "SEO"]

  /** `scoreItems`: the bars, in a fixed order (`label` is a Dafny keyword,
      so the field is `title`). */
  function ScoreItems(s: Scores): (items: seq<ScoreItem>)
    ensures |items| == |Labels|
    ensures forall i :: 0 <= i < |items| ==> items[i].title == Labels[i]
  {
    [ScoreItem(s.performance, "Performance"), ScoreItem(s.accessibility, "Accessibility"),
     ScoreItem(s.bestPractices, "Best Practices"), ScoreItem(s.seo, "SEO")]
  }

  /** `scoreValues`: the radar's corners, in the same order. */
  function ScoreValues(s: Scores): seq<real> {
    [s.performance, s.accessibility, s.bestPractices, s.seo]
  }

  /** The bars and the radar show the same scores in the same order, and
      every score of the record is shown once. */
  lemma ItemsMatchValues(s: Scores)
    ensures |ScoreItems(s)| == |ScoreValues(s)|
    ensures forall i :: 0 <= i < |ScoreItems(s)| ==> ScoreItems(s)[i].score == ScoreValues(s)[i]
    ensures ScoreItems(s)[0].score == s.performance && ScoreItems(s)[1].score == s.accessibility
    ensures ScoreItems(s)[2].score == s.bestPractices && ScoreItems(s)[3].score == s.seo
  {
  }

  /** The ease-out curve `1 - (1 - p)^3`. */
  function Eased(p: real): (e: real)
    requires 0.0 <= p <= 1.0
    ensures 0.0 <= e <= 1.0
    ensures p == 1.0 ==> e == 1.0
  {
    var q := 1.0 - p;
    assert 0.0 <= q * q <= 1.0 by {
      assert q * q <= q * 1.0;
    }
    assert 0.0 <= q * q * q <= 1.0 by {
      assert q * q * q <= q * q * 1.0;
    }
    1.0 - q * q * q
  }

  /** The score a bar shows: the score itself with reduced animations,
      else `Math.floor(eased * score)` at the animation's progress. */
  function DisplayScore(score: real, reduceAnimations: bool, progress: real): (d: int)
    requires 0.0 <= progress <= 1.0
    ensures reduceAnimations && score == score.Floor as real ==> d as real == score
    ensures progress == 1.0 ==> d == score.Floor
    ensures score >= 0.0 ==> 0 <= d && d as real <= score
  {
    if reduceAnimations then score.Floor
    else
      var e := Eased(progress);
      assert score >= 0.0 ==> 0.0 <= e * score <= score by {
        if score >= 0.0 {
          assert e * score <= 1.0 * score;
        }
      }
      (e * score).Floor
  }
}
