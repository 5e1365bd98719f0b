/** `extractHeadingsFromMdx` (app/lib/toc-utils.ts): the level-2 and level-3
    headings of an MDX document, found by running the global, multi-line
    pattern `^(#{2,3})\s+(.+)$` over the whole text. Each match gives the
    number of hashes and the captured text; the text is trimmed, blank ones
    are skipped, and the anchor is `slugify` of the text. */
module TocHeadings {
  import opened Options
  import opened JsText
  import opened Slug
  import Seqs

  datatype TocHeading = TocHeading(level: nat, text: string, slug: string)

  /** One match of the pattern: where it starts, how many hashes it has,
      where the captured text starts, and where the match (and the text)
      ends. */
  datatype HeadingMatch = HeadingMatch(start: nat, level: nat, textStart: nat, end: nat)

  /** `^` in multi-line mode: the start of the input or just after a line
      terminator. */
  predicate LineStart(c: string, i: nat)
    requires i <= |c|
  {
    i == 0 || IsLineTerminator(c[i - 1])
  }

  /** A way for the pattern to match at `i`: a line start, `k` hashes
      (`k` is 2 or 3), whitespace up to `w` (at least one character; it may
      cross line terminators), then at least one character that is not a
      line terminator up to `e`, and `e` is the end of the input or of a
      line. */
  predicate ValidMatch(c: string, i: nat, k: nat, w: nat, e: nat) {
    && i + k < w < e <= |c|
    && LineStart(c, i)
    && (k == 2 || k == 3)
    && (forall t :: i <= t < i + k ==> c[t] == '#')
    && (forall t :: i + k <= t < w ==> IsWhitespace(c[t]))
    && (forall t :: w <= t < e ==> !IsLineTerminator(c[t]))
    && (e == |c| || IsLineTerminator(c[e]))
  }

  /** The order in which the backtracking matcher tries the ways to match:
      more hashes first (`{2,3}` is greedy), then a longer `\s+`, then a
      longer `.+`. */
  predicate NotAfter(k: nat, w: nat, e: nat, k': nat, w': nat, e': nat) {
    k < k' || (k == k' && (w < w' || (w == w' && e <= e')))
  }

  /** The end of the whitespace run that starts at `j`. */
  function RunEnd(c: string, j: nat): (w: nat)
    requires j <= |c|
    ensures j <= w <= |c|
    ensures forall t :: j <= t < w ==> IsWhitespace(c[t])
    ensures w == |c| || !IsWhitespace(c[w])
    decreases |c| - j
  {
    if j == |c| || !IsWhitespace(c[j]) then j else RunEnd(c, j + 1)
  }

  /** The first line terminator at or after `w`, or the end of the input. */
  function LineEnd(c: string, w: nat): (q: nat)
    requires w <= |c|
    ensures w <= q <= |c|
    ensures forall t :: w <= t < q ==> !IsLineTerminator(c[t])
    ensures q == |c| || IsLineTerminator(c[q])
    decreases |c| - w
  {
    if w == |c| || IsLineTerminator(c[w]) then w else LineEnd(c, w + 1)
  }

  /** The last position in `[lo, hi)` that is not a line terminator. */
  function LastNonTerminator(c: string, lo: nat, hi: nat): (p: Option<nat>)
    requires hi <= |c|
    ensures p.None? ==> forall t :: lo <= t < hi ==> IsLineTerminator(c[t])
    ensures p.Some? ==> lo <= p.value < hi && !IsLineTerminator(c[p.value])
    ensures p.Some? ==> forall t :: p.value < t < hi ==> IsLineTerminator(c[t])
    decreases hi
  {
    if hi <= lo then None
    else if !IsLineTerminator(c[hi - 1]) then Some(hi - 1)
    else LastNonTerminator(c, lo, hi - 1)
  }

  /** Where the captured text starts and where the match ends. */
  datatype Tail = Tail(textStart: nat, end: nat)

  /** `\s+(.+)$` from `j`. The greedy `\s+` takes the whole whitespace run;
      when the run reaches the end of the input, it gives back characters
      until `.` can take one that is not a line terminator. */
  function MatchRest(c: string, j: nat): (r: Option<Tail>)
    requires j <= |c|
    ensures r.Some? ==> j < r.value.textStart < r.value.end <= |c|
    ensures r.Some? ==> forall t :: j <= t < r.value.textStart ==> IsWhitespace(c[t])
    ensures r.Some? ==> forall t :: r.value.textStart <= t < r.value.end ==> !IsLineTerminator(c[t])
    ensures r.Some? ==> r.value.end == |c| || IsLineTerminator(c[r.value.end])
  {
    if j == |c| || !IsWhitespace(c[j]) then None
    else
      var w := RunEnd(c, j);
      if w < |c| then
        assert !IsLineTerminator(c[w]);
        Some(Tail(w, LineEnd(c, w)))
      else
        match LastNonTerminator(c, j + 1, |c|)
        case None => None
        case Some(p) => Some(Tail(p, p + 1))
  }

  /** `k` hashes at `i`. */
  predicate HashRun(c: string, i: nat, k: nat) {
    i + k <= |c| && forall t :: i <= t < i + k ==> c[t] == '#'
  }

  /** The match the pattern finds at `i`, if any: three hashes are tried
      before two. */
  function MatchAt(c: string, i: nat): (m: Option<HeadingMatch>)
    requires i <= |c|
    ensures m.Some? ==> m.value.start == i < m.value.textStart < m.value.end <= |c|
    ensures m.Some? ==> m.value.level == 2 || m.value.level == 3
  {
    if !LineStart(c, i) then None
    else
      var three := if HashRun(c, i, 3) then MatchRest(c, i + 3) else None;
      if three.Some? then Some(HeadingMatch(i, 3, three.value.textStart, three.value.end))
      else
        var two := if HashRun(c, i, 2) then MatchRest(c, i + 2) else None;
        if two.Some? then Some(HeadingMatch(i, 2, two.value.textStart, two.value.end))
        else None
  }

  /** What `MatchAt` finds is a way for the pattern to match. */
  lemma MatchAtSound(c: string, i: nat)
    requires i <= |c|
    ensures var m := MatchAt(c, i);
            m.Some? ==> ValidMatch(c, i, m.value.level, m.value.textStart, m.value.end)
  {
  }

  /** Every way `\s+(.+)$` can match from `j` makes `MatchRest` succeed, and
      the tail it picks comes last in the matcher's order. */
  lemma MatchRestGreatest(c: string, j: nat, w: nat, e: nat)
    requires j < w < e <= |c|
    requires forall t :: j <= t < w ==> IsWhitespace(c[t])
    requires forall t :: w <= t < e ==> !IsLineTerminator(c[t])
    requires e == |c| || IsLineTerminator(c[e])
    ensures MatchRest(c, j).Some?
    ensures var r := MatchRest(c, j).value; w < r.textStart || (w == r.textStart && e <= r.end)
  {
    assert IsWhitespace(c[j]);
    var run := RunEnd(c, j);
    if run == |c| {
      var p := LastNonTerminator(c, j + 1, |c|);
      assert !IsLineTerminator(c[w]);
      if p.Some? && p.value == w && e > w + 1 {
        assert !IsLineTerminator(c[w + 1]);
      }
    }
  }

  /** The pattern matches at `i` exactly when some way to match exists, and
      the match found is the one the backtracking matcher reaches first. */
  lemma MatchAtGreatest(c: string, i: nat, k: nat, w: nat, e: nat)
    requires ValidMatch(c, i, k, w, e)
    ensures MatchAt(c, i).Some?
    ensures var m := MatchAt(c, i).value; NotAfter(k, w, e, m.level, m.textStart, m.end)
  {
    MatchRestGreatest(c, i + k, w, e);
    if k == 3 {
      MatchAtThree(c, i);
    } else {
      assert IsWhitespace(c[i + 2]);
      MatchAtTwo(c, i);
    }
  }

  /** Three hashes followed by the rest of a match give a level-3 match. */
  lemma MatchAtThree(c: string, i: nat)
    requires i + 3 <= |c| && LineStart(c, i) && HashRun(c, i, 3) && MatchRest(c, i + 3).Some?
    ensures MatchAt(c, i) == Some(HeadingMatch(i, 3, MatchRest(c, i + 3).value.textStart, MatchRest(c, i + 3).value.end))
  {
  }

  /** Two hashes not followed by a third, then the rest of a match, give a
      level-2 match. */
  lemma MatchAtTwo(c: string, i: nat)
    requires i + 3 <= |c| && LineStart(c, i) && HashRun(c, i, 2) && c[i + 2] != '#'
    requires MatchRest(c, i + 2).Some?
    ensures MatchAt(c, i) == Some(HeadingMatch(i, 2, MatchRest(c, i + 2).value.textStart, MatchRest(c, i + 2).value.end))
  {
    assert !HashRun(c, i, 3);
  }

  /** Four hashes in a row never start a heading: neither `###` nor `##` is
      followed by whitespace. */
  lemma FourHashesNoMatch(c: string, i: nat)
    requires HashRun(c, i, 4)
    ensures MatchAt(c, i).None?
  {
    MatchAtSound(c, i);
    assert c[i + 2] == '#' && c[i + 3] == '#';
  }

  /** The whitespace after the hashes may run over line breaks: a `##` line
      followed by a line of text is a level-2 heading whose text is that
      next line. */
  lemma TextMayStartOnNextLine(t: string)
    requires t != [] && !IsWhitespace(t[0])
    requires forall x :: 0 <= x < |t| ==> !IsLineTerminator(t[x])
    ensures var c := "##\n" + t;
            MatchAt(c, 0) == Some(HeadingMatch(0, 2, 3, |c|))
  {
    var c := "##\n" + t;
    forall x | 3 <= x < |c| ensures !IsLineTerminator(c[x]) {
      assert c[x] == t[x - 3];
    }
    assert ValidMatch(c, 0, 2, 3, |c|);
    MatchAtGreatest(c, 0, 2, 3, |c|);
    MatchAtSound(c, 0);
    var m := MatchAt(c, 0).value;
    assert c[2] == '\n' && c[3] == t[0];
  }

  // ---------------------------------------------------------------------
  // The `exec` loop

  /** A match's capture lies inside the input and its level is 2 or 3. */
  predicate WellFormed(c: string, m: HeadingMatch) {
    m.textStart <= m.end <= |c| && (m.level == 2 || m.level == 3)
  }

  /** Position `i` lies in none of the matches' spans. */
  predicate Outside(ms: seq<HeadingMatch>, i: nat) {
    forall k :: 0 <= k < |ms| ==> i < ms[k].start || ms[k].end <= i
  }

  lemma OutsideCons(m: HeadingMatch, rest: seq<HeadingMatch>, i: nat)
    requires Outside([m] + rest, i)
    ensures i < m.start || m.end <= i
    ensures Outside(rest, i)
  {
    assert ([m] + rest)[0] == m;
    forall k | 0 <= k < |rest| ensures i < rest[k].start || rest[k].end <= i {
      assert rest[k] == ([m] + rest)[k + 1];
    }
  }

  /** The matches `exec` returns from `lastIndex = from` on: each search
      takes the leftmost position where the pattern matches, and the next
      search starts where the match ended. */
  function Scan(c: string, from: nat): (ms: seq<HeadingMatch>)
    requires from <= |c|
    ensures forall k :: 0 <= k < |ms| ==> from <= ms[k].start <= |c| && MatchAt(c, ms[k].start) == Some(ms[k])
    ensures forall k :: 0 <= k < |ms| ==> WellFormed(c, ms[k])
    ensures forall k :: 0 <= k < |ms| - 1 ==> ms[k].end <= ms[k + 1].start
    decreases |c| - from
  {
    match MatchAt(c, from)
    case Some(m) => [m] + Scan(c, m.end)
    case None => if from == |c| then [] else Scan(c, from + 1)
  }

  /** No search skips a match: every position from `from` on where the
      pattern matches is inside one of the reported matches. */
  lemma {:induction false} ScanLeftmost(c: string, from: nat, i: nat)
    requires from <= i <= |c|
    requires Outside(Scan(c, from), i)
    ensures MatchAt(c, i).None?
    decreases |c| - from
  {
    var ms := Scan(c, from);
    match MatchAt(c, from)
    case Some(m) =>
      OutsideCons(m, Scan(c, m.end), i);
      ScanLeftmost(c, m.end, i);
    case None =>
      if i != from {
        ScanLeftmost(c, from + 1, i);
      }
  }

  /** Every position where the pattern can match is the start of a reported
      match or lies inside one: the loop misses no heading line that an
      earlier match has not swallowed. */
  lemma ScanMissesNothing(c: string, i: nat, k: nat, w: nat, e: nat)
    requires ValidMatch(c, i, k, w, e)
    ensures !Outside(Scan(c, 0), i)
  {
    if Outside(Scan(c, 0), i) {
      ScanLeftmost(c, 0, i);
      MatchAtGreatest(c, i, k, w, e);
    }
  }

  /** The heading each match gives, in match order: none for a blank
      capture. */
  function HeadingOpts(c: string, ms: seq<HeadingMatch>): (r: seq<Option<TocHeading>>)
    requires forall k :: 0 <= k < |ms| ==> WellFormed(c, ms[k])
    ensures |r| == |ms|
    ensures forall k :: 0 <= k < |ms| ==> r[k] == HeadingOf(c, ms[k])
  {
    seq(|ms|, k requires 0 <= k < |ms| => HeadingOf(c, ms[k]))
  }

  /** Only a prefix of the matches gives only a prefix of the headings. */
  lemma HeadingOptsPrefix(c: string, ms: seq<HeadingMatch>, n: nat)
    requires forall k :: 0 <= k < |ms| ==> WellFormed(c, ms[k])
    requires n <= |ms|
    ensures HeadingOpts(c, ms[..n]) == HeadingOpts(c, ms)[..n]
  {
    var a, b := HeadingOpts(c, ms[..n]), HeadingOpts(c, ms)[..n];
    forall k | 0 <= k < n ensures a[k] == b[k] {
      assert ms[..n][k] == ms[k];
    }
  }

  /** The trimmed text of each match, with its level and anchor; blank texts
      are skipped. */
  function Headings(c: string, ms: seq<HeadingMatch>): (hs: seq<TocHeading>)
    requires forall k :: 0 <= k < |ms| ==> WellFormed(c, ms[k])
    ensures |hs| <= |ms|
  {
    Seqs.Values(HeadingOpts(c, ms))
  }

  /** Every heading a list of matches gives is a table of contents
      heading. */
  lemma HeadingsSound(c: string, ms: seq<HeadingMatch>)
    requires forall k :: 0 <= k < |ms| ==> WellFormed(c, ms[k])
    ensures forall h :: h in Headings(c, ms) ==> IsTocHeading(h)
  {
    var opts := HeadingOpts(c, ms);
    forall h | h in Headings(c, ms) ensures IsTocHeading(h) {
      Seqs.ValuesMembers(opts, h);
      var k :| 0 <= k < |opts| && opts[k] == Some(h);
      assert WellFormed(c, ms[k]);
    }
  }

  /** The heading a match gives: none when the captured text is blank. */
  function HeadingOf(c: string, m: HeadingMatch): (h: Option<TocHeading>)
    requires WellFormed(c, m)
    ensures h.None? <==> AllWhitespace(c[m.textStart..m.end])
    ensures h.Some? ==> h.value.level == m.level && h.value.text == Trim(c[m.textStart..m.end])
    ensures h.Some? ==> IsTocHeading(h.value)
  {
    var raw := c[m.textStart..m.end];
    TrimmedText(raw);
    var text := Trim(raw);
    if text == [] then None else Some(TocHeading(m.level, text, Slugify(text)))
  }

  /** `trim` gives the empty string exactly for blank text, and trimming
      again changes nothing. */
  lemma TrimmedText(raw: string)
    ensures Trim(raw) == [] <==> AllWhitespace(raw)
    ensures Trim(Trim(raw)) == Trim(raw)
  {
    TrimEnds(raw);
    TrimIdentity(Trim(raw));
    TrimEmptyIff(raw);
  }

  /** What every extracted heading satisfies: level 2 or 3, a non-blank
      text with no whitespace at either end, and the text's slug as
      anchor. */
  predicate IsTocHeading(h: TocHeading) {
    && (h.level == 2 || h.level == 3)
    && h.text != [] && Trim(h.text) == h.text
    && h.slug == Slugify(h.text)
  }

  /** `extractHeadingsFromMdx`: one heading per match with a non-blank
      capture. Which heading sits where is `ExtractHeadingAt` and
      `ExtractHeadingsOrdered`. */
  function ExtractHeadingsFromMdx(content: string): (hs: seq<TocHeading>)
    ensures forall h :: h in hs ==> IsTocHeading(h)
    ensures |hs| == |Scan(content, 0)| - Blank(content, Scan(content, 0))
  {
    HeadingsSound(content, Scan(content, 0));
    HeadingsCount(content, Scan(content, 0));
    Headings(content, Scan(content, 0))
  }

  /** A match yields a heading exactly when its capture is not blank. */
  lemma HeadingsCount(c: string, ms: seq<HeadingMatch>)
    requires forall k :: 0 <= k < |ms| ==> WellFormed(c, ms[k])
    ensures |Headings(c, ms)| == |ms| - Blank(c, ms)
  {
    Seqs.ValuesCount(HeadingOpts(c, ms));
  }

  /** How many matches have a blank capture. */
  function Blank(c: string, ms: seq<HeadingMatch>): (b: nat)
    requires forall k :: 0 <= k < |ms| ==> WellFormed(c, ms[k])
    ensures b <= |ms|
  {
    Seqs.Nones(HeadingOpts(c, ms))
  }

  /** How many of the first `n` matches have a blank capture. */
  function BlankBefore(c: string, ms: seq<HeadingMatch>, n: nat): (b: nat)
    requires forall k :: 0 <= k < |ms| ==> WellFormed(c, ms[k])
    requires n <= |ms|
    ensures b <= n
  {
    Blank(c, ms[..n])
  }

  /** Every match with a non-blank capture gives the heading at its index
      minus the number of blank matches before it. */
  lemma HeadingsIndex(c: string, ms: seq<HeadingMatch>, j: nat)
    requires forall k :: 0 <= k < |ms| ==> WellFormed(c, ms[k])
    requires j < |ms|
    ensures WellFormed(c, ms[j])
    ensures HeadingOf(c, ms[j]).Some? ==>
              && j - BlankBefore(c, ms, j) < |Headings(c, ms)|
              && Headings(c, ms)[j - BlankBefore(c, ms, j)] == HeadingOf(c, ms[j]).value
  {
    assert WellFormed(c, ms[j]);
    var opts := HeadingOpts(c, ms);
    assert BlankBefore(c, ms, j) == Seqs.Nones(opts[..j]) by {
      HeadingOptsPrefix(c, ms, j);
    }
    assert Headings(c, ms) == Seqs.Values(opts);
    assert opts[j] == HeadingOf(c, ms[j]);
    if opts[j].Some? {
      var idx := j - BlankBefore(c, ms, j);
      Seqs.ValuesIndex(opts, j);
      assert Seqs.Values(opts)[idx] == opts[j].value;
    }
  }

  /** Headings keep the order of their matches: a non-blank match's
      heading comes before that of any later match. */
  lemma HeadingsOrdered(c: string, ms: seq<HeadingMatch>, i: nat, j: nat)
    requires forall k :: 0 <= k < |ms| ==> WellFormed(c, ms[k])
    requires i < j < |ms|
    ensures WellFormed(c, ms[i])
    ensures HeadingOf(c, ms[i]).Some? ==> i - BlankBefore(c, ms, i) < j - BlankBefore(c, ms, j)
  {
    assert WellFormed(c, ms[i]);
    var opts := HeadingOpts(c, ms);
    assert BlankBefore(c, ms, i) == Seqs.Nones(opts[..i]) by {
      HeadingOptsPrefix(c, ms, i);
    }
    assert BlankBefore(c, ms, j) == Seqs.Nones(opts[..j]) by {
      HeadingOptsPrefix(c, ms, j);
    }
    if opts[i].Some? {
      Seqs.ValuesOrdered(opts, i, j);
    }
  }

  /** Every match the `exec` loop finds with a non-blank capture gives the
      extracted heading at its index minus the blank matches before it. */
  lemma ExtractHeadingAt(content: string, j: nat)
    requires j < |Scan(content, 0)|
    ensures var ms := Scan(content, 0);
            && WellFormed(content, ms[j])
            && (HeadingOf(content, ms[j]).Some? ==>
                  && j - BlankBefore(content, ms, j) < |ExtractHeadingsFromMdx(content)|
                  && ExtractHeadingsFromMdx(content)[j - BlankBefore(content, ms, j)] == HeadingOf(content, ms[j]).value)
  {
    HeadingsIndex(content, Scan(content, 0), j);
  }

  /** Extracted headings come out in source order: a non-blank match's
      heading comes before that of any later match. */
  lemma ExtractHeadingsOrdered(content: string, i: nat, j: nat)
    requires i < j < |Scan(content, 0)|
    ensures var ms := Scan(content, 0);
            && WellFormed(content, ms[i])
            && (HeadingOf(content, ms[i]).Some? ==> i - BlankBefore(content, ms, i) < j - BlankBefore(content, ms, j))
  {
    HeadingsOrdered(content, Scan(content, 0), i, j);
  }
}
