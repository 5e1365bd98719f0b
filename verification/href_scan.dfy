/** The three `href` patterns `extractUrlsFromCode` runs over compiled MDX
    (scripts/generate-link-previews.ts, scripts/fix-failed-previews.ts),
    written as scanners. Each scanner finds the leftmost match, reports its
    capture group and resumes at the end of the match, which is what a global
    regular expression's `exec` loop does. */
module HrefScan {
  import opened Options
  import opened JsText

  datatype HrefPattern =
    | EscapedQuote    // href[=:]\\?"([^"\\]+)\\?"
    | ObjectProperty  // href:\s*["']([^"']+)["']
    | Attribute       // href="([^"]+)"

  /** A match: the captured URL and the index just past the match. */
  datatype Match = Match(url: string, end: nat)

  /** The end of the run of characters outside `stops` that starts at `j`. */
  function SpanNot(code: string, j: nat, stops: set<char>): (k: nat)
    requires j <= |code|
    ensures j <= k <= |code|
    ensures forall m :: j <= m < k ==> code[m] !in stops
    ensures k < |code| ==> code[k] in stops
    decreases |code| - j
  {
    if j == |code| || code[j] in stops then j else SpanNot(code, j + 1, stops)
  }

  /** The end of the run of `\s` characters that starts at `j`. */
  function SpanWhitespace(code: string, j: nat): (k: nat)
    requires j <= |code|
    ensures j <= k <= |code|
    ensures forall m :: j <= m < k ==> IsWhitespace(code[m])
    ensures k < |code| ==> !IsWhitespace(code[k])
    decreases |code| - j
  {
    if j == |code| || !IsWhitespace(code[j]) then j else SpanWhitespace(code, j + 1)
  }

  predicate IsQuote(c: char) {
    c == '"' || c == '\''
  }

  /** Whether `p` matches at index `i`, and if so the match the regular
      expression engine reports there. No backtracking is needed: every
      quantified run in the three patterns is followed by a character its
      class excludes. */
  function MatchAt(p: HrefPattern, code: string, i: nat): (m: Option<Match>)
    requires i <= |code|
    ensures m.Some? ==> i < m.value.end <= |code| && m.value.url != []
  {
    match p
    case EscapedQuote => MatchEscapedQuote(code, i)
    case ObjectProperty => MatchObjectProperty(code, i)
    case Attribute => MatchAttribute(code, i)
  }

  function MatchEscapedQuote(code: string, i: nat): (m: Option<Match>)
    requires i <= |code|
    ensures m.Some? ==> i < m.value.end <= |code| && m.value.url != []
  {
    match EscapedCaptureStart(code, i)
    case None => None
    case Some(j) => EscapedCaptureFrom(code, j)
  }

  /** Where the capture starts when `href`, a separator, an optional
      backslash and a quote stand at `i`. */
  function EscapedCaptureStart(code: string, i: nat): (j: Option<nat>)
    requires i <= |code|
    ensures j.Some? ==> i + 6 <= j.value <= |code|
  {
    if !(i + 5 <= |code| && code[i..i + 4] == "href" && code[i + 4] in {'=', ':'}) then None
    else
      var q := if i + 5 < |code| && code[i + 5] == '\\' then i + 6 else i + 5;
      if q < |code| && code[q] == '"' then Some(q + 1) else None
  }

  /** The capture from `j` on and the end of the match: a run of characters
      other than `"` and backslash, then an optional backslash and a quote. */
  function EscapedCaptureFrom(code: string, j: nat): (m: Option<Match>)
    requires j <= |code|
    ensures m.Some? ==> j < m.value.end <= |code| && m.value.url != []
  {
    var e := SpanNot(code, j, {'"', '\\'});
    if e == j || e == |code| then None
    else if code[e] == '"' then Some(Match(code[j..e], e + 1))
    else if e + 1 < |code| && code[e + 1] == '"' then Some(Match(code[j..e], e + 2))
    else None
  }

  function MatchObjectProperty(code: string, i: nat): (m: Option<Match>)
    requires i <= |code|
    ensures m.Some? ==> i < m.value.end <= |code| && m.value.url != []
  {
    if !(i + 5 <= |code| && code[i..i + 5] == "href:") then None
    else
      var q := SpanWhitespace(code, i + 5);
      if !(q < |code| && IsQuote(code[q])) then None
      else
        var e := SpanNot(code, q + 1, {'"', '\''});
        if e == q + 1 || e == |code| then None
        else Some(Match(code[q + 1..e], e + 1))
  }

  function MatchAttribute(code: string, i: nat): (m: Option<Match>)
    requires i <= |code|
    ensures m.Some? ==> i < m.value.end <= |code| && m.value.url != []
  {
    if !(i + 6 <= |code| && code[i..i + 6] == "href=\"") then None
    else
      var e := SpanNot(code, i + 6, {'"'});
      if e == i + 6 || e == |code| then None
      else Some(Match(code[i + 6..e], e + 1))
  }

  // -------------------------------------------------------------------
  // The matched text, as each regular expression describes it

  /** The text of `code` at index `i` reads `lit`. */
  predicate ReadsAt(code: string, i: nat, lit: string) {
    i + |lit| <= |code| && code[i..i + |lit|] == lit
  }

  function OptionalBackslash(present: bool): (r: string)
    ensures |r| == if present then 1 else 0
  {
    if present then "\\" else ""
  }

  /** `href[=:]\\?"([^"\\]+)\\?"` matches from `i` to `end` with capture `url`:
      an opening `href`, a separator, an optional backslash and a quote, then
      the capture, an optional backslash and a quote. */
  predicate EscapedQuoteMatch(code: string, i: nat, b1: bool, url: string, b2: bool, end: nat) {
    EscapedOpening(code, i, b1) && EscapedClosing(code, i + 6 + |OptionalBackslash(b1)|, url, b2, end)
  }

  predicate EscapedOpening(code: string, i: nat, b1: bool) {
    && ReadsAt(code, i, "href")
    && i + 4 < |code| && code[i + 4] in {'=', ':'}
    && ReadsAt(code, i + 5, OptionalBackslash(b1))
    && ReadsAt(code, i + 5 + |OptionalBackslash(b1)|, "\"")
  }

  predicate EscapedClosing(code: string, j: nat, url: string, b2: bool, end: nat) {
    && url != [] && (forall k :: 0 <= k < |url| ==> url[k] != '"' && url[k] != '\\')
    && ReadsAt(code, j, url)
    && ReadsAt(code, j + |url|, OptionalBackslash(b2))
    && ReadsAt(code, j + |url| + |OptionalBackslash(b2)|, "\"")
    && end == j + |url| + |OptionalBackslash(b2)| + 1
  }

  /** `href:\s*["']([^"']+)["']` matches from `i` to `end` with capture `url`:
      `href:`, `w` whitespace characters, a quote of either kind, the capture
      and a quote of either kind. */
  predicate ObjectPropertyMatch(code: string, i: nat, w: nat, url: string, end: nat) {
    && ReadsAt(code, i, "href:")
    && i + 5 + w < |code|
    && (forall m :: i + 5 <= m < i + 5 + w ==> IsWhitespace(code[m]))
    && IsQuote(code[i + 5 + w])
    && url != [] && (forall k :: 0 <= k < |url| ==> !IsQuote(url[k]))
    && ReadsAt(code, i + 6 + w, url)
    && i + 6 + w + |url| < |code| && IsQuote(code[i + 6 + w + |url|])
    && end == i + 7 + w + |url|
  }

  /** `href="([^"]+)"` matches from `i` to `end` with capture `url`. */
  predicate AttributeMatch(code: string, i: nat, url: string, end: nat) {
    && ReadsAt(code, i, "href=\"")
    && url != [] && (forall k :: 0 <= k < |url| ==> url[k] != '"')
    && ReadsAt(code, i + 6, url)
    && ReadsAt(code, i + 6 + |url|, "\"")
    && end == i + 7 + |url|
  }

  /** The attribute scanner reports a match exactly where the text has the
      pattern's shape, and reports that text's capture. */
  lemma AttributeMatchIff(code: string, i: nat, url: string, end: nat)
    requires i <= |code|
    ensures MatchAttribute(code, i) == Some(Match(url, end)) <==> AttributeMatch(code, i, url, end)
  {
    if AttributeMatch(code, i, url, end) {
      var n := |url|;
      forall m | i + 6 <= m < i + 6 + n ensures code[m] != '"' {
        assert code[m] == code[i + 6..i + 6 + n][m - i - 6];
      }
      assert code[i + 6 + n] == code[i + 6 + n..i + 7 + n][0];
      assert SpanNot(code, i + 6, {'"'}) == i + 6 + n;
    }
  }

  /** The object-property scanner reports a match exactly where the text has
      the pattern's shape. */
  lemma ObjectPropertyMatchIff(code: string, i: nat, url: string, end: nat)
    requires i <= |code|
    ensures MatchObjectProperty(code, i) == Some(Match(url, end))
        <==> exists w :: ObjectPropertyMatch(code, i, w, url, end)
  {
    if MatchObjectProperty(code, i) == Some(Match(url, end)) {
      var q := SpanWhitespace(code, i + 5);
      assert ObjectPropertyMatch(code, i, q - i - 5, url, end);
    }
    if w :| ObjectPropertyMatch(code, i, w, url, end) {
      ObjectPropertyComplete(code, i, w, url, end);
    }
  }

  lemma ObjectPropertyComplete(code: string, i: nat, w: nat, url: string, end: nat)
    requires ObjectPropertyMatch(code, i, w, url, end)
    ensures MatchObjectProperty(code, i) == Some(Match(url, end))
  {
    var n := |url|;
    var q := i + 5 + w;
    assert SpanWhitespace(code, i + 5) == q;
    forall m | q + 1 <= m < q + 1 + n ensures !IsQuote(code[m]) {
      assert code[m] == code[q + 1..q + 1 + n][m - q - 1];
    }
    assert SpanNot(code, q + 1, {'"', '\''}) == q + 1 + n;
  }

  /** The escaped-quote scanner reports a match exactly where the text has
      the pattern's shape. */
  lemma EscapedQuoteMatchIff(code: string, i: nat, url: string, end: nat)
    requires i <= |code|
    ensures MatchEscapedQuote(code, i) == Some(Match(url, end))
        <==> exists b1, b2 :: EscapedQuoteMatch(code, i, b1, url, b2, end)
  {
    if MatchEscapedQuote(code, i) == Some(Match(url, end)) {
      var j := EscapedCaptureStart(code, i).value;
      EscapedOpeningIff(code, i, j);
      var b1 :| EscapedOpening(code, i, b1) && j == i + 6 + |OptionalBackslash(b1)|;
      EscapedClosingIff(code, j, url, end);
      var b2 :| EscapedClosing(code, j, url, b2, end);
      assert EscapedQuoteMatch(code, i, b1, url, b2, end);
    }
    if b1, b2 :| EscapedQuoteMatch(code, i, b1, url, b2, end) {
      var j := i + 6 + |OptionalBackslash(b1)|;
      EscapedOpeningIff(code, i, j);
      EscapedClosingIff(code, j, url, end);
    }
  }

  /** One character reads as a one-character literal. */
  lemma ReadsChar(code: string, j: nat, c: char)
    requires j < |code| && code[j] == c
    ensures ReadsAt(code, j, [c])
  {
  }

  /** The opening test succeeds, pointing just past the quote, exactly when
      the text has an opening there. */
  lemma EscapedOpeningIff(code: string, i: nat, j: nat)
    requires i <= |code|
    ensures EscapedCaptureStart(code, i) == Some(j)
        <==> exists b1 :: EscapedOpening(code, i, b1) && j == i + 6 + |OptionalBackslash(b1)|
  {
    if EscapedCaptureStart(code, i) == Some(j) {
      var b1 := i + 5 < |code| && code[i + 5] == '\\';
      if b1 {
        ReadsChar(code, i + 5, '\\');
      }
      ReadsChar(code, j - 1, '"');
      assert EscapedOpening(code, i, b1);
    }
    if b1 :| EscapedOpening(code, i, b1) && j == i + 6 + |OptionalBackslash(b1)| {
      assert code[j - 1] == code[j - 1..j][0];
      if b1 {
        assert code[i + 5] == code[i + 5..i + 6][0];
      } else {
        assert code[i + 5] == code[j - 1];
      }
    }
  }

  /** The closing test succeeds exactly when the text from `j` has a closing
      with that capture and end. */
  lemma EscapedClosingIff(code: string, j: nat, url: string, end: nat)
    requires j <= |code|
    ensures EscapedCaptureFrom(code, j) == Some(Match(url, end))
        <==> exists b2 :: EscapedClosing(code, j, url, b2, end)
  {
    if EscapedCaptureFrom(code, j) == Some(Match(url, end)) {
      EscapedClosingSound(code, j);
    }
    if b2 :| EscapedClosing(code, j, url, b2, end) {
      EscapedClosingComplete(code, j, url, b2, end);
    }
  }

  /** A slice whose characters avoid `c1` and `c2`, seen from the slice. */
  lemma SliceAvoids(code: string, a: nat, b: nat, c1: char, c2: char)
    requires a <= b <= |code|
    requires forall m :: a <= m < b ==> code[m] != c1 && code[m] != c2
    ensures forall k :: 0 <= k < b - a ==> code[a..b][k] != c1 && code[a..b][k] != c2
  {
  }

  lemma EscapedClosingSound(code: string, j: nat)
    requires j <= |code| && EscapedCaptureFrom(code, j).Some?
    ensures var m := EscapedCaptureFrom(code, j).value;
            EscapedClosing(code, j, m.url, code[j + |m.url|] != '"', m.end)
  {
    var m := EscapedCaptureFrom(code, j).value;
    var e := SpanNot(code, j, {'"', '\\'});
    assert m.url == code[j..e];
    var b2 := code[e] != '"';
    if b2 {
      ReadsChar(code, e, '\\');
    }
    ReadsChar(code, m.end - 1, '"');
    SliceAvoids(code, j, e, '"', '\\');
  }

  lemma EscapedClosingComplete(code: string, j: nat, url: string, b2: bool, end: nat)
    requires j <= |code| && EscapedClosing(code, j, url, b2, end)
    ensures EscapedCaptureFrom(code, j) == Some(Match(url, end))
  {
    var e := j + |url|;
    forall m | j <= m < e ensures code[m] != '"' && code[m] != '\\' {
      assert code[m] == code[j..e][m - j];
    }
    assert code[e] == code[e..e + 1][0];
    assert code[end - 1] == code[end - 1..end][0];
    SpanNotStops(code, j, e, {'"', '\\'});
  }

  /** Where a run of characters outside `stops` ends at a stop character,
      `SpanNot` finds that end. */
  lemma {:induction false} SpanNotStops(code: string, j: nat, e: nat, stops: set<char>)
    requires j <= e < |code| && code[e] in stops
    requires forall m :: j <= m < e ==> code[m] !in stops
    ensures SpanNot(code, j, stops) == e
    decreases e - j
  {
    if j < e {
      SpanNotStops(code, j + 1, e, stops);
    }
  }

  // -------------------------------------------------------------------
  // The `exec` loop

  /** The captures of all matches found by scanning from index `i`. */
  function ScanFrom(p: HrefPattern, code: string, i: nat): seq<string>
    requires i <= |code|
    decreases |code| - i
  {
    match MatchAt(p, code, i)
    case Some(m) => [m.url] + ScanFrom(p, code, m.end)
    case None => if i == |code| then [] else ScanFrom(p, code, i + 1)
  }

  /** Every URL the scan reports is the capture of a match of the pattern at
      some index at or after the starting point. */
  lemma {:induction false} ScanSound(p: HrefPattern, code: string, i: nat, u: string)
    requires i <= |code| && u in ScanFrom(p, code, i)
    ensures exists j, e :: i <= j <= |code| && MatchAt(p, code, j) == Some(Match(u, e))
    decreases |code| - i
  {
    match MatchAt(p, code, i)
    case Some(m) =>
      if u != m.url {
        ScanSound(p, code, m.end, u);
      }
    case None =>
      ScanSound(p, code, i + 1, u);
  }

  /** The first URL reported is the capture at the leftmost matching index. */
  lemma {:induction false} ScanLeftmost(p: HrefPattern, code: string, i: nat)
    requires i <= |code| && ScanFrom(p, code, i) != []
    ensures exists j :: i <= j <= |code| && MatchAt(p, code, j).Some?
              && ScanFrom(p, code, i)[0] == MatchAt(p, code, j).value.url
              && forall k :: i <= k < j ==> MatchAt(p, code, k).None?
    decreases |code| - i
  {
    if MatchAt(p, code, i).None? {
      ScanLeftmost(p, code, i + 1);
      var j :| i + 1 <= j <= |code| && MatchAt(p, code, j).Some?
               && ScanFrom(p, code, i + 1)[0] == MatchAt(p, code, j).value.url
               && forall k :: i + 1 <= k < j ==> MatchAt(p, code, k).None?;
      assert forall k :: i <= k < j ==> MatchAt(p, code, k).None?;
    }
  }

  /** All `href` captures in the order `extractUrlsFromCode` meets them: the
      three patterns one after the other, each from the start of the code. */
  function Hrefs(code: string): seq<string> {
    ScanFrom(EscapedQuote, code, 0) + ScanFrom(ObjectProperty, code, 0) + ScanFrom(Attribute, code, 0)
  }
}
