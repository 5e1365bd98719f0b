/** `estimateWordCount` (app/lib/stats/build-time-stats.ts): markup and
    code are cut out of a post's compiled MDX, then the whitespace-separated
    tokens that remain are counted. Each global `replace` with a delimited
    pattern is modelled as the leftmost scanner the regular expression
    amounts to. */
module WordCount {
  import opened Options
  import opened JsText
  import opened Seqs

  /** `pat` occurs in `s` starting at index `j`. */
  predicate OccursAt(s: string, pat: string, j: nat) {
    j + |pat| <= |s| && s[j..j + |pat|] == pat
  }

  /** The first index at or after `from` where `pat` occurs in `s`. */
  function FindFrom(s: string, pat: string, from: nat): (r: Option<nat>)
    requires pat != []
    ensures r.Some? ==> from <= r.value && OccursAt(s, pat, r.value)
    ensures r.Some? ==> forall j: nat :: from <= j < r.value ==> !OccursAt(s, pat, j)
    ensures r.None? ==> forall j: nat :: from <= j ==> !OccursAt(s, pat, j)
    decreases |s| - from
  {
    if from + |pat| > |s| then None
    else if s[from..from + |pat|] == pat then Some(from)
    else FindFrom(s, pat, from + 1)
  }

  /** `s.replace(re, " ")` for a global pattern made of `open`, anything up
      to the first `close` after it, and that `close`. This is what
      `/<[^>]*>/g`, `/\{[^}]*\}/g` and `/`[^`]*`/g` (one-character
      delimiters the middle cannot contain) and the lazy `/```[\s\S]*?```/g`
      match. An `open` with no `close` after it is kept, and the search goes
      on at the next character. */
  function StripDelimited(s: string, open: string, close: string): (r: string)
    requires open != [] && close != []
    ensures |r| <= |s|
    ensures forall x :: x in r ==> x in s || x == ' '
    decreases |s|
  {
    if s == [] then []
    else if OccursAt(s, open, 0) && FindFrom(s, close, |open|).Some? then
      var j := FindFrom(s, close, |open|).value;
      var rest := StripDelimited(s[j + |close|..], open, close);
      assert forall x :: x in s[j + |close|..] ==> x in s;
      " " + rest
    else
      var rest := StripDelimited(s[1..], open, close);
      assert forall x :: x in s[1..] ==> x in s;
      [s[0]] + rest
  }

  /** A string in which `open` cannot start is left as it is. */
  lemma {:induction false} StripDelimitedIdentity(s: string, open: string, close: string)
    requires open != [] && close != []
    requires forall i :: 0 <= i < |s| ==> s[i] != open[0]
    ensures StripDelimited(s, open, close) == s
    decreases |s|
  {
    if s != [] {
      assert !OccursAt(s, open, 0) by {
        if |open| <= |s| {
          assert s[..|open|][0] == s[0];
        }
      }
      StripDelimitedIdentity(s[1..], open, close);
    }
  }

  /** With one-character delimiters other than the space, no delimited
      piece is left: no `open` in the result has a `close` after it. */
  lemma {:induction false} NoDelimitedPieceLeft(s: string, open: char, close: char)
    requires open != ' ' && close != ' '
    ensures NoPiece(StripDelimited(s, [open], [close]), open, close)
    decreases |s|
  {
    if s != [] {
      if OccursAt(s, [open], 0) && FindFrom(s, [close], 1).Some? {
        var j := FindFrom(s, [close], 1).value;
        NoDelimitedPieceLeft(s[j + 1..], open, close);
        NoPieceAfter(' ', StripDelimited(s[j + 1..], [open], [close]), open, close);
      } else {
        var rest := StripDelimited(s[1..], [open], [close]);
        NoDelimitedPieceLeft(s[1..], open, close);
        if s[0] == open {
          UnmatchedOpen(s, open, close);
        }
        NoPieceAfter(s[0], rest, open, close);
      }
    }
  }

  /** An `open` with no `close` after it leaves no `close` in the rest of
      the result. */
  lemma UnmatchedOpen(s: string, open: char, close: char)
    requires s != [] && s[0] == open && close != ' '
    requires FindFrom(s, [close], 1).None?
    ensures close !in StripDelimited(s[1..], [open], [close])
  {
    forall k | 0 <= k < |s[1..]| ensures s[1..][k] != close {
      assert !OccursAt(s, [close], k + 1);
      assert s[k + 1..k + 2] == [s[k + 1]];
    }
  }

  /** No `open` in `r` has a `close` after it. */
  predicate NoPiece(r: string, open: char, close: char) {
    forall i, j :: 0 <= i < j < |r| && r[i] == open ==> r[j] != close
  }

  /** Putting a character in front keeps the property, unless it is an
      `open` followed by a `close`. */
  lemma NoPieceAfter(c: char, rest: string, open: char, close: char)
    requires NoPiece(rest, open, close)
    requires c == open ==> close !in rest
    ensures NoPiece([c] + rest, open, close)
  {
    var r := [c] + rest;
    forall i, j | 0 <= i < j < |r| && r[i] == open ensures r[j] != close {
      assert r[j] == rest[j - 1];
      if i > 0 {
        assert r[i] == rest[i - 1];
      }
    }
  }

  /** The four stripping passes, in the source's order: tags, braces,
      fenced code, inline code. */
  function Strip(code: string): string {
    var noTags := StripDelimited(code, "<", ">");
    var noBraces := StripDelimited(noTags, "{", "}");
    var noFences := StripDelimited(noBraces, "```", "```");
    StripDelimited(noFences, "`", "`")
  }

  /** Text with none of the four opening characters passes through the
      stripping unchanged. */
  lemma StripIdentity(code: string)
    requires forall i :: 0 <= i < |code| ==> code[i] !in "<{`"
    ensures Strip(code) == code
  {
    StripDelimitedIdentity(code, "<", ">");
    StripDelimitedIdentity(code, "{", "}");
    StripDelimitedIdentity(code, "```", "```");
    StripDelimitedIdentity(code, "`", "`");
  }

  // ---------------------------------------------------------------------
  // Splitting and counting

  /** `s.split(/\s+/)`: the pieces between maximal runs of whitespace; a
      leading or trailing run gives an empty piece at that end. */
  function Split(s: string): (r: seq<string>)
    ensures |r| >= 1
    decreases |s|
  {
    if s == [] then [[]]
    else if IsWhitespace(s[0]) then [[]] + Split(TrimStart(s[1..]))
    else
      var rest := Split(s[1..]);
      [[s[0]] + rest[0]] + rest[1..]
  }

  predicate NonEmpty(w: string) {
    w != []
  }

  /** The word count of the source: collapse whitespace runs, trim, split
      on whitespace and count the non-empty pieces. */
  function EstimateWordCount(code: string): nat {
    var stripped := Trim(CollapseWhitespace(Strip(code), false, ' '));
    |Filter(Split(stripped), NonEmpty)|
  }

  /** The reference count: the number of maximal runs of non-whitespace
      characters, that is, of non-whitespace characters at the start or
      right after whitespace. `afterSpace` says `s` is preceded by
      whitespace or by nothing. */
  function Runs(s: string, afterSpace: bool): nat {
    if s == [] then 0
    else (if afterSpace && !IsWhitespace(s[0]) then 1 else 0) + Runs(s[1..], IsWhitespace(s[0]))
  }

  /** Every piece of a split is free of whitespace. */
  lemma {:induction false} SplitPieces(s: string)
    ensures forall k, i :: 0 <= k < |Split(s)| && 0 <= i < |Split(s)[k]| ==> !IsWhitespace(Split(s)[k][i])
    decreases |s|
  {
    if s != [] {
      if IsWhitespace(s[0]) {
        SplitPieces(TrimStart(s[1..]));
      } else {
        SplitPieces(s[1..]);
        var rest := Split(s[1..]);
        var r := Split(s);
        forall k, i | 0 <= k < |r| && 0 <= i < |r[k]| ensures !IsWhitespace(r[k][i]) {
          if k == 0 {
            assert r[0] == [s[0]] + rest[0];
            if i > 0 {
              assert r[0][i] == rest[0][i - 1];
            }
          } else {
            assert r[k] == rest[k];
          }
        }
      }
    }
  }

  /** Splitting finds exactly the runs: the non-empty pieces are as many as
      the maximal non-whitespace runs, and so are those after the first
      piece when `s` continues a word. */
  lemma {:induction false} SplitCountsRuns(s: string)
    ensures |Filter(Split(s), NonEmpty)| == Runs(s, true)
    ensures |Filter(Split(s)[1..], NonEmpty)| == Runs(s, false)
    decreases |s|
  {
    if s != [] {
      if IsWhitespace(s[0]) {
        var t := TrimStart(s[1..]);
        SplitCountsRuns(t);
        LeadingSpaceAddsNoRun(s[1..]);
        assert Split(s)[1..] == Split(t);
      } else {
        SplitCountsRuns(s[1..]);
        var rest := Split(s[1..]);
        assert Split(s)[1..] == rest[1..];
      }
    }
  }

  /** Leading whitespace starts no word. */
  lemma {:induction false} LeadingSpaceAddsNoRun(s: string)
    ensures Runs(TrimStart(s), true) == Runs(s, true)
  {
    if s != [] && IsWhitespace(s[0]) {
      LeadingSpaceAddsNoRun(s[1..]);
    }
  }

  /** Trailing whitespace starts no word. */
  lemma {:induction false} TrailingSpaceAddsNoRun(x: string, w: char, afterSpace: bool)
    requires IsWhitespace(w)
    ensures Runs(x + [w], afterSpace) == Runs(x, afterSpace)
  {
    if x == [] {
      assert x + [w] == [w];
    } else {
      assert (x + [w])[1..] == x[1..] + [w];
      TrailingSpaceAddsNoRun(x[1..], w, IsWhitespace(x[0]));
    }
  }

  lemma {:induction false} TrimEndKeepsRuns(s: string, afterSpace: bool)
    ensures Runs(TrimEnd(s), afterSpace) == Runs(s, afterSpace)
  {
    if s != [] && IsWhitespace(s[|s| - 1]) {
      var x := s[..|s| - 1];
      TrimEndKeepsRuns(x, afterSpace);
      assert s == x + [s[|s| - 1]];
      TrailingSpaceAddsNoRun(x, s[|s| - 1], afterSpace);
    }
  }

  /** Collapsing whitespace runs into single spaces keeps the runs of
      other characters. */
  lemma {:induction false} CollapseKeepsRuns(s: string, inRun: bool, afterSpace: bool)
    requires inRun ==> afterSpace
    ensures Runs(CollapseWhitespace(s, inRun, ' '), afterSpace) == Runs(s, afterSpace)
  {
    if s != [] {
      CollapseKeepsRuns(s[1..], IsWhitespace(s[0]), IsWhitespace(s[0]));
      var rest := CollapseWhitespace(s[1..], IsWhitespace(s[0]), ' ');
      if IsWhitespace(s[0]) && !inRun {
        assert CollapseWhitespace(s, inRun, ' ') == [' '] + rest;
        assert ([' '] + rest)[0] == ' ' && ([' '] + rest)[1..] == rest;
        assert IsWhitespace(' ');
      } else if !IsWhitespace(s[0]) {
        assert CollapseWhitespace(s, inRun, ' ') == [s[0]] + rest;
        assert ([s[0]] + rest)[0] == s[0] && ([s[0]] + rest)[1..] == rest;
      } else {
        assert CollapseWhitespace(s, inRun, ' ') == [] + rest == rest;
      }
    }
  }

  /** The estimate is the number of maximal non-whitespace runs in the
      stripped text: the collapsing, trimming and splitting steps neither
      add nor lose a word. */
  lemma EstimateCountsRuns(code: string)
    ensures EstimateWordCount(code) == Runs(Strip(code), true)
  {
    var s := Strip(code);
    var c := CollapseWhitespace(s, false, ' ');
    SplitCountsRuns(Trim(c));
    TrimEndKeepsRuns(TrimStart(c), true);
    LeadingSpaceAddsNoRun(c);
    CollapseKeepsRuns(s, false, true);
  }

  /** No run at all exactly when only whitespace is left. */
  lemma {:induction false} NoRunsIff(s: string)
    ensures Runs(s, true) == 0 <==> AllWhitespace(s)
  {
    if s != [] {
      NoRunsIff(s[1..]);
      if IsWhitespace(s[0]) {
        assert AllWhitespace(s) <==> AllWhitespace(s[1..]) by {
          assert forall i :: 0 < i < |s| ==> s[i] == s[1..][i - 1];
        }
      }
    }
  }

  /** The estimate is 0 exactly when the stripped text is blank. */
  lemma EstimateZeroIff(code: string)
    ensures EstimateWordCount(code) == 0 <==> AllWhitespace(Strip(code))
  {
    EstimateCountsRuns(code);
    NoRunsIff(Strip(code));
  }

  /** Empty and whitespace-only input counts no words. */
  lemma BlankHasNoWords(code: string)
    requires AllWhitespace(code)
    ensures EstimateWordCount(code) == 0
  {
    forall i | 0 <= i < |code| ensures code[i] !in "<{`" {
      assert IsWhitespace(code[i]);
    }
    StripIdentity(code);
    EstimateZeroIff(code);
  }
}
