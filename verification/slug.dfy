/** `slugify` (app/lib/toc-utils.ts): the anchor id of a heading. The string
    goes through six steps in order: lower-case, trim, each whitespace run
    to one hyphen, each `&` to `-and-`, every character outside `[A-Za-z0-9_-]`
    removed, each run of hyphens to one hyphen. */
module Slug {
  import opened JsText
  import opened Seqs

  predicate NoUpper(s: string) {
    forall i :: 0 <= i < |s| ==> !IsUpper(s[i])
  }

  predicate IsHyphen(c: char) {
    c == '-'
  }

  predicate NotHyphen(c: char) {
    c != '-'
  }

  /** Neither whitespace nor a hyphen: the characters the run replacements
      never touch. */
  predicate IsPlain(c: char) {
    !IsWhitespace(c) && c != '-'
  }

  /** The regular-expression class `\w`: ASCII letters, digits and `_`. */
  predicate IsWordChar(c: char) {
    ('a' <= c <= 'z') || ('A' <= c <= 'Z') || ('0' <= c <= '9') || c == '_'
  }

  /** What the class `[\w\-]` accepts. */
  predicate IsWordOrHyphen(c: char) {
    IsWordChar(c) || IsHyphen(c)
  }

  /** The characters a slug is made of: `[a-z0-9_-]`. */
  predicate IsSlugChar(c: char) {
    ('a' <= c <= 'z') || ('0' <= c <= '9') || c == '_' || c == '-'
  }

  predicate IsAlphanumeric(c: char) {
    ('a' <= c <= 'z') || ('0' <= c <= '9')
  }

  predicate NoDoubleHyphen(s: string) {
    forall i :: 0 <= i < |s| - 1 ==> !(IsHyphen(s[i]) && IsHyphen(s[i + 1]))
  }

  /** Splitting off the first character of `x + m + z`. */
  lemma ConsRegroup(x: string, m: string, z: string)
    requires x != []
    ensures (x + m + z)[0] == x[0] && (x + m + z)[1..] == x[1..] + m + z
    ensures [x[0]] + (x[1..] + m + z) == x + m + z
  {
  }

  // ---------------------------------------------------------------------
  // `.replace(/\s+/g, "-")`

  function WhitespaceToHyphen(s: string): string {
    CollapseWhitespace(s, false, '-')
  }

  /** No whitespace is left, and the only character added is the hyphen. */
  lemma {:induction false} SpaceRunsShape(s: string, inRun: bool)
    ensures forall i :: 0 <= i < |CollapseWhitespace(s, inRun, '-')| ==> !IsWhitespace(CollapseWhitespace(s, inRun, '-')[i])
    ensures forall c :: c in CollapseWhitespace(s, inRun, '-') ==> c in s || c == '-'
  {
    if s != [] {
      SpaceRunsShape(s[1..], IsWhitespace(s[0]));
      assert forall c :: c in s[1..] ==> c in s;
    }
  }

  /** A string without whitespace is left as it is. */
  lemma {:induction false} SpaceRunsIdentity(s: string, inRun: bool)
    requires forall i :: 0 <= i < |s| ==> !IsWhitespace(s[i])
    ensures CollapseWhitespace(s, inRun, '-') == s
  {
    if s != [] {
      SpaceRunsIdentity(s[1..], false);
    }
  }

  /** Only whitespace turns into hyphens: every other character that is not
      a hyphen survives, in order. */
  lemma {:induction false} SpaceRunsKeepsOthers(s: string, inRun: bool)
    ensures Filter(CollapseWhitespace(s, inRun, '-'), IsPlain) == Filter(s, IsPlain)
  {
    if s != [] {
      var rest := CollapseWhitespace(s[1..], IsWhitespace(s[0]), '-');
      SpaceRunsKeepsOthers(s[1..], IsWhitespace(s[0]));
      if IsWhitespace(s[0]) {
        var head: string := if inRun then "" else "-";
        FilterAppend(head, rest, IsPlain);
        assert Filter(head, IsPlain) == [] by {
          if head != [] {
            assert Filter(head, IsPlain) == Filter(head[1..], IsPlain);
          }
        }
      }
    }
  }

  /** Whitespace right after a whitespace run adds nothing. */
  lemma {:induction false} SpaceRunsSkip(w: string, y: string)
    requires forall i :: 0 <= i < |w| ==> IsWhitespace(w[i])
    ensures CollapseWhitespace(w + y, true, '-') == CollapseWhitespace(y, true, '-')
  {
    if w == [] {
      assert w + y == y;
    } else {
      assert (w + y)[0] == w[0] && (w + y)[1..] == w[1..] + y;
      SpaceRunsSkip(w[1..], y);
    }
  }

  /** A whitespace run between two pieces becomes one hyphen. */
  lemma {:induction false} WhitespaceRunJoin(x: string, w: string, y: string)
    requires forall i :: 0 <= i < |x| ==> !IsWhitespace(x[i])
    requires w != [] && forall i :: 0 <= i < |w| ==> IsWhitespace(w[i])
    requires y == [] || !IsWhitespace(y[0])
    ensures WhitespaceToHyphen(x + w + y) == x + "-" + WhitespaceToHyphen(y)
  {
    if x == [] {
      assert x + w + y == w + y && x + "-" == "-";
      assert (w + y)[0] == w[0] && (w + y)[1..] == w[1..] + y;
      SpaceRunsSkip(w[1..], y);
      if y != [] {
        assert CollapseWhitespace(y, true, '-') == CollapseWhitespace(y, false, '-');
      }
    } else {
      ConsRegroup(x, w, y);
      WhitespaceRunJoin(x[1..], w, y);
      ConsRegroup(x, "-", WhitespaceToHyphen(y));
    }
  }

  // ---------------------------------------------------------------------
  // `.replace(/&/g, "-and-")`

  function ReplaceAmpersand(s: string): (r: string)
    ensures |r| == |s| + 4 * Count(s, '&')
    ensures forall i :: 0 <= i < |r| ==> r[i] != '&'
    ensures forall c :: c in r ==> c in s || c == '-' || c == 'a' || c == 'n' || c == 'd'
  {
    if s == [] then []
    else (if s[0] == '&' then "-and-" else [s[0]]) + ReplaceAmpersand(s[1..])
  }

  /** A string without `&` is left as it is. */
  lemma {:induction false} ReplaceAmpersandIdentity(s: string)
    requires forall i :: 0 <= i < |s| ==> s[i] != '&'
    ensures ReplaceAmpersand(s) == s
  {
    if s != [] {
      ReplaceAmpersandIdentity(s[1..]);
    }
  }

  /** The replacement works piece by piece. */
  lemma {:induction false} ReplaceAmpersandAppend(x: string, y: string)
    ensures ReplaceAmpersand(x + y) == ReplaceAmpersand(x) + ReplaceAmpersand(y)
  {
    if x == [] {
      assert x + y == y;
    } else {
      assert (x + y)[1..] == x[1..] + y;
      ReplaceAmpersandAppend(x[1..], y);
    }
  }

  // ---------------------------------------------------------------------
  // `.replace(/[^\w\-]+/g, "")`

  /** Only word characters and hyphens stay, in order. */
  function KeepWordChars(s: string): (r: string)
    ensures forall i :: 0 <= i < |r| ==> IsWordOrHyphen(r[i])
    ensures forall c :: c in r <==> c in s && IsWordOrHyphen(c)
    ensures (forall i :: 0 <= i < |s| ==> IsWordOrHyphen(s[i])) ==> r == s
  {
    FilterMembers(s, IsWordOrHyphen);
    Filter(s, IsWordOrHyphen)
  }

  // ---------------------------------------------------------------------
  // `.replace(/\-\-+/g, "-")`

  /** Every run of two or more hyphens becomes one, so every maximal run of
      hyphens ends up a single hyphen; `afterHyphen` says a hyphen was just
      written before `s`. */
  function HyphenRuns(s: string, afterHyphen: bool): string {
    if s == [] then []
    else if IsHyphen(s[0]) then (if afterHyphen then "" else "-") + HyphenRuns(s[1..], true)
    else [s[0]] + HyphenRuns(s[1..], false)
  }

  function CollapseHyphens(s: string): string {
    HyphenRuns(s, false)
  }

  /** No `--` is left, what follows a written hyphen does not start with
      one, and no character is added. */
  lemma {:induction false} HyphenRunsShape(s: string, afterHyphen: bool)
    ensures NoDoubleHyphen(HyphenRuns(s, afterHyphen))
    ensures afterHyphen ==> HyphenRuns(s, afterHyphen) == [] || !IsHyphen(HyphenRuns(s, afterHyphen)[0])
    ensures forall c :: c in HyphenRuns(s, afterHyphen) ==> c in s
  {
    if s != [] {
      var rest := HyphenRuns(s[1..], IsHyphen(s[0]));
      HyphenRunsShape(s[1..], IsHyphen(s[0]));
      var head: string := if !IsHyphen(s[0]) then [s[0]] else if afterHyphen then "" else "-";
      assert HyphenRuns(s, afterHyphen) == head + rest;
      NoDoubleJoin(head, rest);
      assert forall c :: c in head + rest ==> c in head || c in rest;
      assert forall c :: c in s[1..] ==> c in s;
    }
  }

  /** Two pieces without `--` have none when joined, unless a hyphen ends
      the first and starts the second. */
  lemma NoDoubleJoin(a: string, b: string)
    requires |a| <= 1 && NoDoubleHyphen(b)
    requires a != [] && b != [] ==> !(IsHyphen(a[0]) && IsHyphen(b[0]))
    ensures NoDoubleHyphen(a + b)
  {
    if a != [] {
      forall i | 0 <= i < |a + b| - 1 ensures !(IsHyphen((a + b)[i]) && IsHyphen((a + b)[i + 1])) {
        if i > 0 {
          assert (a + b)[i] == b[i - 1] && (a + b)[i + 1] == b[i];
        }
      }
    }
  }

  /** A string without `--` is left as it is. */
  lemma {:induction false} HyphenRunsIdentity(s: string, afterHyphen: bool)
    requires NoDoubleHyphen(s)
    requires afterHyphen ==> s == [] || !IsHyphen(s[0])
    ensures HyphenRuns(s, afterHyphen) == s
  {
    if s != [] {
      assert NoDoubleHyphen(s[1..]) by {
        forall i | 0 <= i < |s[1..]| - 1 ensures !(IsHyphen(s[1..][i]) && IsHyphen(s[1..][i + 1])) {
          assert s[1..][i] == s[i + 1] && s[1..][i + 1] == s[i + 2];
        }
      }
      if IsHyphen(s[0]) && |s| > 1 {
        assert !IsHyphen(s[1]);
      }
      HyphenRunsIdentity(s[1..], IsHyphen(s[0]));
    }
  }

  /** Collapsing removes hyphens only: every other character survives, in
      order. */
  lemma {:induction false} HyphenRunsKeepsOthers(s: string, afterHyphen: bool)
    ensures Filter(HyphenRuns(s, afterHyphen), NotHyphen) == Filter(s, NotHyphen)
  {
    if s != [] {
      var rest := HyphenRuns(s[1..], IsHyphen(s[0]));
      HyphenRunsKeepsOthers(s[1..], IsHyphen(s[0]));
      if IsHyphen(s[0]) {
        var head: string := if afterHyphen then "" else "-";
        FilterAppend(head, rest, NotHyphen);
        assert Filter(head, NotHyphen) == [] by {
          if head != [] {
            assert Filter(head, NotHyphen) == Filter(head[1..], NotHyphen);
          }
        }
      }
    }
  }

  /** Hyphens right after a written hyphen add nothing. */
  lemma {:induction false} HyphenRunsSkip(h: string, y: string)
    requires forall i :: 0 <= i < |h| ==> IsHyphen(h[i])
    ensures HyphenRuns(h + y, true) == HyphenRuns(y, true)
  {
    if h == [] {
      assert h + y == y;
    } else {
      assert (h + y)[0] == h[0] && (h + y)[1..] == h[1..] + y;
      HyphenRunsSkip(h[1..], y);
    }
  }

  /** A run of hyphens between two pieces becomes one hyphen. */
  lemma {:induction false} HyphenRunJoin(x: string, h: string, y: string)
    requires forall i :: 0 <= i < |x| ==> !IsHyphen(x[i])
    requires h != [] && forall i :: 0 <= i < |h| ==> IsHyphen(h[i])
    requires y == [] || !IsHyphen(y[0])
    ensures CollapseHyphens(x + h + y) == x + "-" + CollapseHyphens(y)
  {
    if x == [] {
      assert x + h + y == h + y && x + "-" == "-";
      assert (h + y)[0] == h[0] && (h + y)[1..] == h[1..] + y;
      HyphenRunsSkip(h[1..], y);
      if y != [] {
        assert HyphenRuns(y, true) == HyphenRuns(y, false);
      }
    } else {
      ConsRegroup(x, h, y);
      HyphenRunJoin(x[1..], h, y);
      ConsRegroup(x, "-", CollapseHyphens(y));
    }
  }

  // ---------------------------------------------------------------------
  // `slugify`

  function Slugify(s: string): (slug: string)
    ensures forall i :: 0 <= i < |slug| ==> IsSlugChar(slug[i])
    ensures NoDoubleHyphen(slug)
  {
    var trimmed := Trim(Lower(s));
    var spaced := WhitespaceToHyphen(trimmed);
    var replaced := ReplaceAmpersand(spaced);
    var filtered := KeepWordChars(replaced);
    SlugifyChars(s);
    HyphenRunsShape(filtered, false);
    CollapseKeepsSlugChars(filtered);
    CollapseHyphens(filtered)
  }

  /** No step brings back an upper-case letter, so the filtered string is
      made of slug characters. */
  lemma SlugifyChars(s: string)
    ensures forall c :: c in KeepWordChars(ReplaceAmpersand(WhitespaceToHyphen(Trim(Lower(s))))) ==> IsSlugChar(c)
  {
    var lowered := Lower(s);
    LowerNoUpper(s);
    TrimMembers(lowered);
    StepsNoUpper(Trim(lowered));
  }

  lemma CollapseKeepsSlugChars(s: string)
    requires forall c :: c in s ==> IsSlugChar(c)
    ensures forall i :: 0 <= i < |CollapseHyphens(s)| ==> IsSlugChar(CollapseHyphens(s)[i])
  {
    var r := CollapseHyphens(s);
    HyphenRunsShape(s, false);
    forall i | 0 <= i < |r| ensures IsSlugChar(r[i]) {
      assert r[i] in r;
    }
  }

  lemma LowerNoUpper(s: string)
    ensures forall c :: c in Lower(s) ==> !IsUpper(c)
  {
  }

  lemma StepsNoUpper(s: string)
    requires forall c :: c in s ==> !IsUpper(c)
    ensures forall c :: c in KeepWordChars(ReplaceAmpersand(WhitespaceToHyphen(s))) ==> !IsUpper(c)
  {
    SpaceRunsShape(s, false);
  }

  /** `trim` only removes characters. */
  lemma TrimMembers(s: string)
    ensures forall c :: c in Trim(s) ==> c in s
  {
    var t := TrimStart(s);
    assert t == s[|s| - |t|..];
    assert Trim(s) == t[..|Trim(s)|];
  }

  /** Lower-casing happens before the filter, so a non-ASCII capital whose
      lower-case form holds an ASCII letter leaves that letter in the slug:
      U+0130 lower-cases to `i` and a combining dot, and the filter drops
      only the dot. */
  lemma DottedCapitalI()
    ensures Slugify("\U{0130}") == "i"
  {
    LowerCases();
    DottedISteps();
  }

  lemma DottedISteps()
    ensures var t := "i\U{0307}";
      CollapseHyphens(KeepWordChars(ReplaceAmpersand(WhitespaceToHyphen(Trim(t))))) == "i"
  {
    var t := "i\U{0307}";
    DottedITrimmed();
    DottedISpaced();
    DottedIReplaced();
    DottedIFiltered();
    DottedICollapsed();
    var trimmed := Trim(t);
    assert trimmed == t;
    var spaced := WhitespaceToHyphen(trimmed);
    assert spaced == t;
    var replaced := ReplaceAmpersand(spaced);
    assert replaced == t;
    var filtered := KeepWordChars(replaced);
    assert filtered == "i";
  }

  lemma DottedITrimmed()
    ensures Trim("i\U{0307}") == "i\U{0307}"
  {
    var t := "i\U{0307}";
    assert !IsWhitespace(t[0]) && !IsWhitespace(t[1]);
    TrimIdentity(t);
  }

  lemma DottedIReplaced()
    ensures ReplaceAmpersand("i\U{0307}") == "i\U{0307}"
  {
    var t := "i\U{0307}";
    assert t[1..] == "\U{0307}" && t[1..][1..] == [];
  }

  lemma DottedIFiltered()
    ensures KeepWordChars("i\U{0307}") == "i"
  {
    var t := "i\U{0307}";
    assert t[1..] == "\U{0307}" && t[1..][1..] == [];
    assert !IsWordOrHyphen('\U{0307}');
  }

  lemma DottedICollapsed()
    ensures CollapseHyphens("i") == "i"
  {
    assert "i"[1..] == [];
  }

  lemma DottedISpaced()
    ensures WhitespaceToHyphen("i\U{0307}") == "i\U{0307}"
  {
    var t := "i\U{0307}";
    assert t[1..] == "\U{0307}" && t[1..][1..] == [];
  }

  /** A slug is a fixed point of `slugify`: lower-casing, trimming and every
      replacement leave a string of `[a-z0-9_-]` without `--` unchanged. */
  lemma SlugFixedPoint(t: string)
    requires forall i :: 0 <= i < |t| ==> IsSlugChar(t[i])
    requires NoDoubleHyphen(t)
    ensures Slugify(t) == t
  {
    var trimmed := Trim(Lower(t));
    LowerTrimIdentity(t);
    var spaced := WhitespaceToHyphen(trimmed);
    NoWhitespaceIdentity(t);
    var replaced := ReplaceAmpersand(spaced);
    NoAmpersandIdentity(t);
    var filtered := KeepWordChars(replaced);
    SlugCharsAreWordChars(t);
    HyphenRunsIdentity(filtered, false);
  }

  lemma SlugCharsAreWordChars(t: string)
    requires forall i :: 0 <= i < |t| ==> IsSlugChar(t[i])
    ensures KeepWordChars(t) == t
  {
  }

  lemma LowerTrimIdentity(t: string)
    requires forall i :: 0 <= i < |t| ==> IsSlugChar(t[i])
    ensures Trim(Lower(t)) == t
  {
    if t != [] {
      SlugCharFacts(t[0]);
      SlugCharFacts(t[|t| - 1]);
    }
    TrimIdentity(t);
    forall i | 0 <= i < |t| ensures !IsUpper(t[i]) {
      SlugCharFacts(t[i]);
    }
    LowerIdentity(t);
  }

  lemma SlugCharFacts(c: char)
    requires IsSlugChar(c)
    ensures !IsWhitespace(c) && !IsUpper(c) && c != '&'
  {
  }

  lemma NoWhitespaceIdentity(t: string)
    requires forall i :: 0 <= i < |t| ==> IsSlugChar(t[i])
    ensures WhitespaceToHyphen(t) == t
  {
    forall i | 0 <= i < |t| ensures !IsWhitespace(t[i]) {
      SlugCharFacts(t[i]);
    }
    SpaceRunsIdentity(t, false);
  }

  lemma NoAmpersandIdentity(t: string)
    requires forall i :: 0 <= i < |t| ==> IsSlugChar(t[i])
    ensures ReplaceAmpersand(t) == t
  {
    forall i | 0 <= i < |t| ensures t[i] != '&' {
      SlugCharFacts(t[i]);
    }
    ReplaceAmpersandIdentity(t);
  }

  /** `slugify` is idempotent. */
  lemma SlugifyIdempotent(s: string)
    ensures Slugify(Slugify(s)) == Slugify(s)
  {
    SlugFixedPoint(Slugify(s));
  }

  /** The letters, digits and underscores of the lower-cased, trimmed text
      all survive, in order: the run replacements only touch whitespace and
      hyphens, and the filter keeps word characters. */
  lemma SlugKeepsWords(s: string)
    ensures Filter(Slugify(s), IsPlain) == Filter(KeepWordChars(ReplaceAmpersand(WhitespaceToHyphen(Trim(Lower(s))))), IsPlain)
  {
    var filtered := KeepWordChars(ReplaceAmpersand(WhitespaceToHyphen(Trim(Lower(s)))));
    HyphenRunsKeepsOthers(filtered, false);
    PlainAfterNotHyphen(CollapseHyphens(filtered));
    PlainAfterNotHyphen(filtered);
  }

  /** Keeping the plain characters after dropping the hyphens is keeping the
      plain characters. */
  lemma {:induction false} PlainAfterNotHyphen(s: string)
    ensures Filter(Filter(s, NotHyphen), IsPlain) == Filter(s, IsPlain)
  {
    if s != [] {
      var head := if NotHyphen(s[0]) then [s[0]] else [];
      PlainAfterNotHyphen(s[1..]);
      FilterAppend(head, Filter(s[1..], NotHyphen), IsPlain);
    }
  }

  // ---------------------------------------------------------------------
  // The order of the steps

  /** The replacements run before the filter: an `&` between two words
      keeps its surrounding spaces as hyphens, becomes `and` between them,
      and the hyphen runs this leaves collapse to single hyphens. */
  lemma AmpersandBetweenWords(a: string, b: string)
    requires a != [] && forall i :: 0 <= i < |a| ==> IsAlphanumeric(a[i])
    requires b != [] && forall i :: 0 <= i < |b| ==> IsAlphanumeric(b[i])
    ensures Slugify(a + " & " + b) == a + "-and-" + b
  {
    var s := a + " & " + b;
    assert Slugify(s) == CollapseHyphens(KeepWordChars(ReplaceAmpersand(WhitespaceToHyphen(Trim(Lower(s))))));
    WordsTrimmed(a, b);
    WordsSpaced(a, b);
    WordsReplaced(a, b);
    WordsFiltered(a, b);
    WordsCollapsed(a, b);
  }

  lemma WordsTrimmed(a: string, b: string)
    requires a != [] && forall i :: 0 <= i < |a| ==> IsAlphanumeric(a[i])
    requires b != [] && forall i :: 0 <= i < |b| ==> IsAlphanumeric(b[i])
    ensures Trim(Lower(a + " & " + b)) == a + " & " + b
  {
    WordsShape(a, b);
    TrimLowerIdentity(a + " & " + b);
  }

  /** The joined string has no upper-case letter and no whitespace at
      either end. */
  lemma WordsShape(a: string, b: string)
    requires a != [] && forall i :: 0 <= i < |a| ==> IsAlphanumeric(a[i])
    requires b != [] && forall i :: 0 <= i < |b| ==> IsAlphanumeric(b[i])
    ensures var s := a + " & " + b;
            NoUpper(s) && !IsWhitespace(s[0]) && !IsWhitespace(s[|s| - 1])
  {
  }

  lemma TrimLowerIdentity(s: string)
    requires NoUpper(s)
    requires s == [] || (!IsWhitespace(s[0]) && !IsWhitespace(s[|s| - 1]))
    ensures Trim(Lower(s)) == s
  {
    LowerIdentity(s);
    TrimIdentity(s);
  }

  /** Letters and digits are neither whitespace, hyphens nor ampersands. */
  lemma AlphanumericFacts(a: string)
    requires forall i :: 0 <= i < |a| ==> IsAlphanumeric(a[i])
    ensures forall i :: 0 <= i < |a| ==> !IsWhitespace(a[i]) && !IsHyphen(a[i]) && a[i] != '&'
  {
  }

  lemma WordsSpaced(a: string, b: string)
    requires forall i :: 0 <= i < |a| ==> IsAlphanumeric(a[i])
    requires b != [] && forall i :: 0 <= i < |b| ==> IsAlphanumeric(b[i])
    ensures WhitespaceToHyphen(a + " & " + b) == a + "-&-" + b
  {
    AlphanumericFacts(a);
    AlphanumericFacts(b);
    SpaceRunsIdentity(b, false);
    SpacedShape(a, b);
    WhitespaceRunJoin("&", " ", b);
    WhitespaceRunJoin(a, " ", "&" + " " + b);
  }

  lemma SpacedShape(a: string, b: string)
    ensures a + " & " + b == a + " " + ("&" + " " + b)
    ensures a + "-" + ("&" + "-" + b) == a + "-&-" + b
    ensures ("&" + " " + b)[0] == '&'
    ensures !IsWhitespace('&') && IsWhitespace(' ')
  {
  }

  lemma WordsReplaced(a: string, b: string)
    requires forall i :: 0 <= i < |a| ==> IsAlphanumeric(a[i])
    requires forall i :: 0 <= i < |b| ==> IsAlphanumeric(b[i])
    ensures ReplaceAmpersand(a + "-&-" + b) == a + "--and--" + b
  {
    AlphanumericFacts(a);
    AlphanumericFacts(b);
    ReplaceAmpersandIdentity(a);
    ReplaceAmpersandIdentity(b);
    ReplacedShape(a, b);
    ReplaceAmpersandAppend(a + "-", "&" + ("-" + b));
    ReplaceAmpersandAppend(a, "-");
    ReplaceAmpersandAppend("&", "-" + b);
    ReplaceAmpersandAppend("-", b);
  }

  lemma ReplacedShape(a: string, b: string)
    ensures a + "-&-" + b == (a + "-") + ("&" + ("-" + b))
    ensures ReplaceAmpersand("-") == "-" && ReplaceAmpersand("&") == "-and-"
    ensures a + "-" + ("-and-" + ("-" + b)) == a + "--and--" + b
  {
    assert ReplaceAmpersand("-") == "-" + ReplaceAmpersand("");
    assert ReplaceAmpersand("&") == "-and-" + ReplaceAmpersand("");
  }

  lemma WordsFiltered(a: string, b: string)
    requires forall i :: 0 <= i < |a| ==> IsAlphanumeric(a[i])
    requires forall i :: 0 <= i < |b| ==> IsAlphanumeric(b[i])
    ensures KeepWordChars(a + "--and--" + b) == a + "--and--" + b
  {
    var s := a + "--and--" + b;
    forall i | 0 <= i < |s| ensures IsWordOrHyphen(s[i]) {
      if i < |a| {
        assert s[i] == a[i];
      } else if i < |a| + 7 {
        assert s[i] == "--and--"[i - |a|];
      } else {
        assert s[i] == b[i - |a| - 7];
      }
    }
  }

  lemma WordsCollapsed(a: string, b: string)
    requires forall i :: 0 <= i < |a| ==> IsAlphanumeric(a[i])
    requires b != [] && forall i :: 0 <= i < |b| ==> IsAlphanumeric(b[i])
    ensures CollapseHyphens(a + "--and--" + b) == a + "-and-" + b
  {
    AlphanumericFacts(a);
    AlphanumericFacts(b);
    HyphenRunsIdentity(b, false);
    CollapsedShape(a, b);
    HyphenRunJoin("and", "--", b);
    HyphenRunJoin(a, "--", "and" + "--" + b);
  }

  lemma CollapsedShape(a: string, b: string)
    ensures a + "--and--" + b == a + "--" + ("and" + "--" + b)
    ensures a + "-" + ("and" + "-" + b) == a + "-and-" + b
    ensures ("and" + "--" + b)[0] == 'a'
    ensures forall i :: 0 <= i < |"and"| ==> !IsHyphen("and"[i])
    ensures forall i :: 0 <= i < |"--"| ==> IsHyphen("--"[i])
  {
  }
}
