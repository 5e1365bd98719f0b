# A Dafny model of a personal site's layout, link-preview and statistics logic

This project models the computational core of a Next.js portfolio and blog in
Dafny 4.11 and proves properties about it. The core has five parts.

- **The community wall's "bloom" layout** (`Canvas`, `StringHash`). A 32-bit
  seeded string hash gives each card a pseudo-random angle and radius. Padded
  boxes are checked for overlap, and up to 100 attempts are made before a
  fallback one layer further out. The last message sits at the centre, and
  every other card is placed against the cards placed before it.
- **The link-preview build scripts** (`HrefScan`, `PreviewUrls`,
  `PreviewManifest`, `PreviewGenerator`, `PreviewFixer`).
  - Three `href` regular expressions are run over compiled MDX, and the
    previewable external URLs are kept.
  - URLs get 12-character hexadecimal keys.
  - The generator has an incremental rule: new URLs are captured, failed ones
    are skipped, and stale ones (older than six 30-day months) are recaptured.
    Captures run in batches of three.
  - The fixer's pass captures missing entries, and with `--all` the failed
    ones too.
  - The manifest that both scripts write is modelled.
- **The table of contents** (`Slug`, `TocHeadings`, `TocPath`,
  `ActiveSection`): `slugify`, the multi-line heading regular expression and
  its `exec` loop, the SVG path through the measured headings, and the choice
  of the highlighted section after a scroll.
- **The statistics** (`WordCount`, `Tally`, `Sorting`, `BuildStats`,
  `ServerStats`, `StatsPage`): the word estimate of a post; the build-time
  totals, averages, reading time and category breakdown; the server-side view
  and reaction aggregation and the two top-5 lists; the page's derived
  figures and guards.
- **Small display rules** (`LinkPreview`, `CategoryChart`, `Lighthouse`,
  `ContributionGraph`, `StatsBento`):
  - where the preview popover goes;
  - the bar scale and the "+N more" note;
  - the score colour bands;
  - the contribution graph's month labels and plural;
  - the trend-line interpolation and the peak bar.

Functions stand in for everything outside the code:
- the browser's layout and screenshots;
- WHATWG URL parsing and `Date` parsing;
- trigonometry (`Canvas.Polar`);
- the clock and the database query results;
- reading a date's month and the locale's month names.

JavaScript's semantics are written out where they matter:
- `ToInt32` wrap-around and the truncating `%`;
- `Math.round` (halves up), `Math.floor` and `Math.ceil`;
- the `\s` class and `trim`;
- insertion-ordered `Set` and `Map`;
- the stable `Array.prototype.sort`;
- the `||` fallbacks.

Supporting modules: `Options` (missing values), `Seqs` (sequence idioms),
`Arith` (division facts), `JsText` (string semantics) and `Content` (the
content build's post and changelog records).

## Model

| member | source | states |
|---|---|---|
| Canvas.SeededRandom | app/components/InfiniteCanvas.tsx:38-47 | The value is a whole number of ten-thousandths in [0, 1): `|hash % 10000|` with JavaScript's truncating remainder, over 10000. The empty seed gives 0. |
| Canvas.JsRound | app/components/InfiniteCanvas.tsx:118 | `Math.round` lands within one half of its argument, halves rounding up. |
| Canvas.CheckCollisionSymmetric | app/components/InfiniteCanvas.tsx:50-57 | The overlap test does not depend on the order of the two boxes. |
| Canvas.TouchingBoxesCollide | app/components/InfiniteCanvas.tsx:50-57 | The test uses strict comparisons, so boxes that only share an edge count as overlapping. |
| Canvas.BoxesCollideIffCentresClose | app/components/InfiniteCanvas.tsx:93-114 | Two padded card boxes collide exactly when their centres are within 330 horizontally and within 380 vertically. |
| Canvas.HasCollision | app/components/InfiniteCanvas.tsx:101-114 | The inner loop reports a hit exactly when some placed card's box overlaps the candidate's. |
| Canvas.CandidateRadius | app/components/InfiniteCanvas.tsx:84-86 | Every attempted radius lies in [250 + layer offset, 450 + layer offset). |
| Canvas.FirstFreeAttempt | app/components/InfiniteCanvas.tsx:76-120 | The retry loop stops at the earliest of the 100 attempts whose box is free. It reports none only when every attempt collides. |
| Canvas.GeneratePositionSpec | app/components/InfiniteCanvas.tsx:62-129 | The position is the rounded centre of the first free attempt, no earlier attempt is free, and the rounded card at most touches a placed card: it never overlaps one. Without a free attempt it is the rounded fallback at radius 250 + layer offset + 380. |
| Canvas.RoundingKeepsSeparation | app/components/InfiniteCanvas.tsx:116-119 | Rounding a free centre to whole coordinates can bring a card edge to edge with a placed card but never makes it overlap one. |
| Canvas.RoundingMayTouch | app/components/InfiniteCanvas.tsx:50-57 | A centre 330.4 px from a placed card is free, yet rounds to 330 px, exactly touching it, which `checkCollision` counts as a collision. |
| Canvas.Layout | app/components/InfiniteCanvas.tsx:140-167 | The pass yields one card per message, in order, each carrying its message unchanged. |
| Canvas.LayoutPlacement | app/components/InfiniteCanvas.tsx:140-161 | The last message is at the origin. Every other message `i` is placed by `generatePosition` against exactly the positions of messages `0..i-1`. |
| Canvas.LayoutSeparation | app/components/InfiniteCanvas.tsx:140-161 | A card placed by the retry loop, rather than by the fallback, at most touches, and never overlaps, every card placed before it. |
| Canvas.LayerBands | app/components/InfiniteCanvas.tsx:71-124 | Card `8m + r` tries radii in [250 + 380m, 450 + 380m) and falls back to 630 + 380m. From the ninth card on, no radius below 630 is tried. |
| Canvas.AttemptSuffixSeparates | app/components/InfiniteCanvas.tsx:76-79 | Seeds that differ only in the last attempt digit hash to different values. |
| StringHash.SourceStepIsPolynomial | scripts/generate-link-previews.ts:50-54 | `(hash << 5) - hash + char` followed by `hash & hash` is the recurrence `hash := ToInt32(31·hash + char)`. |
| StringHash.ToInt32 | app/components/InfiniteCanvas.tsx:43 | The result is a signed 32-bit integer, and signed 32-bit integers are left unchanged. |
| StringHash.ToInt32Congruent | app/components/InfiniteCanvas.tsx:42-43 | The conversion only sees its argument modulo 2^32. |
| StringHash.Hash | app/components/InfiniteCanvas.tsx:39-44 | The fold always yields a signed 32-bit integer, and 0 for no input. |
| StringHash.LastUnitSeparates | app/components/InfiniteCanvas.tsx:39-44 | Two inputs with a common prefix that end in different UTF-16 code units hash differently. |
| StringHash.AbsJsRem | app/components/InfiniteCanvas.tsx:46 | The absolute value of the truncating remainder is the absolute value's remainder. |
| StringHash.ToHex | scripts/generate-link-previews.ts:55 | `toString(16)` gives lower-case hexadecimal digits whose value is the number. |
| StringHash.PadStart | scripts/generate-link-previews.ts:55 | The padding goes in front, up to the width, and the original string follows it. |
| StringHash.HexKey | scripts/generate-link-previews.ts:55 | The key has 12 hexadecimal characters and its value is `|hash|`. It starts with "0000", since `|hash|` needs at most 8 digits, so the `slice` never cuts. |
| StringHash.HexKeyInjective | scripts/generate-link-previews.ts:55 | Different absolute hash values never share a key. |
| JsText.Utf16 | app/components/InfiniteCanvas.tsx:40-41 | Every code unit `charCodeAt` reads is below 2^16, and there is at least one per character. |
| JsText.Utf16Append | app/components/InfiniteCanvas.tsx:40-41 | The code units of a concatenation are the code units of the parts. |
| JsText.NatToString | app/components/InfiniteCanvas.tsx:78-79 | The decimal rendering of an attempt number has no leading zero and reads back as the number. |
| JsText.NatToStringInjective | app/components/InfiniteCanvas.tsx:78-79 | Different attempt numbers give different seed suffixes. |
| JsText.TrimStart | app/lib/toc-utils.ts:41 | The result is the suffix left after dropping only leading whitespace, and it does not start with whitespace. |
| JsText.TrimEnd | app/lib/toc-utils.ts:41 | The result is the prefix left after dropping only trailing whitespace, and it does not end with whitespace. |
| JsText.TrimShape | app/lib/toc-utils.ts:41 | `trim` returns a contiguous piece of its input, with only whitespace cut from each end. |
| JsText.TrimEmptyIff | app/lib/toc-utils.ts:44 | A string trims to the empty string exactly when it is all whitespace. |
| JsText.Lower | app/lib/toc-utils.ts:19 | No upper-case letter the model knows (A-Z, U+0130, U+212A) survives lower-casing. |
| JsText.LowerIdentity | app/lib/toc-utils.ts:19 | A string without such upper-case letters is its own lower-case form. |
| JsText.LowerLength | app/lib/toc-utils.ts:19 | Lower-casing grows the string by one character for each U+0130, which becomes `i` plus a combining dot, and keeps its length otherwise. |
| JsText.LowerCases | app/lib/toc-utils.ts:19 | `Ab` becomes `ab`, U+0130 becomes `i` followed by U+0307, and the Kelvin sign U+212A becomes `k`. |
| HrefScan.AttributeMatchIff | scripts/generate-link-previews.ts:93 | The scanner reports a capture and end exactly where the text has the shape `href="…"` with a non-empty, quote-free capture. |
| HrefScan.ObjectPropertyMatchIff | scripts/generate-link-previews.ts:92 | The scanner matches exactly where the text reads `href:`, optional whitespace, a quote of either kind, a non-empty capture without quotes, and a quote. |
| HrefScan.EscapedQuoteMatchIff | scripts/generate-link-previews.ts:91 | The scanner matches exactly where the text reads `href`, `=` or `:`, an optional backslash, a quote, a non-empty capture without quotes or backslashes, an optional backslash, and a quote. |
| HrefScan.MatchAt | scripts/generate-link-previews.ts:90-94 | A match consumes at least one character and captures a non-empty URL. |
| HrefScan.ScanSound | scripts/generate-link-previews.ts:98-105 | Every URL the `exec` loop yields is the capture of a match at or after the start. |
| HrefScan.ScanLeftmost | scripts/generate-link-previews.ts:99-101 | The first URL yielded is the capture at the leftmost matching position. |
| PreviewUrls.ExternalUrlRules | scripts/generate-link-previews.ts:58-68 | Empty strings, `/` paths, `#` fragments and links to the site's domain are never external. Any other URL is external exactly when it parses with an `http:` or `https:` protocol. |
| PreviewUrls.ExcludedSitesNeverPreviewed | scripts/generate-link-previews.ts:24-36 | No extracted URL has a host that is one of the 11 excluded sites or a subdomain of one. |
| PreviewUrls.SubstringHostsExcluded | scripts/generate-link-previews.ts:75 | The exclusion is a substring test, wider than the excluded sites: `www.netflix.com` is on none of them, yet it is excluded because it contains `x.com`. |
| PreviewUrls.KeepPreviewable | scripts/generate-link-previews.ts:100-105 | Exactly the captures that should get a preview are kept. |
| PreviewUrls.ExtractUrls | scripts/generate-link-previews.ts:88-109 | The result has no duplicates and holds exactly the previewable `href` captures. |
| PreviewUrls.PostUrls | scripts/generate-link-previews.ts:309-311 | A draft contributes no URL. A published post contributes its extracted URLs. |
| PreviewUrls.CollectUrls | scripts/generate-link-previews.ts:308-313 | The URL set has no duplicates and holds exactly the URLs extracted from some published post. |
| PreviewUrls.DraftsContributeNothing | scripts/generate-link-previews.ts:309-310 | Collecting over all posts gives what collecting over the published posts gives. |
| PreviewUrls.CollectedUrlsArePreviewable | scripts/fix-failed-previews.ts:209-213 | Every collected URL should get a preview and is an `href` capture of a published post. |
| PreviewManifest.HashUrl | scripts/generate-link-previews.ts:48-56 | The key has 12 lower-case hexadecimal characters and its value is the absolute 32-bit hash of the URL. |
| PreviewManifest.KeyOfPathOfKey | scripts/generate-link-previews.ts:244 | A screenshot path is `/previews/`, the key and `.jpeg`, and the key can be read back from it. |
| PreviewManifest.ScreenshotPathShape | scripts/generate-link-previews.ts:81-83 | A URL's screenshot path has 27 characters and names its key. Two URLs share a screenshot file exactly when they share a key. |
| PreviewManifest.EntryFor | scripts/generate-link-previews.ts:242-250 | An entry written after a capture is never a timeout. |
| PreviewManifest.WriteEntriesKeys | scripts/fix-failed-previews.ts:285-300 | Writing the entries adds exactly the keys of the processed URLs. |
| PreviewManifest.WriteEntriesUnchanged | scripts/fix-failed-previews.ts:292-300 | An entry whose key no processed URL has is left as it was. |
| PreviewManifest.WriteEntriesLast | scripts/fix-failed-previews.ts:292-300 | A URL's key holds the entry built from that URL's capture when no later URL shares the key. |
| PreviewManifest.WriteEntriesAppend | scripts/generate-link-previews.ts:230-259 | Writing a list in two parts is the same as writing it in one go. |
| PreviewGenerator.UrlsToProcess | scripts/generate-link-previews.ts:332-343 | The work list is at most as long as the URL list. It holds exactly the URLs that need capturing, and has no duplicates when the URL list has none. |
| PreviewGenerator.SelectionRule | scripts/generate-link-previews.ts:332-343 | A URL without an entry is always captured and a failed one never is. Any other URL is captured exactly when its timestamp parses and is more than 180 days (six 30-day months, 15,552,000,000 ms) old. |
| PreviewGenerator.ProcessBatchIsSequential | scripts/generate-link-previews.ts:223-262 | The batched pass writes what a one-by-one pass writes, in ceil(n/3) batches of one to three URLs. |
| PreviewGenerator.ProcessBatchSpec | scripts/generate-link-previews.ts:223-262 | The pass adds exactly the processed keys and leaves every other entry unchanged. Each processed URL not followed by a URL with the same key gets its own URL, path, 1200×630 size, error message, and a status that is success exactly when its capture succeeded. |
| PreviewGenerator.GenerateSpec | scripts/generate-link-previews.ts:264-404 | Without content, the run writes the existing entries and saves no hash. With unchanged content and a manifest on disk, it writes nothing. Otherwise it writes version 1.0 and saves the hash, keeping the existing entries when nothing needs capturing and adding the batch pass's writes when something does. |
| PreviewGenerator.GenerateKeepsEntries | scripts/generate-link-previews.ts:264-404 | A run never drops an entry, and it changes only entries whose key a captured URL has. |
| PreviewFixer.Select | scripts/fix-failed-previews.ts:218-233 | Missing holds exactly the URLs without an entry, and failed holds exactly the failed ones when `--all` is set. The work list is the two together, with no duplicates. |
| PreviewFixer.SelectRule | scripts/fix-failed-previews.ts:222-233 | The fixer processes a URL exactly when its entry is missing, or is failed with `--all`. Successful and timed-out entries are never processed, and age plays no part. |
| PreviewFixer.FixLoop | scripts/fix-failed-previews.ts:285-309 | The sequential loop writes what the batched writer writes. The fixed and still-failing counts add up to the number processed. |
| PreviewFixer.FixLoopCounts | scripts/fix-failed-previews.ts:302-308 | The fixed count is the number of captures that succeeded. |
| PreviewFixer.FixSpec | scripts/fix-failed-previews.ts:178-316 | Nothing is written without a manifest, without content, or with an empty work list. A written manifest keeps the old version and every entry whose key was not processed. It holds the fresh entry of each processed URL not followed by a URL with the same key, and the counts add up. |
| Slug.Slugify | app/lib/toc-utils.ts:16-25 | A slug is made only of `[a-z0-9_-]` and never contains `--`. |
| Slug.DottedCapitalI | app/lib/toc-utils.ts:16-25 | The heading `İ` (U+0130) gets the slug `i`: lower-casing turns it into `i` and a combining dot, and the filter drops the dot. |
| Slug.SlugifyIdempotent | app/lib/toc-utils.ts:16-25 | Slugifying a slug changes nothing. |
| Slug.SlugFixedPoint | app/lib/toc-utils.ts:16-25 | Every string of `[a-z0-9_-]` without `--` is its own slug. |
| Slug.SlugKeepsWords | app/lib/toc-utils.ts:21-24 | The collapsing steps drop no letter, digit or underscore: the slug keeps, in order, every such character of the filtered text. |
| Slug.AmpersandBetweenWords | app/lib/toc-utils.ts:20-24 | `a & b` for alphanumeric words slugifies to `a-and-b`. The replacements run before the filter, so the surrounding spaces become hyphens that collapse into the ones around `and`. |
| Slug.SpaceRunsShape | app/lib/toc-utils.ts:21 | No whitespace is left, and the only character added is the hyphen. |
| Slug.SpaceRunsKeepsOthers | app/lib/toc-utils.ts:21 | Only whitespace is replaced: every other non-hyphen character survives, in order. |
| Slug.ReplaceAmpersand | app/lib/toc-utils.ts:22 | No `&` is left, each one adds four characters, and only the characters of `-and-` are added. |
| Slug.KeepWordChars | app/lib/toc-utils.ts:23 | Exactly the word characters and hyphens stay, and text made only of them is unchanged. |
| Slug.HyphenRunsShape | app/lib/toc-utils.ts:24 | No `--` is left, and no character is added. |
| Slug.HyphenRunsKeepsOthers | app/lib/toc-utils.ts:24 | Collapsing removes only hyphens. |
| TocHeadings.MatchAtSound | app/lib/toc-utils.ts:36 | Every match found satisfies `^(#{2,3})\s+(.+)$` in multi-line mode. |
| TocHeadings.MatchAtGreatest | app/lib/toc-utils.ts:36 | Wherever the pattern can match, a match is found, and it is the one the backtracking engine reaches first: more hashes, then longer `\s+`, then longer `.+`. |
| TocHeadings.FourHashesNoMatch | app/lib/toc-utils.ts:36 | A line starting with four hashes is not a heading. |
| TocHeadings.TextMayStartOnNextLine | app/lib/toc-utils.ts:36 | `\s+` crosses line breaks: `##` followed by a newline and a line of text is a level-2 heading whose text is that next line. |
| TocHeadings.Scan | app/lib/toc-utils.ts:39 | Every match the `exec` loop returns is a match at its own start, and the matches do not overlap. |
| TocHeadings.ScanMissesNothing | app/lib/toc-utils.ts:39 | Every position where the pattern can match starts a returned match or lies inside one. |
| TocHeadings.HeadingOf | app/lib/toc-utils.ts:40-50 | A match yields no heading exactly when its capture is blank. Otherwise the heading has the match's level and the trimmed capture as its text. |
| TocHeadings.TrimmedText | app/lib/toc-utils.ts:41-44 | The trimmed text is empty exactly for blank captures, and trimming it again changes nothing. |
| TocHeadings.HeadingsCount | app/lib/toc-utils.ts:44 | The number of headings is the number of matches minus the blank ones. |
| TocHeadings.HeadingsSound | app/lib/toc-utils.ts:46-50 | Every heading produced has level 2 or 3, a non-blank trimmed text, and the text's slug as its anchor. |
| TocHeadings.ExtractHeadingsFromMdx | app/lib/toc-utils.ts:31-54 | Every extracted heading has level 2 or 3, a non-blank trimmed text, and the text's slug as its anchor, and there are as many headings as matches with a non-blank capture. |
| TocHeadings.ExtractHeadingAt | app/lib/toc-utils.ts:38-53 | Each match the `exec` loop finds with a non-blank capture gives the heading at its index minus the number of blank matches before it: the headings are the matches' headings, none duplicated or swapped. |
| TocHeadings.ExtractHeadingsOrdered | app/lib/toc-utils.ts:38-53 | Headings come out in source order: a match's heading comes before the heading of any later match. |
| TocPath.XOf | app/components/TableOfContents.tsx:33 | Level 2 is at x = 0 and every other level at x = 14. |
| TocPath.Segment | app/components/TableOfContents.tsx:36-53 | Going to a vertex:<br>• the first vertex is one move;<br>• a vertex at the same x is one line;<br>• an indent goes down 30% at the old x, then to the vertex;<br>• an outdent goes to 70% at the new x, then to the vertex.<br>Every segment ends at the vertex. |
| TocPath.CornerBetween | app/components/TableOfContents.tsx:43-53 | A segment's corner lies between the heights of its two vertices. |
| TocPath.Vertices | app/components/TableOfContents.tsx:29-34 | There are no vertices exactly when no heading has a measured position. |
| TocPath.Through | app/components/TableOfContents.tsx:36-53 | A path through `n` vertices has between `n` and `2n` commands and ends at the last vertex. |
| TocPath.WalkIsThrough | app/components/TableOfContents.tsx:29-31 | Skipping a heading without a position is the same as leaving it out of the list. |
| TocPath.GenerateTocPathSpec | app/components/TableOfContents.tsx:18-61 | The path is empty exactly when no heading has a position. Otherwise its only move is the first command, to the first measured vertex, and it ends at the last measured vertex. |
| ActiveSection.Positions | app/hooks/useActiveSection.ts:32-42 | Exactly the ids with an element are kept, each with its element's top, in the order of the id list and as often as it is listed. The list is empty exactly when no id has an element. |
| ActiveSection.CurrentHeading | app/hooks/useActiveSection.ts:48-55 | The loop finds the last heading at or above the offset line, or none exactly when every heading is below it. |
| ActiveSection.CalculateActiveHeading | app/hooks/useActiveSection.ts:28-70 | Without located headings nothing changes. Otherwise the last heading past the offset wins. If no heading is past it, the first heading wins when it is in the upper half of the viewport, and nothing changes when it is not. A new active id is always one of the ids. |
| WordCount.FindFrom | app/lib/stats/build-time-stats.ts:9 | The lazy search finds the first occurrence of the closing delimiter, or reports that there is none. |
| WordCount.StripDelimited | app/lib/stats/build-time-stats.ts:7-10 | Stripping never lengthens the text and adds no character but the space. |
| WordCount.StripDelimitedIdentity | app/lib/stats/build-time-stats.ts:7-10 | Text in which the opening delimiter cannot start is left as it is. |
| WordCount.NoDelimitedPieceLeft | app/lib/stats/build-time-stats.ts:7-10 | After a pass with one-character delimiters, no opening character is followed anywhere by a closing one. |
| WordCount.StripIdentity | app/lib/stats/build-time-stats.ts:6-10 | Text without `<`, `{` or a backtick passes through the four passes unchanged. |
| WordCount.SplitCountsRuns | app/lib/stats/build-time-stats.ts:14 | The non-empty pieces of `split(/\s+/)` are exactly as many as the maximal non-whitespace runs. |
| WordCount.CollapseKeepsRuns | app/lib/stats/build-time-stats.ts:11 | Collapsing whitespace runs into one space keeps the number of words. |
| WordCount.EstimateCountsRuns | app/lib/stats/build-time-stats.ts:4-15 | The estimate is the number of maximal non-whitespace runs in the stripped text. |
| WordCount.EstimateZeroIff | app/lib/stats/build-time-stats.ts:4-15 | The estimate is 0 exactly when the stripped text is blank. |
| WordCount.BlankHasNoWords | app/lib/stats/build-time-stats.ts:4-15 | Empty and whitespace-only input counts no words. |
| Content.Published | app/lib/stats/build-time-stats.ts:18 | Exactly the non-draft posts are kept. |
| Content.PublishedChangelog | app/lib/stats/build-time-stats.ts:19 | Exactly the non-draft changelog items are kept. |
| Tally.Add | app/lib/stats/build-time-stats.ts:36 | A key keeps its place when set again, and a new key goes at the end. The grand total grows by the value. |
| Tally.AddLookup | app/lib/stats/build-time-stats.ts:36 | Only the updated key's total changes, by exactly the value. |
| Tally.TallyAllSpec | app/lib/stats/build-time-stats.ts:33-38 | The tally has one entry per distinct key, in order of first occurrence. Each entry holds the sum of the values with that key, and all entries add up to the sum of all values. |
| Sorting.SortDesc | app/lib/stats/build-time-stats.ts:40-42 | The sorted list is a permutation of the input, ordered by non-increasing key. |
| Sorting.SortStable | app/lib/stats/build-time-stats.ts:42 | Elements with equal keys keep their input order. |
| BuildStats.RoundDiv | app/lib/stats/build-time-stats.ts:26 | The average is the quotient rounded to the nearest integer, halves up. |
| BuildStats.CeilDiv | app/lib/stats/build-time-stats.ts:30 | `Math.ceil(a/d)` is the least `m` with `a <= d·m`, and 0 only for 0. |
| BuildStats.WordCounts | app/lib/stats/build-time-stats.ts:22 | Each published post gets its own word estimate, in order. |
| BuildStats.CountsSpec | app/lib/stats/build-time-stats.ts:18-23 | Only published articles and changelog items are counted. The word total is the sum of the per-article estimates and is never negative. |
| BuildStats.AverageSpec | app/lib/stats/build-time-stats.ts:24-27 | The average is 0 without articles. Otherwise it is the word total over the article count, rounded halves up. |
| BuildStats.ReadingTimeSpec | app/lib/stats/build-time-stats.ts:29-30 | The reading time is the word total at 200 words a minute, rounded up. |
| BuildStats.BreakdownPermutes | app/lib/stats/build-time-stats.ts:40-42 | Sorting keeps exactly the tally's entries. |
| BuildStats.BreakdownCounts | app/lib/stats/build-time-stats.ts:33-42 | The breakdown has one entry per distinct category, and each entry counts that category's occurrences. |
| BuildStats.BreakdownCategories | app/lib/stats/build-time-stats.ts:33-42 | A category has an entry exactly when some published post carries it. |
| BuildStats.BreakdownTotal | app/lib/stats/build-time-stats.ts:33-38 | The counts add up to the number of category tags. |
| BuildStats.BreakdownOrder | app/lib/stats/build-time-stats.ts:40-42 | The breakdown is sorted by non-increasing count, and categories with equal counts keep their order of first occurrence. |
| ServerStats.TotalViewsAdds | app/lib/stats/server-stats.ts:24-25 | The total of one row is its view count and the total of two row lists joined is the sum of their totals, so it does not depend on row order: sorting the rows by views keeps it. |
| ServerStats.AddReaction | app/lib/stats/server-stats.ts:39-43 | A row of a valid type adds its count to that type alone. A row of any other type changes nothing. |
| ServerStats.ReactionsByTypeSpec | app/lib/stats/server-stats.ts:32-43 | Each of the four types holds the sum of the counts of its rows, or 0 without data. |
| ServerStats.TotalReactionsSpec | app/lib/stats/server-stats.ts:45-48 | The reaction total is the sum of the counts of the rows of valid types. Rows of unknown types are left out. |
| ServerStats.FindPost | app/lib/stats/server-stats.ts:56 | `find` returns the first post with the slug, or none exactly when no post has it. |
| ServerStats.Metric | app/lib/stats/server-stats.ts:55-62 | An item keeps its slug and count. It takes the post's title, or the slug when there is no post or the title is empty, and takes the post's image name, if any. |
| ServerStats.MetricsSorted | app/lib/stats/server-stats.ts:53-63 | Items built from a sorted list are in non-increasing count order. |
| ServerStats.TopViewedSpec | app/lib/stats/server-stats.ts:51-63 | The most viewed list has at most five items, is empty without data, and has non-increasing counts. Its items are the first rows of the stably sorted views, and no row left out has more views than a listed one. |
| ServerStats.PerArticleSpec | app/lib/stats/server-stats.ts:66-70 | One entry per article with reactions, holding the sum of all its rows, of any reaction type. |
| ServerStats.TopReactedEntries | app/lib/stats/server-stats.ts:72-83 | The most reacted list holds the first five entries of the sorted per-article tally. |
| ServerStats.TopReactedOrder | app/lib/stats/server-stats.ts:72-74 | The most reacted list has at most five items, is empty without data, and has non-increasing counts. |
| ServerStats.TopReactedDistinct | app/lib/stats/server-stats.ts:66-83 | No article is listed twice. |
| ServerStats.TopReactedCounts | app/lib/stats/server-stats.ts:66-83 | Each listed article carries the sum of all its reaction rows. |
| ServerStats.MessageCount | app/lib/stats/server-stats.ts:96 | A missing message count is 0. |
| StatsPage.CoffeeCups | app/stats/page.tsx:44 | The cups are the whole number of 500-word blocks in the word total. |
| StatsPage.HoursMinutes | app/stats/page.tsx:47-48 | Hours and minutes recombine into the minute count, with minutes below 60. |
| StatsPage.ReadingTimeRoundTrip | app/stats/page.tsx:47-50 | The formatted reading time reads back as the minute count it came from, so different counts never print alike. |
| StatsPage.ReadingTimeHasHours | app/stats/page.tsx:49-50 | Hours are shown exactly when there are at least 60 minutes. |
| StatsPage.MostViewed | app/stats/page.tsx:53 | The featured article is the first of the list, and there is none exactly when the list is empty. |
| StatsPage.TopViewedList | app/stats/page.tsx:113 | The list beside the featured card skips the first article and shows at most the next four. |
| StatsPage.MostReactedList | app/stats/page.tsx:127 | The most reacted card shows the first four articles at most. |
| StatsPage.FeaturedAndListCoverTopFive | app/stats/page.tsx:53-113 | Of at most five articles, the most viewed one followed by the Most Viewed list is the whole list: the list is everything after the first entry, and is empty without articles. Whether the first entry is actually shown is `StatsPage.TopViewedRendered`. |
| StatsPage.TopViewedRendered | app/stats/page.tsx:77-113 | With a featured article, it followed by the list is exactly the top-5 list. Without one, the list still starts at the second entry, so the top article is shown nowhere. |
| StatsPage.FeaturedShownIff | app/stats/page.tsx:77 | The featured card appears exactly when there are view rows and the post of the most viewed one has a non-empty image name. |
| StatsPage.PerformanceCards | app/stats/page.tsx:233-250 | A mobile card is shown exactly when mobile scores exist, and a desktop card exactly when desktop scores exist. Mobile comes first. |
| StatsPage.PerformanceShownIff | app/stats/page.tsx:224-250 | The performance section is shown exactly when it holds a card. |
| LinkPreview.PopoverTop | app/components/LinkPreview/LinkPreview.tsx:70-76 | The popover goes above the link, 12 away, when that leaves at least 10 above it. Otherwise it goes 12 below the link. |
| LinkPreview.PopoverLeft | app/components/LinkPreview/LinkPreview.tsx:71-83 | The popover is centred on the link and pushed back inside the viewport, left edge first. In a viewport wide enough, it lies at least 10 from both sides. |
| LinkPreview.CalculatePosition | app/components/LinkPreview/LinkPreview.tsx:62-91 | There is no popover without a link. There is also none exactly when the chosen top is above the top margin and the bottom is past the bottom margin. Otherwise the result is the computed top and left. |
| CategoryChart.MaxCount | app/components/stats/CategoryBarChart.tsx:29 | The scale is at least 1 and at least every count. It is one of the counts unless it is 1. |
| CategoryChart.Percentage | app/components/stats/CategoryBarChart.tsx:49 | A count between 0 and the maximum gives a bar between 0% and 100%: positive for a positive count and full for the maximum. |
| CategoryChart.Bars | app/components/stats/CategoryBarChart.tsx:29-50 | The first six categories get bars, in order. Each bar has its category's name and count, the colour of its position modulo six, and its percentage of the overall maximum. |
| CategoryChart.MoreNote | app/components/stats/CategoryBarChart.tsx:159-166 | The "+N more" note appears exactly when there are more than six categories, and N plus the bars is the number of categories. |
| CategoryChart.BarsInRange | app/components/stats/CategoryBarChart.tsx:49 | With non-negative counts every bar is between empty and full, and a category with the largest count fills its bar. |
| CategoryChart.BreakdownBars | app/components/stats/CategoryBarChart.tsx:29-49 | For the build-time breakdown no bar is empty, and the first bar, the most used category, is full. |
| CategoryChart.BreakdownPositive | app/lib/stats/build-time-stats.ts:33-38 | Every category in the breakdown is used at least once. |
| CategoryChart.MaxIsFirst | app/components/stats/CategoryBarChart.tsx:29 | In a sorted list of positive counts the scale is the first count. |
| Lighthouse.BandOf | app/components/stats/LighthouseScoreCard.tsx:22-45 | Emerald from 90, amber from 50 up to 90, red below 50. |
| Lighthouse.GetScoreColor | app/components/stats/LighthouseScoreCard.tsx:22-45 | All four classes come from the score's band, and the class set identifies the band. |
| Lighthouse.BandMonotone | app/components/stats/LighthouseScoreCard.tsx:22-45 | A higher score never gets a worse band. |
| Lighthouse.ScoreItems | app/components/stats/LighthouseScoreCard.tsx:405-410 | There are four bars, labelled Performance, Accessibility, Best Practices and SEO in that order. |
| Lighthouse.ItemsMatchValues | app/components/stats/LighthouseScoreCard.tsx:405-417 | The bars and the radar show the same four scores in the same order. |
| Lighthouse.Eased | app/components/stats/LighthouseScoreCard.tsx:70 | The ease-out curve stays in [0, 1] and reaches 1 at the end. |
| Lighthouse.DisplayScore | app/components/stats/LighthouseScoreCard.tsx:51-71 | With reduced animations a whole score is shown as is. At the end of the animation the shown value is the score's floor, and it never exceeds a non-negative score. |
| ContributionGraph.GetMonthLabels | app/components/stats/ContributionGraphCard.tsx:92-112 | A week gets a label exactly when it has a day whose month differs from that of the last week before it with a day. Labels are in week order and named after the week's first day. |
| ContributionGraph.FirstFilledWeekLabelled | app/components/stats/ContributionGraphCard.tsx:94-101 | The first week with a day is always labelled. |
| ContributionGraph.ConsecutiveLabelsDiffer | app/components/stats/ContributionGraphCard.tsx:101-107 | Two labelled weeks with no labelled week between them start in different months. |
| ContributionGraph.NeighbourLabelsDiffer | app/components/stats/ContributionGraphCard.tsx:96-109 | Neighbouring labels name different months. |
| ContributionGraph.SplitOn | app/components/stats/ContributionGraphCard.tsx:31 | `split` yields at least one part, and no part contains the separator. |
| ContributionGraph.FormatDateArgsOfDate | app/components/stats/ContributionGraphCard.tsx:29-32 | A `Y-M-D` date is read as its year, the month before its month number, and its day, with or without leading zeros. |
| ContributionGraph.ContributionPlural | app/components/stats/ContributionGraphCard.tsx:317-319 | The tooltip starts with the count and ends in `s` exactly when the count is not one. |
| StatsBento.CentresOrdered | app/components/StatsBento.tsx:56 | Bar centres go strictly left to right. |
| StatsBento.CentreInside | app/components/StatsBento.tsx:56 | Every bar centre lies strictly inside the chart. |
| StatsBento.Lerp | app/components/StatsBento.tsx:63-67 | The interpolation gives each end's height at that end and stays between the two heights. |
| StatsBento.GetYOnLine | app/components/StatsBento.tsx:54-73 | The line's height is:<br>• each bar's own height at its centre;<br>• flat at the first bar left of the first centre;<br>• flat at the last bar right of the last centre;<br>• between the two neighbouring bar heights in between. |
| StatsBento.SegmentOnLine | app/components/StatsBento.tsx:59-68 | Interpolating in the first segment that holds the cursor gives a height on the line. |
| StatsBento.BeforeFirst | app/components/StatsBento.tsx:71 | Left of the first centre the line is flat at the first bar. |
| StatsBento.AfterSegments | app/components/StatsBento.tsx:72 | Past every segment the line is flat at the last bar. |
| StatsBento.MaxHeight | app/components/StatsBento.tsx:19 | The maximum is one of the heights and at least every height. |
| StatsBento.PeakIndex | app/components/StatsBento.tsx:18-20 | The peak is the first tallest bar. |
| StatsBento.CardPeak | app/components/StatsBento.tsx:8-20 | The card's peak is its sixth bar, at index 5. |
| StatsBento.ClampPercent | app/components/StatsBento.tsx:205 | The cursor position is clamped to [0, 100] and left alone inside it. |

## Left out

- The DOM, React state, effects, animation frames and console output are not modelled. The layout's `console.log`, the scripts' progress messages and their summary counts are output only.
- The browser and `captureScreenshot` are a parameter (`Capture`). Navigation, timeouts and file writes are not modelled. Timestamps come in with each capture result.
- PreviewGenerator.GenerateSpec: assumes the browser itself never fails. `chromium.launch` (scripts/generate-link-previews.ts:363), and `browser.newContext` and `context.newPage` in `captureScreenshot` (scripts/generate-link-previews.ts:118-127), run outside any per-page `try`. A throw there rejects the batch's `Promise.all`, skips the manifest write (scripts/generate-link-previews.ts:369-382), and the run exits with status 1 having written nothing. The model's `Capture` always returns a result, so every processed URL gets an entry.
- PreviewFixer.FixSpec: assumes the browser itself never fails. `chromium.launch` (scripts/fix-failed-previews.ts:278), and `browser.newContext` and `context.newPage` (scripts/fix-failed-previews.ts:107-116), run outside the per-page `try`. A throw there ends the loop before the manifest write, and the run exits with status 1 having written nothing.
- `Promise.all` inside a batch is modelled as sequential capture in list order. The batch's writes are to distinct keys only when URLs do not share a key.
- `generateContentHash` (MD5 over the posts) is a parameter: the current and stored hashes are inputs. Reading and writing the manifest and hash files are the `Option` inputs and the run's outcome.
- `new URL(...)`, `new Date(s).getTime()`, `Date.now()`, `getMonth()` and `toLocaleDateString` are parameters: a URL parser, a time parser, a clock value, a month function and a month-name function.
- Trigonometry is the parameter `Canvas.Polar`. The angle is passed as a fraction of a turn.
- Floating-point arithmetic is modelled with exact reals. Numbers in the SVG path string are not printed: the path is modelled as its list of commands.
- `generatePosition`'s `totalMessages` argument is never read in the source and is not a parameter.
- JsText.Lower: of the non-ASCII letters only U+0130 and U+212A are mapped, because they are the only ones whose lower-case form contains an ASCII letter the slug's filter keeps. Every other character is left as it is: its JavaScript lower-case form is non-ASCII too, so the filter drops it either way and the slug is the same.
- JsText.Utf16: lone surrogates cannot occur in a Dafny string, so strings containing them are not modelled.
- WordCount.NoDelimitedPieceLeft: stated for the one-character delimiters only, because the lazy triple-backtick pass can leave single backticks that the next pass removes.
- ServerStats.ReactionsPerArticle: insertion order is used where `Object.entries` would list integer-like slugs first. The proved properties (counts, distinctness, order of the top list by count) do not depend on that order, but which of several equal counts makes the top five can.
- ServerStats.GetServerStats has no contract of its own. Its fields are covered by `TotalViews`, `TotalReactionsSpec`, `ReactionsByTypeSpec`, `TopViewedSpec`, the `TopReacted*` lemmas and `MessageCount`.
- ServerStats.TotalViews: the `|| 0` also turns a `NaN` sum into 0. View counts here are integers, so that case does not arise.
- `unstable_cache` and the Supabase queries are not modelled: query results are `Option` inputs, with `None` for `data: null`.
- PreviewGenerator.Generate: `manifest.previews || {}` is modelled as the manifest's previews, which the manifest type always has.
- ContributionGraph.FormatDateArgs: only date parts that are non-empty digit strings are modelled. `Number` also reads other parts, such as `""` as 0 and `" 7"` as 7, and gives `NaN` for the rest; the model returns no date for all of them. The total-contributions count-up animation and the GitHub data guard are not modelled.
- Lighthouse.DisplayScore: with reduced animations the model shows the floor of the score, where the source shows the score itself. The two agree on whole scores, which Lighthouse reports.
- The count-up animations of the other cards and the cursor-to-percent conversion (division by the card's width) are not modelled. `StatsBento.ClampPercent` starts from the percentage.
- `CategoryChart` hover states and framer-motion props are not modelled.
