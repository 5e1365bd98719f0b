/** The incremental build of the link-preview manifest
    (scripts/generate-link-previews.ts): which URLs are (re)captured, the
    batched capture pass, and what one run writes. Clock readings, the
    stored and current content hashes, date parsing and the browser are
    parameters. */
module PreviewGenerator {
  import opened Options
  import opened Seqs
  import opened PreviewManifest
  import opened PreviewUrls
  import opened Content

  /** Six 30-day months in milliseconds. */
  const MaxScreenshotAgeMs: int := 6 * 30 * 24 * 60 * 60 * 1000

  /** URLs captured concurrently per batch. */
  const Concurrency: nat := 3

  const ManifestVersion: string := "1.0"

  /** `new Date(s).getTime()`: milliseconds since the epoch, or nothing
      where the result is `NaN`. */
  type TimeParser = string -> Option<int>

  /** Whether a URL is captured on this run (the `urlsToProcess` filter):
      always when it has no entry; never when its entry failed; otherwise
      when the entry is older than the maximum age. An unparsable timestamp
      makes the age `NaN`, which is never greater than the maximum. */
  predicate NeedsCapture(url: string, previews: map<string, LinkPreviewEntry>, now: int,
                         parseTime: TimeParser) {
    var key := HashUrl(url);
    key !in previews ||
      (previews[key].status != Failed &&
       match parseTime(previews[key].generatedAt)
       case None => false
       case Some(t) => now - t > MaxScreenshotAgeMs)
  }

  /** The URLs to capture, in collection order. */
  function UrlsToProcess(urls: seq<string>, previews: map<string, LinkPreviewEntry>, now: int,
                         parseTime: TimeParser): (r: seq<string>)
    ensures |r| <= |urls|
    ensures forall u :: u in r <==> u in urls && NeedsCapture(u, previews, now, parseTime)
    ensures NoDuplicates(urls) ==> NoDuplicates(r)
  {
    var keep := u => NeedsCapture(u, previews, now, parseTime);
    FilterMembers(urls, keep);
    assert NoDuplicates(urls) ==> NoDuplicates(Filter(urls, keep)) by {
      if NoDuplicates(urls) {
        FilterNoDuplicates(urls, keep);
      }
    }
    Filter(urls, keep)
  }

  /** The selection rule: a URL without an entry is always captured, a
      failed one never, and any other one exactly when its timestamp parses
      and is more than 180 days (15,552,000,000 ms) before `now`. */
  lemma SelectionRule(url: string, previews: map<string, LinkPreviewEntry>, now: int,
                      parseTime: TimeParser)
    ensures HashUrl(url) !in previews ==> NeedsCapture(url, previews, now, parseTime)
    ensures HashUrl(url) in previews && previews[HashUrl(url)].status == Failed ==>
              !NeedsCapture(url, previews, now, parseTime)
    ensures HashUrl(url) in previews && previews[HashUrl(url)].status != Failed ==>
              (NeedsCapture(url, previews, now, parseTime) <==>
                 var t := parseTime(previews[HashUrl(url)].generatedAt);
                 t.Some? && now - t.value > 15_552_000_000)
  {
  }

  /** `processBatch`: starting from a copy of the entries, the URLs are
      captured in consecutive batches of `Concurrency`, each entry written
      under its key. Within a batch the captures are taken in list order. */
  function ProcessBatch(urls: seq<string>, previews: map<string, LinkPreviewEntry>,
                        capture: Capture): map<string, LinkPreviewEntry> {
    ProcessChunks(Chunks(urls, Concurrency), previews, capture)
  }

  function ProcessChunks(batches: seq<seq<string>>, previews: map<string, LinkPreviewEntry>,
                         capture: Capture): map<string, LinkPreviewEntry> {
    if batches == [] then previews
    else ProcessChunks(batches[1..], WriteEntries(previews, batches[0], capture), capture)
  }

  lemma {:induction false} ProcessChunksFlat(batches: seq<seq<string>>,
                                             previews: map<string, LinkPreviewEntry>, capture: Capture)
    ensures ProcessChunks(batches, previews, capture) == WriteEntries(previews, Flatten(batches), capture)
  {
    if batches != [] {
      ProcessChunksFlat(batches[1..], WriteEntries(previews, batches[0], capture), capture);
      WriteEntriesAppend(previews, batches[0], Flatten(batches[1..]), capture);
    }
  }

  /** Processing in batches writes what processing the URLs one by one
      writes; there are `ceil(n/3)` batches of at most three URLs each. */
  lemma ProcessBatchIsSequential(urls: seq<string>, previews: map<string, LinkPreviewEntry>,
                                 capture: Capture)
    ensures ProcessBatch(urls, previews, capture) == WriteEntries(previews, urls, capture)
    ensures |Chunks(urls, Concurrency)| == (|urls| + 2) / 3
    ensures forall k :: 0 <= k < |Chunks(urls, Concurrency)| ==> 1 <= |Chunks(urls, Concurrency)[k]| <= 3
  {
    ProcessChunksFlat(Chunks(urls, Concurrency), previews, capture);
    ChunksFlatten(urls, Concurrency);
    ChunksCount(urls, Concurrency);
  }

  /** The batch pass adds exactly the keys of the processed URLs, leaves
      every other entry unchanged, and stores for each processed URL whose
      key no later URL shares the entry built from its capture. */
  lemma ProcessBatchSpec(urls: seq<string>, previews: map<string, LinkPreviewEntry>,
                         capture: Capture)
    ensures ProcessBatch(urls, previews, capture).Keys == previews.Keys + KeysOf(urls)
    ensures forall k :: k in previews && k !in KeysOf(urls) ==>
              ProcessBatch(urls, previews, capture)[k] == previews[k]
    ensures forall j :: 0 <= j < |urls| && LastWithKey(urls, j) ==>
              var e := ProcessBatch(urls, previews, capture)[HashUrl(urls[j])];
              && e == EntryFor(urls[j], capture(urls[j]))
              && e.url == urls[j] && e.screenshotPath == ScreenshotPath(urls[j])
              && e.width == 1200 && e.height == 630
              && (e.status == Success <==> capture(urls[j]).success)
              && e.errorMessage == capture(urls[j]).error
  {
    ProcessBatchIsSequential(urls, previews, capture);
    WriteEntriesKeys(previews, urls, capture);
    forall k | k in previews && k !in KeysOf(urls)
      ensures ProcessBatch(urls, previews, capture)[k] == previews[k]
    {
      WriteEntriesUnchanged(previews, urls, capture, k);
    }
    forall j | 0 <= j < |urls| && LastWithKey(urls, j)
      ensures ProcessBatch(urls, previews, capture)[HashUrl(urls[j])] == EntryFor(urls[j], capture(urls[j]))
    {
      WriteEntriesLast(previews, urls, capture, j);
    }
  }

  /** What one run leaves behind: the manifest written, if any, and the
      content hash saved for the next run's fast path, if any. */
  datatype RunOutcome = RunOutcome(written: Option<LinkPreviewManifest>, savedHash: Option<string>)

  /** The inputs of one run that come from outside the script. */
  datatype Environment = Environment(
    parse: UrlParser,
    parseTime: TimeParser,
    capture: Capture,
    now: int,          // `Date.now()` during the age check
    timestamp: string) // `new Date().toISOString()` for the manifest

  /** `main`. `manifest` is the manifest on disk (none when it is missing or
      unreadable); `posts` is the content build's output (none when it
      cannot be loaded); `currentHash` is the MD5 of the posts' code and
      `storedHash` the hash saved by the last run. */
  function Generate(manifest: Option<LinkPreviewManifest>, posts: Option<seq<Post>>,
                    currentHash: string, storedHash: Option<string>, env: Environment): RunOutcome
  {
    var existing := match manifest case Some(m) => m.previews case None => map[];
    match posts
    case None =>
      RunOutcome(Some(LinkPreviewManifest(env.timestamp, ManifestVersion, existing)), None)
    case Some(ps) =>
      if storedHash == Some(currentHash) && manifest.Some? then RunOutcome(None, None)
      else
        var urls := CollectUrls(ps, env.parse);
        var todo := UrlsToProcess(urls, existing, env.now, env.parseTime);
        var previews := if urls == [] || todo == [] then existing
                        else ProcessBatch(todo, existing, env.capture);
        RunOutcome(Some(LinkPreviewManifest(env.timestamp, ManifestVersion, previews)),
                   Some(currentHash))
  }

  /** The outcomes of a run:
      - without content it writes the existing entries and saves no hash;
      - with unchanged content and a manifest on disk it does nothing;
      - otherwise it writes version 1.0 and saves the current hash, and the
        written entries are the existing ones when nothing needs capturing,
        and otherwise the batch pass over the URLs that do. */
  lemma GenerateSpec(manifest: Option<LinkPreviewManifest>, posts: Option<seq<Post>>,
                     currentHash: string, storedHash: Option<string>, env: Environment)
    ensures var out := Generate(manifest, posts, currentHash, storedHash, env);
            var existing := if manifest.Some? then manifest.value.previews else map[];
      && (out.written.Some? ==> out.written.value.version == "1.0")
      && (posts.None? ==> out.savedHash.None? && out.written.Some? && out.written.value.previews == existing)
      && (posts.Some? && storedHash == Some(currentHash) && manifest.Some? ==> out == RunOutcome(None, None))
      && (posts.Some? && !(storedHash == Some(currentHash) && manifest.Some?) ==>
            var todo := UrlsToProcess(CollectUrls(posts.value, env.parse), existing, env.now, env.parseTime);
            && out.savedHash == Some(currentHash)
            && out.written.Some?
            && (todo == [] ==> out.written.value.previews == existing)
            && (todo != [] ==> out.written.value.previews == WriteEntries(existing, todo, env.capture)))
  {
    if posts.Some? && !(storedHash == Some(currentHash) && manifest.Some?) {
      var existing := if manifest.Some? then manifest.value.previews else map[];
      var urls := CollectUrls(posts.value, env.parse);
      var todo := UrlsToProcess(urls, existing, env.now, env.parseTime);
      ProcessBatchIsSequential(todo, existing, env.capture);
    }
  }

  /** A run that writes a manifest never loses an entry, and keeps unchanged
      every entry whose key no captured URL has. */
  lemma GenerateKeepsEntries(manifest: LinkPreviewManifest, posts: Option<seq<Post>>,
                             currentHash: string, storedHash: Option<string>, env: Environment,
                             k: string)
    requires k in manifest.previews
    requires Generate(Some(manifest), posts, currentHash, storedHash, env).written.Some?
    ensures var written := Generate(Some(manifest), posts, currentHash, storedHash, env).written.value;
      && k in written.previews
      && ((posts.None? || k !in KeysOf(UrlsToProcess(CollectUrls(posts.value, env.parse),
                                                     manifest.previews, env.now, env.parseTime)))
          ==> written.previews[k] == manifest.previews[k])
  {
    GenerateSpec(Some(manifest), posts, currentHash, storedHash, env);
    if posts.Some? {
      var todo := UrlsToProcess(CollectUrls(posts.value, env.parse), manifest.previews, env.now, env.parseTime);
      if todo != [] {
        WriteEntriesKeys(manifest.previews, todo, env.capture);
        if k !in KeysOf(todo) {
          WriteEntriesUnchanged(manifest.previews, todo, env.capture, k);
        }
      }
    }
  }
}
