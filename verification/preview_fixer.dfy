/** The repair pass over the link-preview manifest
    (scripts/fix-failed-previews.ts): captures URLs that have no entry, and
    with `--all` also those whose entry failed, one at a time, then rewrites
    the manifest keeping its version. */
module PreviewFixer {
  import opened Options
  import opened Seqs
  import opened PreviewManifest
  import opened PreviewUrls
  import opened Content

  /** The work list and the two lists reported beside it. */
  datatype Selection = Selection(toProcess: seq<string>, missing: seq<string>, failed: seq<string>)

  /** The selection loop: a URL without an entry is missing and processed;
      a URL whose entry failed is processed only when `retryAll`; any other
      URL is skipped. There is no age check. */
  function Select(urls: seq<string>, previews: map<string, LinkPreviewEntry>, retryAll: bool): (s: Selection)
    ensures |s.toProcess| == |s.missing| + |s.failed|
    ensures forall u :: u in s.toProcess <==> u in s.missing || u in s.failed
    ensures forall u :: u in s.missing <==> u in urls && HashUrl(u) !in previews
    ensures forall u :: u in s.failed <==>
              u in urls && retryAll && HashUrl(u) in previews && previews[HashUrl(u)].status == Failed
    ensures NoDuplicates(urls) ==> NoDuplicates(s.toProcess)
  {
    SelectBy(urls, previews, retryAll, HashUrl)
  }

  /** The selection loop for any key function; the fixer keys by `HashUrl`. */
  function SelectBy(urls: seq<string>, previews: map<string, LinkPreviewEntry>, retryAll: bool,
                    key: string -> string): (s: Selection)
    ensures |s.toProcess| == |s.missing| + |s.failed|
    ensures forall u :: u in s.toProcess <==> u in s.missing || u in s.failed
    ensures forall u :: u in s.missing <==> u in urls && key(u) !in previews
    ensures forall u :: u in s.failed <==>
              u in urls && retryAll && key(u) in previews && previews[key(u)].status == Failed
    ensures NoDuplicates(urls) ==> NoDuplicates(s.toProcess)
  {
    if urls == [] then Selection([], [], [])
    else
      var n := |urls| - 1;
      var u := urls[n];
      var s := SelectBy(urls[..n], previews, retryAll, key);
      assert forall x :: x in urls <==> x == u || x in urls[..n] by {
        assert urls == urls[..n] + [u];
      }
      assert NoDuplicates(urls) ==> NoDuplicates(urls[..n]) && u !in urls[..n];
      var k := key(u);
      if k !in previews then Selection(s.toProcess + [u], s.missing + [u], s.failed)
      else if previews[k].status == Failed && retryAll then
        Selection(s.toProcess + [u], s.missing, s.failed + [u])
      else s
  }

  /** Whether the fixer processes a URL. */
  predicate Selected(u: string, previews: map<string, LinkPreviewEntry>, retryAll: bool) {
    var key := HashUrl(u);
    key !in previews || (previews[key].status == Failed && retryAll)
  }

  /** The work list holds exactly the URLs whose entry is missing, plus the
      failed ones when `retryAll`; successful and timed-out entries are
      never processed. */
  lemma SelectRule(urls: seq<string>, previews: map<string, LinkPreviewEntry>,
                   retryAll: bool, u: string)
    ensures u in Select(urls, previews, retryAll).toProcess <==> u in urls && Selected(u, previews, retryAll)
    ensures (u in urls && HashUrl(u) in previews && previews[HashUrl(u)].status in {Success, Timeout})
            ==> u !in Select(urls, previews, retryAll).toProcess
  {
  }

  /** The sequential capture loop: the entries after writing each processed
      URL's entry, and how many captures succeeded and failed. */
  datatype FixResult = FixResult(previews: map<string, LinkPreviewEntry>, successfulFixes: nat, stillFailed: nat)

  function FixLoop(previews: map<string, LinkPreviewEntry>, urls: seq<string>, capture: Capture): (r: FixResult)
    ensures r.successfulFixes + r.stillFailed == |urls|
    ensures r.previews == WriteEntries(previews, urls, capture)
    decreases |urls|
  {
    if urls == [] then FixResult(previews, 0, 0)
    else
      var u := urls[0];
      var result := capture(u);
      var rest := FixLoop(previews[HashUrl(u) := EntryFor(u, result)], urls[1..], capture);
      if result.success then rest.(successfulFixes := rest.successfulFixes + 1)
      else rest.(stillFailed := rest.stillFailed + 1)
  }

  /** The successful fixes are the captures that succeeded. */
  lemma {:induction false} FixLoopCounts(previews: map<string, LinkPreviewEntry>, urls: seq<string>,
                                         capture: Capture)
    ensures FixLoop(previews, urls, capture).successfulFixes == |Succeeded(urls, capture)|
    decreases |urls|
  {
    if urls != [] {
      var u := urls[0];
      FixLoopCounts(previews[HashUrl(u) := EntryFor(u, capture(u))], urls[1..], capture);
    }
  }

  /** The URLs whose capture succeeds. */
  function Succeeded(urls: seq<string>, capture: Capture): seq<string> {
    if urls == [] then []
    else (if capture(urls[0]).success then [urls[0]] else []) + Succeeded(urls[1..], capture)
  }

  /** What a run leaves behind: the manifest written (none when the run
      stops early), and the counts reported. */
  datatype FixOutcome = FixOutcome(written: Option<LinkPreviewManifest>, successfulFixes: nat, stillFailed: nat)

  /** `main`. `manifest` is the manifest on disk, `posts` the content build's
      output (none where either cannot be loaded), `timestamp` the ISO time
      of the rewrite. */
  function Fix(retryAll: bool, manifest: Option<LinkPreviewManifest>, posts: Option<seq<Post>>,
               parse: UrlParser, capture: Capture, timestamp: string): FixOutcome
  {
    match manifest
    case None => FixOutcome(None, 0, 0)
    case Some(m) =>
      match posts
      case None => FixOutcome(None, 0, 0)
      case Some(ps) =>
        var todo := Select(CollectUrls(ps, parse), m.previews, retryAll).toProcess;
        if todo == [] then FixOutcome(None, 0, 0)
        else
          var r := FixLoop(m.previews, todo, capture);
          FixOutcome(Some(LinkPreviewManifest(timestamp, m.version, r.previews)),
                     r.successfulFixes, r.stillFailed)
  }

  /** Nothing is written without a manifest, without content, or with an
      empty work list; a written manifest keeps the version, keeps every
      entry whose key was not processed, holds for each processed URL whose
      key no later URL shares the entry built from its capture, and the
      fixed and still-failing counts add up to the number processed. */
  lemma FixSpec(retryAll: bool, manifest: Option<LinkPreviewManifest>, posts: Option<seq<Post>>,
                parse: UrlParser, capture: Capture, timestamp: string)
    ensures var out := Fix(retryAll, manifest, posts, parse, capture, timestamp);
      && (manifest.None? || posts.None? ==> out.written.None?)
      && (manifest.Some? && posts.Some? ==>
            var m := manifest.value;
            var todo := Select(CollectUrls(posts.value, parse), m.previews, retryAll).toProcess;
            && (todo == [] <==> out.written.None?)
            && (out.written.Some? ==>
                  && out.written.value.version == m.version
                  && out.written.value.previews.Keys == m.previews.Keys + KeysOf(todo)
                  && out.successfulFixes + out.stillFailed == |todo|
                  && (forall k :: k in m.previews && k !in KeysOf(todo) ==>
                        out.written.value.previews[k] == m.previews[k])
                  && (forall j :: 0 <= j < |todo| && LastWithKey(todo, j) ==>
                        out.written.value.previews[HashUrl(todo[j])] == EntryFor(todo[j], capture(todo[j])))))
  {
    if manifest.Some? && posts.Some? {
      var m := manifest.value;
      var todo := Select(CollectUrls(posts.value, parse), m.previews, retryAll).toProcess;
      if todo != [] {
        WriteEntriesKeys(m.previews, todo, capture);
        forall k | k in m.previews && k !in KeysOf(todo)
          ensures WriteEntries(m.previews, todo, capture)[k] == m.previews[k]
        {
          WriteEntriesUnchanged(m.previews, todo, capture, k);
        }
        forall j | 0 <= j < |todo| && LastWithKey(todo, j)
          ensures WriteEntries(m.previews, todo, capture)[HashUrl(todo[j])] == EntryFor(todo[j], capture(todo[j]))
        {
          WriteEntriesLast(m.previews, todo, capture, j);
        }
      }
    }
  }
}
