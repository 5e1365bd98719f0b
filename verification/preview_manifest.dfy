/** The link-preview manifest (app/lib/link-previews/types.ts) and the entry
    writes both preview scripts perform: the manifest key of a URL, the
    screenshot file it names, and the record stored after a capture. */
module PreviewManifest {
  import opened Options
  import opened JsText
  import opened StringHash
  import opened Seqs

  const ScreenshotWidth: int := 1200
  const ScreenshotHeight: int := 630
  const ImageFormat: string := "jpeg"
  const PreviewDirectory: string := "/previews/"

  datatype PreviewStatus = Success | Failed | Timeout

  datatype LinkPreviewEntry = LinkPreviewEntry(
    url: string,
    screenshotPath: string,
    width: int,
    height: int,
    generatedAt: string,
    status: PreviewStatus,
    errorMessage: Option<string>)

  /** `previews` is keyed by `HashUrl` of each entry's URL. */
  datatype LinkPreviewManifest = LinkPreviewManifest(
    generated: string,
    version: string,
    previews: map<string, LinkPreviewEntry>)

  /** What one screenshot attempt reports (`captureScreenshot`), together
      with the ISO time at which the entry for it is built. */
  datatype CaptureResult = CaptureResult(success: bool, error: Option<string>, finishedAt: string)

  /** The browser, seen from the scripts: the result of capturing a URL. */
  type Capture = string -> CaptureResult

  /** `hashUrl`: the 32-bit string hash of the URL as a 12-character
      lower-case hexadecimal key. */
  function HashUrl(url: string): (key: string)
    ensures |key| == 12 && AllHex(key)
    ensures key[..4] == "0000"
    ensures HexValue(key) == Abs(HashOf(url))
  {
    HexKey(HashOf(url))
  }

  /** `getScreenshotFilename`: the key followed by the image extension. */
  function ScreenshotFilename(url: string): string {
    HashUrl(url) + "." + ImageFormat
  }

  /** The public path stored in an entry: `/previews/<key>.jpeg`. */
  function ScreenshotPath(url: string): string {
    PreviewDirectory + ScreenshotFilename(url)
  }

  /** The manifest key named by a screenshot path. */
  function KeyOfPath(path: string): string {
    if |path| < 22 then path else path[10..22]
  }

  /** The path of the screenshot stored under a 12-character key. */
  function PathOfKey(key: string): string {
    PreviewDirectory + key + "." + ImageFormat
  }

  /** Reading the key back from a path gives the key the path was built
      from; so different keys give different paths. */
  lemma KeyOfPathOfKey(key: string)
    requires |key| == 12
    ensures |PathOfKey(key)| == 27
    ensures PathOfKey(key)[..10] == "/previews/" && PathOfKey(key)[22..] == ".jpeg"
    ensures KeyOfPath(PathOfKey(key)) == key
  {
  }

  /** A screenshot path has a fixed shape and names the URL's key; two URLs
      share a screenshot file exactly when they share a key. */
  lemma ScreenshotPathShape(url: string, other: string)
    ensures |ScreenshotPath(url)| == 27
    ensures ScreenshotPath(url)[..10] == "/previews/" && ScreenshotPath(url)[22..] == ".jpeg"
    ensures KeyOfPath(ScreenshotPath(url)) == HashUrl(url)
    ensures ScreenshotPath(url) == ScreenshotPath(other) <==> HashUrl(url) == HashUrl(other)
  {
    var k, k' := HashUrl(url), HashUrl(other);
    assert ScreenshotPath(url) == PathOfKey(k);
    assert ScreenshotPath(other) == PathOfKey(k');
    KeyOfPathOfKey(k);
    KeyOfPathOfKey(k');
  }

  /** The entry either script stores for `url` after capturing it. */
  function EntryFor(url: string, result: CaptureResult): (e: LinkPreviewEntry)
    ensures e.status != Timeout
  {
    LinkPreviewEntry(url, ScreenshotPath(url), ScreenshotWidth, ScreenshotHeight,
                     result.finishedAt, if result.success then Success else Failed,
                     result.error)
  }

  /** The keys `HashUrl` gives to a list of URLs. */
  function KeysOf(urls: seq<string>): set<string> {
    KeySet(urls, HashUrl)
  }

  /** No later URL in the list has the same key as `urls[j]`, so the write
      for `urls[j]` is the one that survives. */
  predicate LastWithKey(urls: seq<string>, j: nat)
    requires j < |urls|
  {
    LastOfKey(urls, j, HashUrl)
  }

  /** Capturing the URLs in order and writing each entry under its key
      (`results[hash] = {…}`, `existingPreviews[hash] = {…}`). */
  function WriteEntries(previews: map<string, LinkPreviewEntry>, urls: seq<string>,
                        capture: Capture): map<string, LinkPreviewEntry>
  {
    WriteAll(previews, urls, HashUrl, Entries(capture))
  }

  /** The entry built for each URL from its capture. */
  function Entries(capture: Capture): string -> LinkPreviewEntry {
    u => EntryFor(u, capture(u))
  }

  /** Writing entries adds exactly the keys of the processed URLs. */
  lemma WriteEntriesKeys(previews: map<string, LinkPreviewEntry>, urls: seq<string>, capture: Capture)
    ensures WriteEntries(previews, urls, capture).Keys == previews.Keys + KeysOf(urls)
  {
    WriteAllKeys(previews, urls, HashUrl, Entries(capture));
  }

  /** Every entry whose key no processed URL has is left as it was. */
  lemma WriteEntriesUnchanged(previews: map<string, LinkPreviewEntry>, urls: seq<string>,
                              capture: Capture, k: string)
    requires k in previews && k !in KeysOf(urls)
    ensures k in WriteEntries(previews, urls, capture)
    ensures WriteEntries(previews, urls, capture)[k] == previews[k]
  {
    WriteAllUnchanged(previews, urls, HashUrl, Entries(capture), k);
  }

  /** The key of `urls[j]` holds the entry built from capturing `urls[j]`
      when no later URL shares that key. */
  lemma WriteEntriesLast(previews: map<string, LinkPreviewEntry>, urls: seq<string>,
                         capture: Capture, j: nat)
    requires j < |urls| && LastWithKey(urls, j)
    ensures HashUrl(urls[j]) in WriteEntries(previews, urls, capture)
    ensures WriteEntries(previews, urls, capture)[HashUrl(urls[j])] == EntryFor(urls[j], capture(urls[j]))
  {
    WriteAllLast(previews, urls, HashUrl, Entries(capture), j);
  }

  /** Writing a list in two parts is writing it in one go. */
  lemma WriteEntriesAppend(previews: map<string, LinkPreviewEntry>,
                           a: seq<string>, b: seq<string>, capture: Capture)
    ensures WriteEntries(previews, a + b, capture)
         == WriteEntries(WriteEntries(previews, a, capture), b, capture)
  {
    WriteAllAppend(previews, a, b, HashUrl, Entries(capture));
  }
}
