/** Which URLs get a link preview: the classification predicates and the
    URL collection shared, character for character, by
    scripts/generate-link-previews.ts and scripts/fix-failed-previews.ts.
    WHATWG URL parsing is a parameter: it yields the protocol and hostname,
    or nothing where `new URL(url)` throws. */
module PreviewUrls {
  import opened Options
  import opened JsText
  import opened Seqs
  import opened HrefScan
  import opened Content

  datatype ParsedUrl = ParsedUrl(protocol: string, hostname: string)

  type UrlParser = string -> Option<ParsedUrl>

  /** Hosts whose pages are never captured. */
  const ExcludedDomains: seq<string> := [
    "twitter.com", "x.com", "facebook.com", "instagram.com", "linkedin.com",
    "youtube.com", "youtu.be", "tiktok.com", "reddit.com", "discord.com", "slack.com"
  ]

  /** The site's own domain: links to it are internal. */
  const SiteDomain: string := "braydoncoyer.dev"

  /** One of the internal patterns `/^\//`, `/^#/`, `/braydoncoyer\.dev/`
      matches. */
  predicate IsInternal(url: string) {
    "/" <= url || "#" <= url || Contains(url, SiteDomain)
  }

  /** `isExternalUrl`. */
  predicate IsExternalUrl(url: string, parse: UrlParser) {
    && url != []
    && !IsInternal(url)
    && match parse(url)
       case None => false
       case Some(p) => p.protocol == "http:" || p.protocol == "https:"
  }

  /** Some excluded domain occurs in the hostname (`hostname.includes`). */
  predicate IsExcludedHost(hostname: string) {
    exists k :: 0 <= k < |ExcludedDomains| && Contains(hostname, ExcludedDomains[k])
  }

  /** `shouldGeneratePreview`. */
  predicate ShouldGeneratePreview(url: string, parse: UrlParser) {
    && IsExternalUrl(url, parse)
    && match parse(url)
       case None => false
       case Some(p) => !IsExcludedHost(p.hostname)
  }

  /** The empty string, site-relative paths, fragments and links to the site
      itself are never external; any other URL is external exactly when it
      parses with an `http:` or `https:` protocol. */
  lemma ExternalUrlRules(url: string, parse: UrlParser)
    ensures url == [] ==> !IsExternalUrl(url, parse)
    ensures ("/" <= url || "#" <= url) ==> !IsExternalUrl(url, parse)
    ensures Contains(url, SiteDomain) ==> !IsExternalUrl(url, parse)
    ensures url != [] && !IsInternal(url) ==>
              (IsExternalUrl(url, parse) <==>
                 parse(url).Some? && parse(url).value.protocol in {"http:", "https:"})
  {
  }

  /** The host is the domain itself or one of its subdomains. */
  predicate OnDomain(host: string, domain: string) {
    host == domain || (|domain| < |host| && host[|host| - |domain| - 1..] == "." + domain)
  }

  /** The host belongs to one of the excluded sites. */
  predicate OnExcludedDomain(host: string) {
    exists k :: 0 <= k < |ExcludedDomains| && OnDomain(host, ExcludedDomains[k])
  }

  /** A domain is a substring of every host on it. */
  lemma OnDomainContains(host: string, domain: string)
    requires OnDomain(host, domain)
    ensures Contains(host, domain)
  {
    if host == domain {
      assert domain <= host[0..];
    } else {
      assert domain <= host[|host| - |domain|..];
    }
  }

  /** No URL whose host is one of the excluded sites, or a subdomain of
      one, is ever extracted for a preview. */
  lemma ExcludedSitesNeverPreviewed(code: string, parse: UrlParser)
    ensures forall u :: u in ExtractUrls(code, parse) ==>
              parse(u).Some? && !OnExcludedDomain(parse(u).value.hostname)
  {
    forall u | u in ExtractUrls(code, parse)
      ensures parse(u).Some? && !OnExcludedDomain(parse(u).value.hostname)
    {
      var host := parse(u).value.hostname;
      if OnExcludedDomain(host) {
        var k :| 0 <= k < |ExcludedDomains| && OnDomain(host, ExcludedDomains[k]);
        OnDomainContains(host, ExcludedDomains[k]);
      }
    }
  }

  /** A host is not on a shorter domain when the would-be suffix `.domain`
      differs from the host's tail at some position `j`. */
  lemma NotOnDomainAt(host: string, domain: string, j: nat)
    requires |domain| < |host| && j <= |domain|
    requires host[|host| - |domain| - 1 + j] != ("." + domain)[j]
    ensures !OnDomain(host, domain)
  {
    var tail := host[|host| - |domain| - 1..];
    assert tail[j] == host[|host| - |domain| - 1 + j];
  }

  /** The exclusion is wider than the excluded sites: `www.netflix.com` is
      on none of them, but it contains `x.com`, so it is excluded too. */
  lemma SubstringHostsExcluded(parse: UrlParser, url: string)
    requires parse(url) == Some(ParsedUrl("https:", "www.netflix.com"))
    ensures !OnExcludedDomain(parse(url).value.hostname)
    ensures !ShouldGeneratePreview(url, parse)
  {
    var host := "www.netflix.com";
    forall k | 0 <= k < |ExcludedDomains| ensures !OnDomain(host, ExcludedDomains[k]) {
      var d := ExcludedDomains[k];
      // Only the 11-character domains line a dot up with the one in `www.`.
      NotOnDomainAt(host, d, if |d| == 11 then 1 else 0);
    }
    assert "x.com" <= host[10..];
    assert Contains(host, ExcludedDomains[1]);
  }

  /** The URLs kept from a list of captures, in order. */
  function KeepPreviewable(urls: seq<string>, parse: UrlParser): (r: seq<string>)
    ensures forall u :: u in r <==> u in urls && ShouldGeneratePreview(u, parse)
  {
    if urls == [] then []
    else
      var rest := KeepPreviewable(urls[1..], parse);
      assert forall u :: u in urls <==> u == urls[0] || u in urls[1..] by {
        assert urls == [urls[0]] + urls[1..];
      }
      if ShouldGeneratePreview(urls[0], parse) then [urls[0]] + rest else rest
  }

  /** `extractUrlsFromCode`: every previewable `href` capture, first
      occurrences only, in the order the three patterns meet them. */
  function ExtractUrls(code: string, parse: UrlParser): (r: seq<string>)
    ensures NoDuplicates(r)
    ensures forall u :: u in r <==> u in Hrefs(code) && ShouldGeneratePreview(u, parse)
  {
    AddAll([], KeepPreviewable(Hrefs(code), parse))
  }

  /** The URLs a post contributes: none for a draft. */
  function PostUrls(p: Post, parse: UrlParser): (r: seq<string>)
    ensures p.draft ==> r == []
    ensures !p.draft ==> r == ExtractUrls(p.code, parse)
  {
    if p.draft then [] else ExtractUrls(p.code, parse)
  }

  /** The `allUrls` set both scripts build: each published post's extracted
      URLs added in turn to one insertion-ordered set. */
  function CollectUrls(posts: seq<Post>, parse: UrlParser): (r: seq<string>)
    ensures NoDuplicates(r)
    ensures forall u :: u in r <==>
              exists k :: 0 <= k < |posts| && !posts[k].draft && u in ExtractUrls(posts[k].code, parse)
  {
    AddEach(posts, p => PostUrls(p, parse))
  }

  /** Draft posts contribute no URLs: collecting over all posts gives what
      collecting over the published ones gives. */
  lemma {:induction false} DraftsContributeNothing(posts: seq<Post>, parse: UrlParser)
    ensures CollectUrls(posts, parse) == CollectUrls(Published(posts), parse)
  {
    if posts != [] {
      var n := |posts| - 1;
      var pub := Published(posts[..n]);
      DraftsContributeNothing(posts[..n], parse);
      if !posts[n].draft {
        var pub' := pub + [posts[n]];
        assert pub'[..|pub'| - 1] == pub;
      }
    }
  }

  /** Every collected URL is previewable and was captured by an `href`
      pattern in a published post. */
  lemma CollectedUrlsArePreviewable(posts: seq<Post>, parse: UrlParser)
    ensures forall u :: u in CollectUrls(posts, parse) ==>
              && ShouldGeneratePreview(u, parse)
              && exists k :: 0 <= k < |posts| && !posts[k].draft && u in Hrefs(posts[k].code)
  {
  }
}
