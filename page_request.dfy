/**
 * The checks `getWikiContent` makes on the URL it is given before anything is fetched:
 * the host-name gate and the extraction of the page name, and the MediaWiki API
 * request URL built from them (src/app/actions.ts, lines 14-30).
 */
module PageRequest {
  import opened Wrappers
  import opened Text

  /** The parts of a parsed URL the core reads: `hostname` and `origin` of a WHATWG `URL`. */
  datatype UrlParts = UrlParts(hostname: string, origin: string)

  const HostSuffix := "fandom.com"
  const WikiMarker := "/wiki/"

  /** The host-name gate: a plain suffix test, with no requirement of a dot before the suffix. */
  predicate IsFandomHost(hostname: string) {
    EndsWith(hostname, HostSuffix)
  }

  /** Without a dot boundary, any host that merely ends in the same letters passes the
      gate, while a host that only contains them further left does not. */
  lemma NoDotBoundary(prefix: string)
    ensures IsFandomHost(prefix + HostSuffix)
    ensures !IsFandomHost(HostSuffix + ".evil.org")
  {
    var h := prefix + HostSuffix;
    assert h[|h| - |HostSuffix|..] == HostSuffix;
    var g := HostSuffix + ".evil.org";
    assert g[|g| - 1] == 'g';
  }

  /** `url.lastIndexOf('/wiki/')`, or None when `url.includes('/wiki/')` is false. */
  function LastMarker(url: string): (r: Option<nat>)
    ensures r.Some? ==> StartsWith(url, r.value, WikiMarker)
    ensures r.Some? ==> forall k :: r.value < k ==> !StartsWith(url, k, WikiMarker)
    ensures r.None? ==> forall k :: !StartsWith(url, k, WikiMarker)
  {
    var P := (k: nat) => StartsWith(url, k, WikiMarker);
    var r := LastWhere(0, |url| + 1, P);
    if r.Some? then
      forall k: nat | r.value < k ensures !StartsWith(url, k, WikiMarker) {
        if k < |url| + 1 { assert !P(k); }
      }
      r
    else
      forall k: nat ensures !StartsWith(url, k, WikiMarker) {
        if k < |url| + 1 { assert !P(k); }
      }
      r
  }

  /** The page name: everything after the last `/wiki/` of the whole URL string, query and
      fragment included; None when the marker is absent or nothing follows its last
      occurrence, the two cases the source turns into its "Could not determine page
      name" error. */
  function PageName(url: string): (r: Option<string>)
    ensures r.None? <==> (forall k :: !StartsWith(url, k, WikiMarker)) || EndsWith(url, WikiMarker)
    ensures r.Some? ==> r.value != [] && |r.value| + |WikiMarker| <= |url|
    ensures r.Some? ==> var k := |url| - |r.value| - |WikiMarker|;
                        && StartsWith(url, k, WikiMarker)
                        && r.value == url[k + |WikiMarker|..]
                        && forall m :: k < m ==> !StartsWith(url, m, WikiMarker)
  {
    match LastMarker(url)
    case None => None
    case Some(k) =>
      if k + |WikiMarker| == |url| then None
      else
        assert !EndsWith(url, WikiMarker) by {
          if EndsWith(url, WikiMarker) { assert StartsWith(url, |url| - |WikiMarker|, WikiMarker); }
        }
        Some(url[k + |WikiMarker|..])
  }

  /** Whatever follows the marker is the page name, query and fragment included, as long
      as it holds no further `/`. */
  lemma PageNameOfArticleUrl(base: string, name: string)
    requires name != [] && '/' !in name
    ensures PageName(base + WikiMarker + name) == Some(name)
  {
    var url := base + WikiMarker + name;
    assert StartsWith(url, |base|, WikiMarker);
    forall k: nat | |base| < k && k + 6 <= |url| ensures !StartsWith(url, k, WikiMarker) {
      assert url[k + 5] == name[k + 5 - |base| - 6];
    }
  }

  /** Shifting a text by a prefix shifts every occurrence of the marker with it. */
  lemma MarkerShift(base: string, tail: string, k: nat)
    ensures StartsWith(base + tail, |base| + k, WikiMarker) <==> StartsWith(tail, k, WikiMarker)
  {
    var url := base + tail;
    if k + |WikiMarker| <= |tail| {
      assert url[|base| + k..|base| + k + |WikiMarker|] == tail[k..k + |WikiMarker|];
    }
  }

  /** Behind a prefix, the last marker of a text that starts with one moves with it. */
  lemma LastMarkerShift(base: string, tail: string)
    requires StartsWith(tail, 0, WikiMarker)
    ensures LastMarker(tail).Some? && LastMarker(base + tail) == Some(|base| + LastMarker(tail).value)
  {
    var k2 := LastMarker(tail).value;
    MarkerShift(base, tail, 0);
    MarkerShift(base, tail, k2);
    var k1 := LastMarker(base + tail).value;
    assert !(k1 < |base| + k2);
    MarkerShift(base, tail, k1 - |base|);
  }

  /** Of several markers the last one wins: once a marker has been seen, whatever came
      before it has no bearing on the page name. */
  lemma PageNameAfterLastMarker(base: string, tail: string)
    requires StartsWith(tail, 0, WikiMarker)
    ensures PageName(base + tail) == PageName(tail)
  {
    LastMarkerShift(base, tail);
    PageNameShift(base, tail, LastMarker(tail).value);
  }

  /** Two texts whose last markers are followed by the same text have the same page name. */
  lemma PageNameShift(base: string, tail: string, k: nat)
    requires LastMarker(tail) == Some(k) && LastMarker(base + tail) == Some(|base| + k)
    ensures PageName(base + tail) == PageName(tail)
  {
    assert k + |WikiMarker| <= |tail|;
    if k + |WikiMarker| < |tail| {
      SuffixBehindPrefix(base, tail, k + |WikiMarker|);
    }
  }

  /** A suffix of the second part of a concatenation is a suffix of the whole. */
  lemma SuffixBehindPrefix(base: string, tail: string, n: nat)
    requires n <= |tail|
    ensures (base + tail)[|base| + n..] == tail[n..]
  {
  }

  /** A URL that ends with the marker has no page name, whatever precedes it. */
  lemma PageNameEmpty(base: string)
    ensures PageName(base + WikiMarker) == None
  {
    var url := base + WikiMarker;
    assert url[|url| - |WikiMarker|..] == WikiMarker;
  }

  const ApiPath := "/api.php?action=parse&page="
  const ApiFormat := "&format=json&prop=text&formatversion=2"

  /** The request URL for the MediaWiki parse API; `encodedName` is the page name after
      `encodeURIComponent`. */
  function ApiUrl(origin: string, encodedName: string): (r: string)
    ensures StartsWith(r, 0, origin + ApiPath)
    ensures EndsWith(r, encodedName + ApiFormat)
    ensures |r| == |origin + ApiPath| + |encodedName| + |ApiFormat|
  {
    origin + ApiPath + encodedName + ApiFormat
  }

  /** The request URL can be taken apart again: the encoded name is exactly the text
      between `page=` and the fixed format parameters, so different names give different
      requests. */
  lemma ApiUrlNameReadBack(origin: string, encodedName: string)
    ensures var r := ApiUrl(origin, encodedName);
            var a := |origin + ApiPath|;
            a <= |r| - |ApiFormat| && r[a..|r| - |ApiFormat|] == encodedName
  {
    var r := ApiUrl(origin, encodedName);
    assert r == (origin + ApiPath) + encodedName + ApiFormat;
  }

  /** Different encoded names give different request URLs. */
  lemma ApiUrlInjective(origin: string, n1: string, n2: string)
    requires ApiUrl(origin, n1) == ApiUrl(origin, n2)
    ensures n1 == n2
  {
    ApiUrlNameReadBack(origin, n1);
    ApiUrlNameReadBack(origin, n2);
  }

}
