/** How `handle_url` routes one URL (image by extension, image by content
    type, then the backend probe), and the two other URL tests that decide
    between a direct stream and the backend: the direct-media shortcut at
    the top of the video download and the routing of discovered video links. */
module Routing {
  import opened Common
  import opened Backend

  const ImageExts: seq<string> := [".jpg", ".jpeg", ".png", ".gif", ".webp", ".bmp", ".avif"]
  const DirectVideoExts: seq<string> := [".mp4", ".webm", ".mkv", ".mov"]
  const DiscoveredFileExts: seq<string> := [".mp4", ".webm", ".mkv", ".mov", ".ts"]

  predicate EndsWithAny(s: string, exts: seq<string>) {
    exists e :: e in exts && EndsWith(s, e)
  }

  /** `url.split("?")[0].lower()`. */
  function BaseLower(url: string): string {
    Lower(Before(url, '?'))
  }

  /** The image-extension test of `handle_url`, applied after the query is cut. */
  predicate IsImageUrl(url: string) {
    EndsWithAny(BaseLower(url), ImageExts)
  }

  /** Outcome of the HEAD request: it failed, or it returned a `Content-Type`
      header (`""` when absent). */
  datatype HeadResult = HeadFailed | HeadOk(contentType: string)

  predicate HeadSaysImage(head: HeadResult) {
    head.HeadOk? && StartsWith(Lower(head.contentType), "image/")
  }

  datatype Route =
    | Blank                          // nothing left after stripping
    | DirectImage                    // image by extension
    | ContentTypeImage               // image by HEAD content type
    | ToBackend(info: Option<Info>)  // supported: backend download
    | ScanPage                       // unsupported: page scan

  /** `handle_url` up to its first hand-off. `extImageRaises` and
      `headImageRaises` say whether the image download raises when it is
      started by the extension test and by the content-type test (the code then
      falls through to the next test); `head` and `probe` are what the HEAD
      request and the backend probe return should they be issued. */
  function RouteUrl(raw: string, extImageRaises: bool, headImageRaises: bool,
                    head: HeadResult, probe: ProbeResult): (r: Route)
    ensures r == Blank <==> Strip(raw) == ""
    ensures r == DirectImage <==> Strip(raw) != "" && IsImageUrl(Strip(raw)) && !extImageRaises
    ensures r == ContentTypeImage <==>
              Strip(raw) != "" && r != DirectImage && HeadSaysImage(head) && !headImageRaises
    ensures r == ContentTypeImage ==> !IsImageUrl(Strip(raw)) || extImageRaises
    ensures r.ToBackend? || r == ScanPage ==>
              (!IsImageUrl(Strip(raw)) || extImageRaises) && (!HeadSaysImage(head) || headImageRaises)
    ensures r.ToBackend? ==> IsSupported(probe) == (true, r.info)
    ensures r == ScanPage ==> !IsSupported(probe).0
    ensures Strip(raw) != "" && r != DirectImage && r != ContentTypeImage ==>
              r == (if IsSupported(probe).0 then ToBackend(IsSupported(probe).1) else ScanPage)
  {
    var url := Strip(raw);
    if url == "" then Blank
    else if IsImageUrl(url) && !extImageRaises then DirectImage
    else if HeadSaysImage(head) && !headImageRaises then ContentTypeImage
    else
      var (supported, info) := IsSupported(probe);
      if supported then ToBackend(info) else ScanPage
  }

  /** A URL whose path ends in an image extension goes to the image
      downloader whatever the HEAD request or the probe would have said:
      neither is issued. */
  lemma ImageExtensionSkipsProbes(raw: string, headImageRaises: bool, head: HeadResult, probe: ProbeResult)
    requires Strip(raw) != "" && IsImageUrl(Strip(raw))
    ensures RouteUrl(raw, false, headImageRaises, head, probe) == DirectImage
  {
  }

  /** An image URL whose first download raises is tried again when the HEAD
      request reports an image content type. */
  lemma ImageRetriedByContentType(raw: string, contentType: string, probe: ProbeResult)
    requires Strip(raw) != "" && IsImageUrl(Strip(raw))
    requires StartsWith(Lower(contentType), "image/")
    ensures RouteUrl(raw, true, false, HeadOk(contentType), probe) == ContentTypeImage
  {
  }

  /** A failed HEAD request is swallowed: the probe decides. */
  lemma HeadFailureFallsToProbe(raw: string, headImageRaises: bool, probe: ProbeResult)
    requires Strip(raw) != "" && !IsImageUrl(Strip(raw))
    ensures RouteUrl(raw, false, headImageRaises, HeadFailed, probe)
         == (if IsSupported(probe).0 then ToBackend(IsSupported(probe).1) else ScanPage)
  {
  }

  lemma {:induction false} BeforeQuery(base: string, query: string)
    requires '?' !in base
    ensures Before(base + "?" + query, '?') == base
    decreases |base|
  {
    var s := base + "?" + query;
    if |base| > 0 {
      assert s[1..] == base[1..] + "?" + query;
      assert '?' !in base[1..] by {
        forall k | 0 <= k < |base[1..]| ensures base[1..][k] != '?' {
          assert base[1..][k] == base[k + 1];
        }
      }
      BeforeQuery(base[1..], query);
      assert [base[0]] + base[1..] == base;
    }
  }

  /** The query string never hides or fakes an image extension. */
  lemma QueryIgnoredForImages(base: string, query: string)
    requires '?' !in base
    ensures IsImageUrl(base + "?" + query) == IsImageUrl(base)
  {
    BeforeQuery(base, query);
    assert Before(base, '?') == base;
  }

  /** The direct-media shortcut at the top of the video download: a media
      extension at the very end of the lower-cased URL, query included, and
      not a YouTube host. */
  predicate IsDirectMediaUrl(url: string) {
    var u := Lower(url);
    EndsWithAny(u, DirectVideoExts) && !Contains(u, "youtube.com") && !Contains(u, "youtu.be")
  }

  datatype LinkRoute =
    | Streamed               // direct stream download succeeded
    | BackendUnprobed        // HLS playlist: backend without a probe
    | BackendProbed(info: Option<Info>)
    | StreamFallback         // unsupported: direct stream as the last try

  /** Routing of one discovered video link. `streamOk` says whether the direct
      stream download would succeed should it be tried. */
  function DiscoveredVideoRoute(v: string, streamOk: bool, probe: ProbeResult): (r: LinkRoute)
    ensures r == Streamed <==> EndsWithAny(BaseLower(v), DiscoveredFileExts) && streamOk
    ensures r == BackendUnprobed ==> Contains(BaseLower(v), ".m3u8")
    ensures r.BackendProbed? ==> IsSupported(probe) == (true, r.info) && !Contains(BaseLower(v), ".m3u8")
    ensures r != Streamed && Contains(BaseLower(v), ".m3u8") ==> r == BackendUnprobed
    ensures r == StreamFallback ==> !IsSupported(probe).0
  {
    var lv := BaseLower(v);
    if EndsWithAny(lv, DiscoveredFileExts) && streamOk then Streamed
    else if Contains(lv, ".m3u8") || EndsWith(lv, ".m3u8") then
      assert Contains(lv, ".m3u8") by {
        if EndsWith(lv, ".m3u8") {
          EndsWithContains(lv, ".m3u8");
        }
      }
      BackendUnprobed
    else
      var (supported, info) := IsSupported(probe);
      if supported then BackendProbed(info) else StreamFallback
  }

  /** The two tests disagree on a query string: the shortcut sees
      `...a.mp4?t=1` as not direct media, while the discovered-link routing
      cuts the query and streams it. */
  lemma QueryStrippingDiffers(probe: ProbeResult)
    ensures !IsDirectMediaUrl("https://h.io/a.mp4?t=1")
    ensures DiscoveredVideoRoute("https://h.io/a.mp4?t=1", true, probe) == Streamed
  {
    QueryHidesDirectMedia();
    var base := "https://h.io/a.mp4";
    assert "https://h.io/a.mp4?t=1" == base + "?" + "t=1";
    assert base[|base| - 4..] == ".mp4";
    QueryCutForDiscoveredLinks(base, "t=1", probe);
  }

  lemma QueryHidesDirectMedia()
    ensures !IsDirectMediaUrl("https://h.io/a.mp4?t=1")
  {
    var url := "https://h.io/a.mp4?t=1";
    var u := Lower(url);
    assert u[|u| - 1] == '1';
    forall e | e in DirectVideoExts
      ensures !EndsWith(u, e)
    {
      NotEndsWithLast(u, e);
    }
  }

  /** Lower-casing keeps a lower-case suffix in place. */
  lemma LowerKeepsSuffix(s: string, t: string)
    requires EndsWith(s, t) && Lower(t) == t
    ensures EndsWith(Lower(s), t)
  {
    var k := |s| - |t|;
    forall i | 0 <= i < |t| ensures Lower(s)[k..][i] == t[i] {
      assert s[k + i] == t[i];
      assert Lower(t)[i] == LowerChar(t[i]);
    }
  }

  /** A discovered link to an `.mp4` is streamed whatever query follows it. */
  lemma QueryCutForDiscoveredLinks(base: string, query: string, probe: ProbeResult)
    requires '?' !in base && EndsWith(base, ".mp4")
    ensures DiscoveredVideoRoute(base + "?" + query, true, probe) == Streamed
  {
    BeforeQuery(base, query);
    assert Lower(".mp4") == ".mp4";
    LowerKeepsSuffix(base, ".mp4");
    assert ".mp4" in DiscoveredFileExts;
  }
}
