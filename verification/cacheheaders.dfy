/**
 * The response hook's cache headers: one year for static assets, 24 hours
 * for images served through the API, nothing otherwise. Path checks are
 * case-sensitive.
 */
module CacheHeaders {
  import opened Wrappers
  import Seqs

  datatype Policy = OneYear | OneDay | Untouched

  const StaticPrefixes: seq<string> := ["/favicons/", "/icons/"]
  const ImageSuffixes: seq<string> := [".png", ".svg", ".jpg", ".jpeg", ".gif", ".webp"]

  const CacheControl: string := "Cache-Control"
  const CdnCacheControl: string := "CDN-Cache-Control"
  const VercelCdnCacheControl: string := "Vercel-CDN-Cache-Control"
  const ContentType: string := "content-type"

  /** A favicon or icon directory path, or a path ending in an image extension. */
  predicate IsStaticAsset(pathname: string) {
    (exists i :: 0 <= i < |StaticPrefixes| && Seqs.StartsWith(pathname, StaticPrefixes[i]))
    || (exists i :: 0 <= i < |ImageSuffixes| && Seqs.EndsWith(pathname, ImageSuffixes[i]))
  }

  /** An API path that names an icon or whose response is an image. */
  predicate IsApiImage(pathname: string, contentType: Option<string>) {
    Seqs.Includes(pathname, "/api/")
    && (Seqs.Includes(pathname, "icon") || (contentType.Some? && Seqs.Includes(contentType.value, "image/")))
  }

  /** Which of the three outcomes `handle` chooses. */
  function Classify(pathname: string, contentType: Option<string>): (p: Policy)
    ensures p == OneYear <==> IsStaticAsset(pathname)
    ensures p == OneDay <==> !IsStaticAsset(pathname) && IsApiImage(pathname, contentType)
    ensures p == Untouched <==> !IsStaticAsset(pathname) && !IsApiImage(pathname, contentType)
  {
    if IsStaticAsset(pathname) then OneYear
    else if IsApiImage(pathname, contentType) then OneDay
    else Untouched
  }

  /** The three cache headers are present with the given browser and CDN values. */
  predicate Carries(h: map<string, string>, browser: string, cdn: string) {
    && CacheControl in h && h[CacheControl] == browser
    && CdnCacheControl in h && h[CdnCacheControl] == cdn
    && VercelCdnCacheControl in h && h[VercelCdnCacheControl] == cdn
  }

  /** `handle`: the response headers after the hook, read and written through a header map. */
  function Handle(pathname: string, headers: map<string, string>): (h: map<string, string>)
    ensures var p := Classify(pathname, if ContentType in headers then Some(headers[ContentType]) else None);
            && (p == Untouched ==> h == headers)
            && (p == OneYear ==> Carries(h, "public, max-age=31536000, immutable", "public, max-age=31536000"))
            && (p == OneDay ==> Carries(h, "public, max-age=86400", "public, max-age=86400"))
    ensures forall k :: k != CacheControl && k != CdnCacheControl && k != VercelCdnCacheControl ==>
              (k in h <==> k in headers) && (k in h ==> h[k] == headers[k])
  {
    var contentType := if ContentType in headers then Some(headers[ContentType]) else None;
    match Classify(pathname, contentType)
    case OneYear =>
      headers[CacheControl := "public, max-age=31536000, immutable"]
             [CdnCacheControl := "public, max-age=31536000"]
             [VercelCdnCacheControl := "public, max-age=31536000"]
    case OneDay =>
      headers[CacheControl := "public, max-age=86400"]
             [CdnCacheControl := "public, max-age=86400"]
             [VercelCdnCacheControl := "public, max-age=86400"]
    case Untouched => headers
  }

  /** The static rule wins: an API path ending in an image extension gets the one-year policy. */
  lemma StaticRuleFirst(pathname: string, contentType: Option<string>, i: int)
    requires 0 <= i < |ImageSuffixes| && Seqs.EndsWith(pathname, ImageSuffixes[i])
    ensures Classify(pathname, contentType) == OneYear
  {
  }

  /** `.PNG` is not `.png`: the suffix check is case-sensitive, so such a path outside the asset directories is not cached for a year. */
  lemma UpperCaseExtensionNotStatic(pathname: string)
    requires Seqs.EndsWith(pathname, ".PNG")
    requires !Seqs.StartsWith(pathname, "/favicons/") && !Seqs.StartsWith(pathname, "/icons/")
    ensures !IsStaticAsset(pathname)
    ensures !Seqs.Includes(pathname, "/api/") ==> Classify(pathname, None) == Untouched
  {
    var last := pathname[|pathname| - 1];
    assert last == 'G' by {
      LastOfSuffix(pathname, ".PNG");
    }
    forall i | 0 <= i < |ImageSuffixes|
      ensures !Seqs.EndsWith(pathname, ImageSuffixes[i])
    {
      var t := ImageSuffixes[i];
      assert 'a' <= t[|t| - 1] <= 'z';
      if Seqs.EndsWith(pathname, t) {
        LastOfSuffix(pathname, t);
      }
    }
  }

  lemma LastOfSuffix(s: string, t: string)
    requires |t| > 0 && Seqs.EndsWith(s, t)
    ensures s[|s| - 1] == t[|t| - 1]
  {
    assert s[|s| - |t|..][|t| - 1] == s[|s| - 1];
  }
}
