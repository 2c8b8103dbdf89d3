/**
 * Detail-page link resolution: an href that starts with the literal "http" is
 * used as it is; any other href is appended to the base URL after a "/",
 * with all of its own leading slashes removed (str.lstrip('/')).
 */
module Links {
  import opened Text

  predicate StartsWith(s: string, prefix: string) {
    |prefix| <= |s| && s[..|prefix|] == prefix
  }

  predicate IsSlash(c: char) {
    c == '/'
  }

  /** str.lstrip('/'): href without its leading slashes. */
  function LStripSlashes(href: string): (rest: string)
    ensures |rest| <= |href|
    ensures rest == href[|href| - |rest|..]
    ensures forall i :: 0 <= i < |href| - |rest| ==> href[i] == '/'
    ensures rest == [] || rest[0] != '/'
  {
    href[RunLength(href, IsSlash)..]
  }

  function ResolveLink(base: string, href: string): (url: string) {
    if !StartsWith(href, "http") then base + "/" + LStripSlashes(href) else href
  }

  /** An href starting with "http" (any case-sensitive continuation, such as
      "https://" or "httpx") is returned unchanged; any other href gives the
      base URL, one "/", and the href with every leading "/" removed. */
  lemma ResolveLinkCases(base: string, href: string)
    ensures StartsWith(href, "http") ==> ResolveLink(base, href) == href
    ensures !StartsWith(href, "http") ==>
      var url := ResolveLink(base, href);
      var rest := url[|base| + 1..];
      && |base| + 1 <= |url|
      && url[..|base| + 1] == base + "/"
      && (rest == [] || rest[0] != '/')
      && |rest| <= |href|
      && href == href[..|href| - |rest|] + rest
      && forall i :: 0 <= i < |href| - |rest| ==> href[i] == '/'
  {
    if !StartsWith(href, "http") {
      var rest := LStripSlashes(href);
      var url := base + "/" + rest;
      assert url[..|base| + 1] == base + "/";
      assert url[|base| + 1..] == rest;
    }
  }

  /** Relative links with one or with several leading slashes resolve alike. */
  lemma LeadingSlashesIrrelevant(base: string, href: string)
    requires !StartsWith(href, "http")
    ensures ResolveLink(base, "/" + href) == ResolveLink(base, href)
  {
    var h := "/" + href;
    assert !StartsWith(h, "http") by {
      if |h| >= 4 { assert h[0] != "http"[0]; }
    }
    assert RunLength(h, IsSlash) == 1 + RunLength(href, IsSlash) by {
      assert h[1..] == href;
    }
    assert h[1 + RunLength(href, IsSlash)..] == href[RunLength(href, IsSlash)..];
  }
}
