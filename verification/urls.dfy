/** The URL rewriting engine of the plugin: the uploads path, the two string-leaf
    rewrites, and the two filters that apply them across a content tree. */
module Urls {
  import opened Strings
  import opened Content

  /** What `wp_upload_dir()` reports, as far as the uploads path needs it. */
  datatype UploadDir = UploadDir(error: bool, baseurl: string)

  /** The host's configuration. `wpurl` (the WordPress address) and `url` (the site
      address) are the values of `get_bloginfo` after `trailingslashit`. */
  datatype Site = Site(wpurl: string, url: string, uploads: UploadDir)

  /** The uploads path used when it cannot be derived from `baseurl`. */
  const FallbackUploadPath: string := "wp-content/uploads"

  const SrcAttr: string := "src=\""
  const HrefAttr: string := "href=\""

  /** A root-relative reference into the uploads directory behind an attribute. */
  function UploadRef(attr: string, up: string): string
  {
    attr + "/" + up
  }

  /** `s` holds a `src="/<up>` or `href="/<up>` reference. */
  predicate HasUploadRef(s: string, up: string)
  {
    Contains(s, UploadRef(SrcAttr, up)) || Contains(s, UploadRef(HrefAttr, up))
  }

  /** The uploads path segment: the upload base URL with the WordPress address
      stripped off its front, or the fallback when the directory reports an error
      or lives elsewhere. */
  function UploadPath(wpurl: string, uploads: UploadDir): (r: string)
    ensures !uploads.error && IsPrefix(wpurl, uploads.baseurl) ==> wpurl + r == uploads.baseurl
    ensures uploads.error || !IsPrefix(wpurl, uploads.baseurl) ==> r == FallbackUploadPath
  {
    if !uploads.error && IsPrefix(wpurl, uploads.baseurl) then
      assert uploads.baseurl == wpurl + uploads.baseurl[|wpurl|..];
      uploads.baseurl[|wpurl|..]
    else
      FallbackUploadPath
  }

  /** A string leaf made root-relative: both addresses become `/`. Which one goes
      first depends on whether the site address is a prefix of the WordPress address. */
  function RelativeText(s: string, wpurl: string, url: string): (r: string)
    ensures |wpurl| >= 1 && |url| >= 1 ==> |r| <= |s|
  {
    if wpurl == url then
      ReplaceAll(s, url, "/")
    else if IsPrefix(url, wpurl) then
      ReplaceAll(ReplaceAll(s, wpurl, "/"), url, "/")
    else
      ReplaceAll(ReplaceAll(s, url, "/"), wpurl, "/")
  }

  /** The regular-expression pass: every `src="/<up>` or `href="/<up>`, scanning left
      to right without overlap, keeps its attribute and gets `wpurl + up` in place of
      `/<up>`. The two alternatives differ in their first character, so at most one
      can match at a position. */
  function ExpandUploads(s: string, up: string, wpurl: string): (r: string)
    ensures |wpurl| >= 1 ==> |r| >= |s|
    decreases |s|
  {
    if IsPrefix(UploadRef(SrcAttr, up), s) then
      SrcAttr + wpurl + up + ExpandUploads(s[|UploadRef(SrcAttr, up)|..], up, wpurl)
    else if IsPrefix(UploadRef(HrefAttr, up), s) then
      HrefAttr + wpurl + up + ExpandUploads(s[|UploadRef(HrefAttr, up)|..], up, wpurl)
    else if s == [] then
      []
    else
      [s[0]] + ExpandUploads(s[1..], up, wpurl)
  }

  /** Rewrite of regular content: uploads references first, then every remaining
      `href="/` gets the site address. */
  function ExpandContent(s: string, wpurl: string, url: string, up: string): (r: string)
    ensures |wpurl| >= 1 && |url| >= 1 ==> |r| >= |s|
  {
    ReplaceAll(ExpandUploads(s, up, wpurl), HrefAttr + "/", HrefAttr + url)
  }

  /** A string leaf made absolute. A bare field that starts with `/<up>` only gets
      the WordPress address in front; anything else is regular content. */
  function AbsoluteText(s: string, wpurl: string, url: string, up: string): (r: string)
    ensures |wpurl| >= 1 && |url| >= 1 ==> |r| >= |s|
  {
    if IsPrefix("/" + up, s) then wpurl + s[1..] else ExpandContent(s, wpurl, url, up)
  }

  /** The save filter: every string leaf made root-relative, the rest kept as it is. */
  function Relative(n: Node, site: Site): (r: Node)
    ensures RewrittenBy(n, r, s => RelativeText(s, site.wpurl, site.url))
    ensures forall t :: LeafIn(t, r) <==> exists s :: LeafIn(s, n) && t == RelativeText(s, site.wpurl, site.url)
  {
    var f := s => RelativeText(s, site.wpurl, site.url);
    forall t ensures LeafIn(t, Walk(n, f)) <==> exists s :: LeafIn(s, n) && t == f(s) {
      WalkLeaves(n, f, t);
    }
    Walk(n, f)
  }

  /** The display filter: every string leaf made absolute, the rest kept as it is. */
  function Absolute(n: Node, site: Site): (r: Node)
    ensures RewrittenBy(n, r, s => AbsoluteText(s, site.wpurl, site.url, UploadPath(site.wpurl, site.uploads)))
    ensures forall t :: LeafIn(t, r) <==>
      exists s :: LeafIn(s, n) && t == AbsoluteText(s, site.wpurl, site.url, UploadPath(site.wpurl, site.uploads))
  {
    var f := s => AbsoluteText(s, site.wpurl, site.url, UploadPath(site.wpurl, site.uploads));
    forall t ensures LeafIn(t, Walk(n, f)) <==> exists s :: LeafIn(s, n) && t == f(s) {
      WalkLeaves(n, f, t);
    }
    Walk(n, f)
  }
}
