/** Saving and then displaying: when the display filter's output fed back to the save
    filter returns the stored content, and where it does not. Stored content holds
    root-relative `src="/…"` and `href="/…"` attribute values. */
module RoundTrip {
  import opened Strings
  import opened Content
  import opened Urls
  import opened TextLaws

  /** A configured address after `trailingslashit`: it ends with a slash, does not
      start with one, and holds no quote (it is an absolute URL such as `http://…/`). */
  predicate Address(a: string)
  {
    |a| >= 2 && a[0] != '/' && a[|a| - 1] == '/' && '"' !in a
  }

  /** The characters of the two attribute openers that the proofs below rely on. */
  lemma AttrChars(attr: string)
    requires attr == SrcAttr || attr == HrefAttr
    ensures |attr| > 0 && attr[|attr| - 1] == '"' && '/' !in attr && attr[0] != '/'
  {
  }

  /** An address right after an attribute opener, followed by a quoted value that does
      not hold it, is replaced by `/` and nothing else changes. */
  lemma StripAddress(attr: string, addr: string, v: string)
    requires attr == SrcAttr || attr == HrefAttr
    requires Address(addr) && '"' !in v && !Contains(v, addr)
    ensures ReplaceAll(attr + addr + v + "\"", addr, "/") == attr + "/" + v + "\""
  {
    AttrChars(attr);
    var rest := v + "\"";
    assert attr + addr + v + "\"" == attr + (addr + rest);
    NoStartInSealedHead(attr, addr + rest, addr);
    ReplaceAllSkip(attr, addr + rest, addr, "/");
    ReplaceAllHead(addr, rest, "/");
    AppendKeepsAbsent(v, '"', addr);
    ReplaceAllAbsent(rest, addr, "/");
    assert attr + ("/" + rest) == attr + "/" + v + "\"";
  }

  /** A root-relative quoted attribute holds no address its value does not hold. */
  lemma RootRelativeLacks(attr: string, v: string, addr: string)
    requires attr == SrcAttr || attr == HrefAttr
    requires Address(addr) && !Contains(v, addr)
    ensures !Contains(attr + "/" + v + "\"", addr)
  {
    AttrChars(attr);
    var rest := v + "\"";
    AppendKeepsAbsent(v, '"', addr);
    NoStartInHead("/", rest, addr);
    AbsentAfterHead("/", rest, addr);
    assert attr + "/" + v + "\"" == attr + ("/" + rest);
    NoStartInSealedHead(attr, "/" + rest, addr);
    AbsentAfterHead(attr, "/" + rest, addr);
  }

  /** An address after an attribute opener, followed by text that does not hold a second
      address, leaves that second address absent. */
  lemma OtherAddressAbsent(attr: string, addr: string, v: string, other: string)
    requires attr == SrcAttr || attr == HrefAttr
    requires Address(other) && !Contains(addr + v + "\"", other)
    ensures !Contains(attr + addr + v + "\"", other)
  {
    AttrChars(attr);
    assert attr + addr + v + "\"" == attr + (addr + v + "\"");
    NoStartInSealedHead(attr, addr + v + "\"", other);
    AbsentAfterHead(attr, addr + v + "\"", other);
  }

  /** A reference into the uploads directory survives display then save. The site
      address must not reappear after the WordPress address unless it is a prefix of it. */
  lemma UploadAttributeRoundTrip(attr: string, v: string, wpurl: string, url: string, up: string)
    requires attr == SrcAttr || attr == HrefAttr
    requires Address(wpurl) && Address(url)
    requires '"' !in v && '"' !in up && IsPrefix(up, v)
    requires !Contains(v, wpurl) && !Contains(v, url)
    requires !IsPrefix(url, wpurl) ==> !Contains(wpurl + v + "\"", url)
    ensures AbsoluteText(attr + "/" + v + "\"", wpurl, url, up) == attr + wpurl + v + "\""
    ensures RelativeText(attr + wpurl + v + "\"", wpurl, url) == attr + "/" + v + "\""
  {
    AbsoluteAttribute(attr, v, wpurl, url, up);
    var x := attr + wpurl + v + "\"";
    StripAddress(attr, wpurl, v);
    if wpurl == url {
    } else if IsPrefix(url, wpurl) {
      RootRelativeLacks(attr, v, url);
      ReplaceAllAbsent(attr + "/" + v + "\"", url, "/");
    } else {
      OtherAddressAbsent(attr, wpurl, v, url);
      ReplaceAllAbsent(x, url, "/");
    }
  }

  /** A link outside the uploads directory survives display then save. When WordPress
      sits in a sub-directory of the site, the link must not lead into that directory. */
  lemma LinkAttributeRoundTrip(v: string, wpurl: string, url: string, up: string)
    requires Address(wpurl) && Address(url)
    requires '"' !in v && '"' !in up && !IsPrefix(up, v)
    requires !Contains(v, wpurl) && !Contains(v, url)
    requires IsPrefix(url, wpurl) && url != wpurl ==> !Contains(url + v + "\"", wpurl)
    ensures AbsoluteText(HrefAttr + "/" + v + "\"", wpurl, url, up) == HrefAttr + url + v + "\""
    ensures RelativeText(HrefAttr + url + v + "\"", wpurl, url) == HrefAttr + "/" + v + "\""
  {
    AbsoluteAttribute(HrefAttr, v, wpurl, url, up);
    var x := HrefAttr + url + v + "\"";
    StripAddress(HrefAttr, url, v);
    if wpurl == url {
    } else if IsPrefix(url, wpurl) {
      OtherAddressAbsent(HrefAttr, url, v, wpurl);
      ReplaceAllAbsent(x, wpurl, "/");
    } else {
      RootRelativeLacks(HrefAttr, v, wpurl);
      ReplaceAllAbsent(HrefAttr + "/" + v + "\"", wpurl, "/");
    }
  }

  /** A `src` value outside the uploads directory is displayed as it is and saved as it is. */
  lemma SourceAttributeRoundTrip(v: string, wpurl: string, url: string, up: string)
    requires Address(wpurl) && Address(url)
    requires '"' !in v && '"' !in up && !IsPrefix(up, v)
    requires !Contains(v, wpurl) && !Contains(v, url)
    ensures AbsoluteText(SrcAttr + "/" + v + "\"", wpurl, url, up) == SrcAttr + "/" + v + "\""
    ensures RelativeText(SrcAttr + "/" + v + "\"", wpurl, url) == SrcAttr + "/" + v + "\""
  {
    AbsoluteAttribute(SrcAttr, v, wpurl, url, up);
    RelativeTextUnchanged(SrcAttr + "/" + v + "\"", wpurl, url);
    RootRelativeLacks(SrcAttr, v, wpurl);
    RootRelativeLacks(SrcAttr, v, url);
  }

  /** With WordPress in a sub-directory of the site, a link into that directory outside
      the uploads path loses the directory: it is saved as `/<t>` and displayed under
      the site address, so display does not give back the link that was saved. */
  lemma WordPressLinkLost(t: string, wpurl: string, url: string, up: string)
    requires Address(wpurl) && Address(url) && IsPrefix(url, wpurl) && url != wpurl
    requires '"' !in t && '"' !in up && !IsPrefix(up, t) && !Contains(t, url)
    ensures RelativeText(HrefAttr + wpurl + t + "\"", wpurl, url) == HrefAttr + "/" + t + "\""
    ensures AbsoluteText(HrefAttr + "/" + t + "\"", wpurl, url, up) == HrefAttr + url + t + "\""
    ensures HrefAttr + url + t + "\"" != HrefAttr + wpurl + t + "\""
  {
    if Contains(t, wpurl) {
      ContainsPrefix(t, url, wpurl);
    }
    StripAddress(HrefAttr, wpurl, t);
    RootRelativeLacks(HrefAttr, t, url);
    ReplaceAllAbsent(HrefAttr + "/" + t + "\"", url, "/");
    AbsoluteAttribute(HrefAttr, t, wpurl, url, up);
    assert |wpurl| != |url|;
  }

  /** Display of an uploads reference under `d`: the WordPress address in front of
      `/<d><t>` reads as the site address `wpurl + d` followed by `t`. */
  lemma SiteUploadDisplayed(attr: string, d: string, t: string, wpurl: string, up: string)
    requires attr == SrcAttr || attr == HrefAttr
    requires Address(wpurl) && '"' !in d && '"' !in t && '"' !in up && IsPrefix(up, d + t)
    ensures AbsoluteText(attr + "/" + (d + t) + "\"", wpurl, wpurl + d, up) == attr + (wpurl + d) + t + "\""
  {
    AbsoluteAttribute(attr, d + t, wpurl, wpurl + d, up);
    assert attr + wpurl + (d + t) + "\"" == attr + (wpurl + d) + t + "\"";
  }

  /** Saving with the site address `wpurl + d` longer than the WordPress address: the
      site address goes first and takes `d` with it. */
  lemma SiteUploadSaved(attr: string, d: string, t: string, wpurl: string)
    requires attr == SrcAttr || attr == HrefAttr
    requires Address(wpurl) && Address(wpurl + d) && |d| >= 1
    requires '"' !in t && !Contains(t, wpurl) && !Contains(t, wpurl + d)
    ensures RelativeText(attr + (wpurl + d) + t + "\"", wpurl, wpurl + d) == attr + "/" + t + "\""
  {
    var url := wpurl + d;
    assert !IsPrefix(url, wpurl);
    StripAddress(attr, url, t);
    RootRelativeLacks(attr, t, wpurl);
    ReplaceAllAbsent(attr + "/" + t + "\"", wpurl, "/");
  }

  /** With the site in a sub-directory `d` of the WordPress address and the uploads path
      under `d`, an uploads reference loses `d`: display puts the WordPress address in
      front of `/<d><t>`, which reads as the site address followed by `t`, and saving
      strips the site address first, leaving `/<t>`. Every other condition of
      `Reversible` holds; only the clause about the site address after display fails. */
  lemma SiteUploadLost(attr: string, d: string, t: string, wpurl: string, up: string)
    requires attr == SrcAttr || attr == HrefAttr
    requires Address(wpurl) && |d| >= 1 && d[|d| - 1] == '/' && '"' !in d
    requires '"' !in t && '"' !in up && IsPrefix(up, d + t) && !Contains(d + t, wpurl)
    ensures Address(wpurl + d)
    ensures AbsoluteText(attr + "/" + (d + t) + "\"", wpurl, wpurl + d, up) == attr + (wpurl + d) + t + "\""
    ensures RelativeText(attr + (wpurl + d) + t + "\"", wpurl, wpurl + d) == attr + "/" + t + "\""
    ensures attr + "/" + t + "\"" != attr + "/" + (d + t) + "\""
    ensures '"' !in d + t && !Contains(d + t, wpurl) && !Contains(d + t, wpurl + d)
    ensures !Reversible(attr, d + t, wpurl, wpurl + d, up)
  {
    var url := wpurl + d;
    var v := d + t;
    assert IsPrefix(wpurl, url);
    if Contains(t, wpurl) {
      ContainsSuffix(d, t, wpurl);
    }
    if Contains(t, url) {
      ContainsPrefix(t, wpurl, url);
    }
    if Contains(v, url) {
      ContainsPrefix(v, wpurl, url);
    }
    SiteUploadDisplayed(attr, d, t, wpurl, up);
    SiteUploadSaved(attr, d, t, wpurl);
    assert (wpurl + v + "\"")[..|url|] == url;
    assert OccursAt(wpurl + v + "\"", url, 0);
  }

  /** A stored quoted attribute value `v` behind `attr` that display then save gives back:
      it holds no quote and neither address, and after display the other address does
      not turn up next to the one display put in front of it. */
  predicate Reversible(attr: string, v: string, wpurl: string, url: string, up: string)
  {
    && (attr == SrcAttr || attr == HrefAttr)
    && '"' !in v && !Contains(v, wpurl) && !Contains(v, url)
    && (IsPrefix(up, v) && !IsPrefix(url, wpurl) ==> !Contains(wpurl + v + "\"", url))
    && (!IsPrefix(up, v) && attr == HrefAttr && IsPrefix(url, wpurl) && url != wpurl ==>
          !Contains(url + v + "\"", wpurl))
  }

  /** Every reversible stored attribute survives display then save. */
  lemma AttributeRoundTrip(attr: string, v: string, wpurl: string, url: string, up: string)
    requires Address(wpurl) && Address(url) && '"' !in up
    requires Reversible(attr, v, wpurl, url, up)
    ensures RelativeText(AbsoluteText(attr + "/" + v + "\"", wpurl, url, up), wpurl, url) == attr + "/" + v + "\""
  {
    if IsPrefix(up, v) {
      UploadAttributeRoundTrip(attr, v, wpurl, url, up);
    } else if attr == HrefAttr {
      LinkAttributeRoundTrip(v, wpurl, url, up);
    } else {
      SourceAttributeRoundTrip(v, wpurl, url, up);
    }
  }

  /** A string leaf that is one reversible stored attribute. */
  ghost predicate StoredAttribute(s: string, wpurl: string, url: string, up: string)
  {
    exists attr, v :: Reversible(attr, v, wpurl, url, up) && s == attr + "/" + v + "\""
  }

  /** The uploads path holds no quote when the upload base URL holds none. */
  lemma UploadPathUnquoted(wpurl: string, uploads: UploadDir)
    requires '"' !in uploads.baseurl
    ensures '"' !in UploadPath(wpurl, uploads)
  {
    var r := UploadPath(wpurl, uploads);
    if !uploads.error && IsPrefix(wpurl, uploads.baseurl) {
      forall k | 0 <= k < |r|
        ensures r[k] != '"'
      {
        assert (wpurl + r)[|wpurl| + k] == r[k];
      }
    }
  }

  /** Content whose string leaves are all reversible stored attributes comes back
      unchanged from the display filter followed by the save filter. */
  lemma TreeRoundTrip(n: Node, site: Site)
    requires Address(site.wpurl) && Address(site.url) && '"' !in site.uploads.baseurl
    requires forall s :: LeafIn(s, n) ==>
      StoredAttribute(s, site.wpurl, site.url, UploadPath(site.wpurl, site.uploads))
    ensures Relative(Absolute(n, site), site) == n
  {
    var up := UploadPath(site.wpurl, site.uploads);
    UploadPathUnquoted(site.wpurl, site.uploads);
    var f := s => AbsoluteText(s, site.wpurl, site.url, UploadPath(site.wpurl, site.uploads));
    var g := s => RelativeText(s, site.wpurl, site.url);
    forall s | LeafIn(s, n)
      ensures g(f(s)) == s
    {
      var attr, v :| Reversible(attr, v, site.wpurl, site.url, up) && s == attr + "/" + v + "\"";
      AttributeRoundTrip(attr, v, site.wpurl, site.url, up);
    }
    WalkRoundTrip(n, f, g);
  }

  /** A string leaf that is the displayed form of a reversible stored attribute. */
  ghost predicate DisplayedAttribute(s: string, wpurl: string, url: string, up: string)
  {
    exists attr, v :: Reversible(attr, v, wpurl, url, up) && s == AbsoluteText(attr + "/" + v + "\"", wpurl, url, up)
  }

  /** Content as the display filter shows it comes back unchanged from the save filter
      followed by the display filter. */
  lemma TreeSaveRoundTrip(n: Node, site: Site)
    requires Address(site.wpurl) && Address(site.url) && '"' !in site.uploads.baseurl
    requires forall s :: LeafIn(s, n) ==>
      DisplayedAttribute(s, site.wpurl, site.url, UploadPath(site.wpurl, site.uploads))
    ensures Absolute(Relative(n, site), site) == n
  {
    var up := UploadPath(site.wpurl, site.uploads);
    UploadPathUnquoted(site.wpurl, site.uploads);
    var f := s => RelativeText(s, site.wpurl, site.url);
    var g := s => AbsoluteText(s, site.wpurl, site.url, UploadPath(site.wpurl, site.uploads));
    forall s | LeafIn(s, n)
      ensures g(f(s)) == s
    {
      var attr, v :| Reversible(attr, v, site.wpurl, site.url, up)
                     && s == AbsoluteText(attr + "/" + v + "\"", site.wpurl, site.url, up);
      AttributeRoundTrip(attr, v, site.wpurl, site.url, up);
    }
    WalkRoundTrip(n, f, g);
  }

  /** The save filter leaves content alone exactly when no string leaf holds either address. */
  lemma RelativeUnchanged(n: Node, site: Site)
    requires |site.wpurl| >= 2 && |site.url| >= 2
    ensures Relative(n, site) == n
        <==> forall s :: LeafIn(s, n) ==> !Contains(s, site.wpurl) && !Contains(s, site.url)
  {
    var f := s => RelativeText(s, site.wpurl, site.url);
    forall s | LeafIn(s, n)
      ensures f(s) == s <==> !Contains(s, site.wpurl) && !Contains(s, site.url)
    {
      RelativeTextUnchanged(s, site.wpurl, site.url);
    }
    if Relative(n, site) == n {
      WalkFixedOnly(n, f);
    } else if forall s :: LeafIn(s, n) ==> !Contains(s, site.wpurl) && !Contains(s, site.url) {
      WalkFixed(n, f);
    }
  }

  /** Text the display filter has nothing to do to: not a bare uploads field, and no
      `href="/` and no `src="/` into the uploads path. */
  predicate UntouchedByDisplay(s: string, up: string)
  {
    !IsPrefix("/" + up, s) && !Contains(s, HrefAttr + "/") && !Contains(s, UploadRef(SrcAttr, up))
  }

  /** The display filter leaves content alone exactly when no string leaf is a bare
      uploads field and none holds `href="/` or a `src="/` into the uploads path. */
  lemma AbsoluteUnchanged(n: Node, site: Site)
    requires |site.wpurl| >= 2 && |site.url| >= 2
    ensures Absolute(n, site) == n <==>
      forall s :: LeafIn(s, n) ==> UntouchedByDisplay(s, UploadPath(site.wpurl, site.uploads))
  {
    var up := UploadPath(site.wpurl, site.uploads);
    var f := s => AbsoluteText(s, site.wpurl, site.url, UploadPath(site.wpurl, site.uploads));
    forall s | LeafIn(s, n)
      ensures f(s) == s <==> UntouchedByDisplay(s, up)
    {
      if IsPrefix("/" + up, s) {
        assert |f(s)| == |site.wpurl| + |s| - 1;
      } else {
        AbsoluteTextUnchanged(s, site.wpurl, site.url, up);
      }
    }
    if Absolute(n, site) == n {
      WalkFixedOnly(n, f);
    } else if forall s :: LeafIn(s, n) ==> UntouchedByDisplay(s, up) {
      WalkFixed(n, f);
    }
  }
}
