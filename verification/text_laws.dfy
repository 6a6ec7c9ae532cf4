/** What the two string-leaf rewrites do, stated against independent descriptions:
    where they leave text alone, which occurrence they rewrite, and in what order. */
module TextLaws {
  import opened Strings
  import opened Urls

  /* ---------- making text relative ---------- */

  /** A leaf is left alone exactly when it holds neither address. */
  lemma RelativeTextUnchanged(s: string, wpurl: string, url: string)
    requires |wpurl| >= 2 && |url| >= 2
    ensures RelativeText(s, wpurl, url) == s <==> !Contains(s, wpurl) && !Contains(s, url)
  {
    if !Contains(s, wpurl) && !Contains(s, url) {
      ReplaceAllAbsent(s, wpurl, "/");
      ReplaceAllAbsent(s, url, "/");
    } else if wpurl == url {
      ReplaceAllLength(s, url, "/");
    } else if IsPrefix(url, wpurl) {
      if Contains(s, wpurl) {
        ReplaceAllLength(s, wpurl, "/");
      } else {
        ReplaceAllAbsent(s, wpurl, "/");
        ReplaceAllLength(s, url, "/");
      }
    } else {
      if Contains(s, url) {
        ReplaceAllLength(s, url, "/");
      } else {
        ReplaceAllAbsent(s, url, "/");
        ReplaceAllLength(s, wpurl, "/");
      }
    }
  }

  /** `long + t` with the shorter address `short` absent from `t`: replacing `long`
      first and then `short` gives `/` followed by `t`. */
  lemma LongFirst(long: string, short: string, t: string)
    requires IsPrefix(short, long) && |short| < |long|
    requires |short| > 0 && short[0] != '/'
    requires !Contains(t, short)
    ensures ReplaceAll(ReplaceAll(long + t, long, "/"), short, "/") == "/" + t
  {
    if Contains(t, long) {
      ContainsPrefix(t, short, long);
    }
    ReplaceAllHead(long, t, "/");
    ReplaceAllAbsent(t, long, "/");
    NoStartInHead("/", t, short);
    ReplaceAllSkip("/", t, short, "/");
    ReplaceAllAbsent(t, short, "/");
  }

  /** When one address is a proper prefix of the other (WordPress in a sub-directory
      of the site, or the site in a sub-directory of WordPress), the longer one is
      replaced first, so a reference through the longer address loses it entirely. */
  lemma RelativeLongerFirst(wpurl: string, url: string, long: string, short: string, t: string)
    requires (long == wpurl && short == url) || (long == url && short == wpurl)
    requires IsPrefix(short, long) && |short| < |long|
    requires |short| > 0 && short[0] != '/'
    requires !Contains(t, short)
    ensures RelativeText(long + t, wpurl, url) == "/" + t
  {
    LongFirst(long, short, t);
  }

  /** The opposite order would be wrong: replacing the shorter address first leaves
      the longer address's extra directory behind. */
  lemma RelativeOrderMatters(wpurl: string, url: string, long: string, short: string, t: string)
    requires (long == wpurl && short == url) || (long == url && short == wpurl)
    requires IsPrefix(short, long) && |short| < |long|
    requires |short| > 0 && short[0] != '/'
    requires !Contains(long[|short|..] + t, short)
    ensures ReplaceAll(ReplaceAll(long + t, short, "/"), long, "/") == "/" + long[|short|..] + t
    ensures ReplaceAll(ReplaceAll(long + t, short, "/"), long, "/") != RelativeText(long + t, wpurl, url)
  {
    var rest := long[|short|..] + t;
    assert long + t == short + rest;
    ReplaceAllHead(short, rest, "/");
    ReplaceAllAbsent(rest, short, "/");
    if Contains(rest, long) {
      ContainsPrefix(rest, short, long);
    }
    NoStartInHead("/", rest, long);
    ReplaceAllSkip("/", rest, long, "/");
    ReplaceAllAbsent(rest, long, "/");
    if Contains(t, short) {
      ContainsSuffix(long[|short|..], t, short);
    }
    RelativeLongerFirst(wpurl, url, long, short, t);
  }

  /* ---------- the uploads pass ---------- */

  /** Without an uploads reference the uploads pass changes nothing. */
  lemma {:induction false} ExpandUploadsAbsent(s: string, up: string, wpurl: string)
    requires !HasUploadRef(s, up)
    ensures ExpandUploads(s, up, wpurl) == s
    decreases |s|
  {
    if s != [] {
      assert !OccursAt(s, UploadRef(SrcAttr, up), 0);
      assert !OccursAt(s, UploadRef(HrefAttr, up), 0);
      forall i | 0 <= i <= |s[1..]|
        ensures !OccursAt(s[1..], UploadRef(SrcAttr, up), i)
        ensures !OccursAt(s[1..], UploadRef(HrefAttr, up), i)
      {
        if OccursAt(s[1..], UploadRef(SrcAttr, up), i) {
          OccursInTail(s, UploadRef(SrcAttr, up), i);
        }
        if OccursAt(s[1..], UploadRef(HrefAttr, up), i) {
          OccursInTail(s, UploadRef(HrefAttr, up), i);
        }
      }
      ExpandUploadsAbsent(s[1..], up, wpurl);
      assert s == [s[0]] + s[1..];
    }
  }

  /** With an uploads reference and a WordPress address longer than the `/` it
      replaces, the uploads pass lengthens the text, so it does change it. */
  lemma {:induction false} ExpandUploadsGrows(s: string, up: string, wpurl: string)
    requires HasUploadRef(s, up) && |wpurl| >= 2
    ensures |ExpandUploads(s, up, wpurl)| > |s|
    decreases |s|
  {
    var src := UploadRef(SrcAttr, up);
    var href := UploadRef(HrefAttr, up);
    if !IsPrefix(src, s) && !IsPrefix(href, s) {
      if Contains(s, src) {
        var i :| 0 <= i <= |s| && OccursAt(s, src, i);
        assert i != 0;
        OccursShift(s, src, i);
      } else {
        var i :| 0 <= i <= |s| && OccursAt(s, href, i);
        assert i != 0;
        OccursShift(s, href, i);
      }
      ExpandUploadsGrows(s[1..], up, wpurl);
    }
  }

  /** Uploads references start with `s` or `h`. */
  lemma NoRefAtChar(s: string, up: string)
    requires s != [] && s[0] != 's' && s[0] != 'h'
    ensures !OccursAt(s, UploadRef(SrcAttr, up), 0) && !OccursAt(s, UploadRef(HrefAttr, up), 0)
  {
    var src := UploadRef(SrcAttr, up);
    var href := UploadRef(HrefAttr, up);
    assert src[0] == 's' && href[0] == 'h';
    if |src| <= |s| {
      assert s[0..|src|][0] == s[0];
    }
    if |href| <= |s| {
      assert s[0..|href|][0] == s[0];
    }
  }

  /** A head without `s` or `h` cannot start an uploads reference and is copied. */
  lemma {:induction false} ExpandUploadsSkip(a: string, t: string, up: string, wpurl: string)
    requires 's' !in a && 'h' !in a
    ensures ExpandUploads(a + t, up, wpurl) == a + ExpandUploads(t, up, wpurl)
    decreases |a|
  {
    if a == [] {
      assert a + t == t;
    } else {
      var s := a + t;
      HeadShape(a, t);
      NoRefAtChar(s, up);
      ExpandUploadsStep(s, up, wpurl);
      ExpandUploadsSkip(a[1..], t, up, wpurl);
      HeadShape(a, ExpandUploads(t, up, wpurl));
    }
  }

  /** A `src="/<up>` reference at the very front is rewritten. */
  lemma ExpandUploadsHeadSrc(up: string, wpurl: string, t: string)
    ensures ExpandUploads(UploadRef(SrcAttr, up) + t, up, wpurl)
         == SrcAttr + wpurl + up + ExpandUploads(t, up, wpurl)
  {
    var s := UploadRef(SrcAttr, up) + t;
    assert s[..|UploadRef(SrcAttr, up)|] == UploadRef(SrcAttr, up);
    assert s[|UploadRef(SrcAttr, up)|..] == t;
  }

  /** An `href="/<up>` reference at the very front is rewritten; it cannot also be a
      `src` reference, whose first character differs. */
  lemma ExpandUploadsHeadHref(up: string, wpurl: string, t: string)
    ensures ExpandUploads(UploadRef(HrefAttr, up) + t, up, wpurl)
         == HrefAttr + wpurl + up + ExpandUploads(t, up, wpurl)
  {
    var s := UploadRef(HrefAttr, up) + t;
    assert s[..|UploadRef(HrefAttr, up)|] == UploadRef(HrefAttr, up);
    assert s[|UploadRef(HrefAttr, up)|..] == t;
    var src := UploadRef(SrcAttr, up);
    assert src[0] == 's';
    if |src| <= |s| {
      assert s[..|src|][0] == 'h';
    }
  }

  /** An uploads reference at the very front is rewritten, and the scan resumes after it. */
  lemma ExpandUploadsHead(attr: string, up: string, wpurl: string, t: string)
    requires attr == SrcAttr || attr == HrefAttr
    ensures ExpandUploads(UploadRef(attr, up) + t, up, wpurl)
         == attr + wpurl + up + ExpandUploads(t, up, wpurl)
  {
    if attr == SrcAttr {
      ExpandUploadsHeadSrc(up, wpurl, t);
    } else {
      ExpandUploadsHeadHref(up, wpurl, t);
    }
  }

  /** Without an uploads reference at the front, the first character is copied. */
  lemma ExpandUploadsStep(s: string, up: string, wpurl: string)
    requires s != []
    requires !OccursAt(s, UploadRef(SrcAttr, up), 0) && !OccursAt(s, UploadRef(HrefAttr, up), 0)
    ensures ExpandUploads(s, up, wpurl) == [s[0]] + ExpandUploads(s[1..], up, wpurl)
  {
  }

  /** No uploads reference starts in `s` before index `i`. */
  predicate NoUploadRefBefore(s: string, up: string, i: int)
  {
    forall j :: 0 <= j < i ==>
      !OccursAt(s, UploadRef(SrcAttr, up), j) && !OccursAt(s, UploadRef(HrefAttr, up), j)
  }

  /** No uploads reference before `i` in `s`: none before `i - 1` in its tail. */
  lemma NoRefBeforeShift(s: string, up: string, i: int)
    requires 1 <= i <= |s|
    requires NoUploadRefBefore(s, up, i)
    ensures NoUploadRefBefore(s[1..], up, i - 1)
    ensures !OccursAt(s, UploadRef(SrcAttr, up), 0) && !OccursAt(s, UploadRef(HrefAttr, up), 0)
  {
    forall j | 0 <= j < i - 1
      ensures !OccursAt(s[1..], UploadRef(SrcAttr, up), j)
      ensures !OccursAt(s[1..], UploadRef(HrefAttr, up), j)
    {
      if OccursAt(s[1..], UploadRef(SrcAttr, up), j) {
        OccursInTail(s, UploadRef(SrcAttr, up), j);
      }
      if OccursAt(s[1..], UploadRef(HrefAttr, up), j) {
        OccursInTail(s, UploadRef(HrefAttr, up), j);
      }
    }
  }

  /** The uploads pass over `s` copies `s[..i]`, rewrites the `attr` reference at `i`
      to `attr + wpurl + up`, and carries on after that reference. */
  predicate RewritesAt(s: string, up: string, wpurl: string, attr: string, i: int)
    requires 0 <= i && i + |UploadRef(attr, up)| <= |s|
  {
    ExpandUploads(s, up, wpurl)
      == s[..i] + (attr + wpurl + up) + ExpandUploads(s[i + |UploadRef(attr, up)|..], up, wpurl)
  }

  /** The leftmost uploads reference is the one rewritten: text before it is copied,
      it becomes its attribute followed by `wpurl + up`, and the scan resumes after it. */
  lemma {:induction false} ExpandUploadsLeftmost(s: string, up: string, wpurl: string, attr: string, i: int)
    requires attr == SrcAttr || attr == HrefAttr
    requires OccursAt(s, UploadRef(attr, up), i)
    requires NoUploadRefBefore(s, up, i)
    ensures RewritesAt(s, up, wpurl, attr, i)
    decreases i
  {
    if i == 0 {
      ExpandUploadsAtFront(s, up, wpurl, attr);
    } else {
      ExpandUploadsLeftmostTail(s, up, wpurl, attr, i);
      ExpandUploadsCons(s, up, wpurl, attr, i);
    }
  }

  /** The step of `ExpandUploadsLeftmost` past the first character: the reference
      moves one place left in the tail, which the induction hypothesis covers. */
  lemma {:induction false} ExpandUploadsLeftmostTail(s: string, up: string, wpurl: string, attr: string, i: int)
    requires attr == SrcAttr || attr == HrefAttr
    requires OccursAt(s, UploadRef(attr, up), i)
    requires NoUploadRefBefore(s, up, i)
    requires i >= 1
    ensures !OccursAt(s, UploadRef(SrcAttr, up), 0) && !OccursAt(s, UploadRef(HrefAttr, up), 0)
    ensures 1 <= i && i + |UploadRef(attr, up)| <= |s|
    ensures RewritesAt(s[1..], up, wpurl, attr, i - 1)
    decreases i, 0
  {
    OccursShift(s, UploadRef(attr, up), i);
    NoRefBeforeShift(s, up, i);
    ExpandUploadsLeftmost(s[1..], up, wpurl, attr, i - 1);
  }

  /** The `i == 0` case of `ExpandUploadsLeftmost`. */
  lemma ExpandUploadsAtFront(s: string, up: string, wpurl: string, attr: string)
    requires attr == SrcAttr || attr == HrefAttr
    requires OccursAt(s, UploadRef(attr, up), 0)
    ensures RewritesAt(s, up, wpurl, attr, 0)
  {
    var m := UploadRef(attr, up);
    assert s == m + s[|m|..];
    ExpandUploadsHead(attr, up, wpurl, s[|m|..]);
    assert s[..0] == [];
  }

  /** One step of `ExpandUploadsLeftmost`: a result for the tail gives the result for `s`. */
  lemma ExpandUploadsCons(s: string, up: string, wpurl: string, attr: string, i: int)
    requires 1 <= i && i + |UploadRef(attr, up)| <= |s|
    requires !OccursAt(s, UploadRef(SrcAttr, up), 0) && !OccursAt(s, UploadRef(HrefAttr, up), 0)
    requires RewritesAt(s[1..], up, wpurl, attr, i - 1)
    ensures RewritesAt(s, up, wpurl, attr, i)
  {
    var k := |UploadRef(attr, up)|;
    var x := ExpandUploads(s[i + k..], up, wpurl);
    ConsSlice(s, i, k, attr + wpurl + up, x);
    ExpandUploadsStep(s, up, wpurl);
  }

  /* ---------- making text absolute ---------- */

  /** A bare uploads field only gets the WordPress address in front, whatever
      follows it: no attribute rewrite is applied to it. */
  lemma AbsoluteBareUpload(t: string, wpurl: string, url: string, up: string)
    ensures AbsoluteText("/" + up + t, wpurl, url, up) == wpurl + up + t
  {
    var s := "/" + up + t;
    assert s[..|"/" + up|] == "/" + up;
    assert s[1..] == up + t;
  }

  /** `href="/` needs a quote at index 5 or later followed by a slash. */
  lemma NoLinkWithoutQuoteSlash(x: string)
    requires forall k :: 5 <= k < |x| - 1 ==> x[k] != '"' || x[k + 1] != '/'
    ensures !Contains(x, HrefAttr + "/")
  {
    var link := HrefAttr + "/";
    assert |link| == 7 && link[5] == '"' && link[6] == '/';
    forall i | 0 <= i <= |x|
      ensures !OccursAt(x, link, i)
    {
      if i + 7 <= |x| {
        assert x[i + 5] != '"' || x[i + 6] != '/';
        assert x[i..i + 7][5] == x[i + 5] && x[i..i + 7][6] == x[i + 6];
      }
    }
  }

  /** A text that is not a bare uploads field is left alone exactly when it holds
      no `href="/` and no `src="/<up>`; a `src="/` outside the uploads path does not
      count. */
  lemma AbsoluteTextUnchanged(s: string, wpurl: string, url: string, up: string)
    requires |wpurl| >= 2 && |url| >= 2 && !IsPrefix("/" + up, s)
    ensures AbsoluteText(s, wpurl, url, up) == s
        <==> !Contains(s, HrefAttr + "/") && !Contains(s, UploadRef(SrcAttr, up))
  {
    var link := HrefAttr + "/";
    if !Contains(s, link) && !Contains(s, UploadRef(SrcAttr, up)) {
      if Contains(s, UploadRef(HrefAttr, up)) {
        assert UploadRef(HrefAttr, up)[..|link|] == link;
        ContainsPrefix(s, link, UploadRef(HrefAttr, up));
      }
      ExpandUploadsAbsent(s, up, wpurl);
      ReplaceAllAbsent(s, link, HrefAttr + url);
    } else if HasUploadRef(s, up) {
      ExpandUploadsGrows(s, up, wpurl);
    } else {
      ExpandUploadsAbsent(s, up, wpurl);
      ReplaceAllLength(s, link, HrefAttr + url);
    }
  }

  /** `up` is not a prefix of `v` and does not hold `c`, so it is not one of `v + [c]` either. */
  lemma NotPrefixBeforeChar(up: string, v: string, c: char)
    requires c !in up && !IsPrefix(up, v)
    ensures !IsPrefix(up, v + [c])
  {
    if |up| <= |v| {
      assert (v + [c])[..|up|] == v[..|up|];
    } else if |up| == |v| + 1 {
      assert (v + [c])[..|up|][|v|] == c;
    }
  }

  /** An attribute value without quotes, closed by a quote, holds no uploads reference. */
  lemma QuotedTailHasNoRef(w: string, up: string)
    requires '"' !in w && '"' !in up
    ensures !HasUploadRef(w + "\"", up)
  {
    var src := UploadRef(SrcAttr, up);
    var href := UploadRef(HrefAttr, up);
    assert src[4] == '"' && href[5] == '"';
    MissingCharAbsent(w, src, 4);
    MissingCharAbsent(w, href, 5);
    if up == [] {
      assert src[|src| - 1] == '/' && href[|href| - 1] == '/';
    } else {
      assert src[|src| - 1] == up[|up| - 1] && href[|href| - 1] == up[|up| - 1];
      assert up[|up| - 1] in up;
    }
    AppendKeepsAbsent(w, '"', src);
    AppendKeepsAbsent(w, '"', href);
  }

  /** An attribute value without quotes, closed by a quote, holds no `href="/`. */
  lemma QuotedTailHasNoLink(w: string)
    requires '"' !in w
    ensures !Contains(w + "\"", HrefAttr + "/")
  {
    MissingCharAbsent(w, HrefAttr + "/", 5);
    AppendKeepsAbsent(w, '"', HrefAttr + "/");
  }

  /** An uploads reference followed by a quoted remainder: only the reference is rewritten. */
  lemma ExpandQuotedRef(attr: string, w: string, wpurl: string, up: string)
    requires attr == SrcAttr || attr == HrefAttr
    requires '"' !in w && '"' !in up
    ensures ExpandUploads(UploadRef(attr, up) + (w + "\""), up, wpurl) == attr + wpurl + up + (w + "\"")
  {
    QuotedTailHasNoRef(w, up);
    ExpandUploadsHead(attr, up, wpurl, w + "\"");
    ExpandUploadsAbsent(w + "\"", up, wpurl);
  }

  /** Regrouping an attribute whose value `up + w` starts with the uploads path. */
  lemma RegroupQuoted(attr: string, mid: string, up: string, w: string)
    ensures attr + "/" + (up + w) + "\"" == UploadRef(attr, up) + (w + "\"")
    ensures attr + mid + up + (w + "\"") == attr + mid + (up + w) + "\""
  {
  }

  /** The uploads pass on a quoted attribute value inside the uploads path. */
  lemma ExpandUploadAttribute(attr: string, v: string, wpurl: string, up: string)
    requires attr == SrcAttr || attr == HrefAttr
    requires '"' !in v && '"' !in up
    requires IsPrefix(up, v)
    ensures ExpandUploads(attr + "/" + v + "\"", up, wpurl) == attr + wpurl + v + "\""
  {
    var w := v[|up|..];
    assert v == up + w;
    assert '"' !in w by {
      forall k | 0 <= k < |w|
        ensures w[k] != '"'
      {
        assert w[k] == v[|up| + k];
      }
    }
    RegroupQuoted(attr, wpurl, up, w);
    ExpandQuotedRef(attr, w, wpurl, up);
  }

  /** `attr + wpurl + v + "` holds no `href="/` when neither `wpurl` nor `v` holds a
      quote and `wpurl` does not start with a slash. */
  lemma NoLinkAfterAddress(attr: string, v: string, wpurl: string)
    requires attr == SrcAttr || attr == HrefAttr
    requires '"' !in v && '"' !in wpurl
    requires |wpurl| > 0 && wpurl[0] != '/'
    ensures !Contains(attr + wpurl + v + "\"", HrefAttr + "/")
  {
    var x := attr + wpurl + v + "\"";
    forall k | 5 <= k < |x| - 1
      ensures x[k] != '"' || x[k + 1] != '/'
    {
      if k < |attr| {
        assert x[k + 1] == wpurl[0];
      } else if k < |attr| + |wpurl| {
        assert x[k] == wpurl[k - |attr|];
      } else {
        assert x[k] == v[k - |attr| - |wpurl|];
      }
    }
    NoLinkWithoutQuoteSlash(x);
  }

  /** A text that does not start with a slash is regular content. */
  lemma AbsoluteTextNotBare(s: string, wpurl: string, url: string, up: string)
    requires |s| > 0 && s[0] != '/'
    ensures AbsoluteText(s, wpurl, url, up) == ExpandContent(s, wpurl, url, up)
  {
    assert !IsPrefix("/" + up, s) by {
      assert ("/" + up)[0] == '/';
    }
  }

  /** A quoted attribute value inside the uploads path gets the WordPress address. */
  lemma AbsoluteUploadAttribute(attr: string, v: string, wpurl: string, url: string, up: string)
    requires attr == SrcAttr || attr == HrefAttr
    requires '"' !in v && '"' !in up && '"' !in wpurl
    requires |wpurl| > 0 && wpurl[0] != '/'
    requires IsPrefix(up, v)
    ensures AbsoluteText(attr + "/" + v + "\"", wpurl, url, up) == attr + wpurl + v + "\""
  {
    var s := attr + "/" + v + "\"";
    assert s[0] == attr[0] && s[0] != '/';
    AbsoluteTextNotBare(s, wpurl, url, up);
    ExpandUploadAttribute(attr, v, wpurl, up);
    NoLinkAfterAddress(attr, v, wpurl);
    ReplaceAllAbsent(attr + wpurl + v + "\"", HrefAttr + "/", HrefAttr + url);
  }

  /** A quoted attribute value outside the uploads path starts no uploads reference. */
  lemma NoRefAtOtherAttribute(attr: string, v: string, up: string)
    requires attr == SrcAttr || attr == HrefAttr
    requires '"' !in up && !IsPrefix(up, v)
    ensures !OccursAt(attr + "/" + v + "\"", UploadRef(SrcAttr, up), 0)
    ensures !OccursAt(attr + "/" + v + "\"", UploadRef(HrefAttr, up), 0)
  {
    var s := attr + "/" + v + "\"";
    assert s == attr + "/" + (v + "\"");
    NotPrefixBeforeChar(up, v, '"');
    PrefixAfterHead(attr + "/", up, v + "\"");
    var other := if attr == HrefAttr then UploadRef(SrcAttr, up) else UploadRef(HrefAttr, up);
    assert other[0] != s[0];
    if |other| <= |s| {
      assert s[..|other|][0] == s[0];
    }
  }

  /** The pieces of a quoted attribute after its first character. */
  lemma OtherAttributeShape(attr: string, v: string)
    requires attr == SrcAttr || attr == HrefAttr
    ensures (attr + "/" + v + "\"")[1..] == (attr[1..] + "/") + (v + "\"")
    ensures 's' !in attr[1..] + "/" && 'h' !in attr[1..] + "/"
  {
  }

  /** A quoted attribute value outside the uploads path passes the uploads pass untouched. */
  lemma ExpandUploadsOtherAttribute(attr: string, v: string, wpurl: string, up: string)
    requires attr == SrcAttr || attr == HrefAttr
    requires '"' !in v && '"' !in up
    requires !IsPrefix(up, v)
    ensures ExpandUploads(attr + "/" + v + "\"", up, wpurl) == attr + "/" + v + "\""
  {
    var s := attr + "/" + v + "\"";
    NoRefAtOtherAttribute(attr, v, up);
    ExpandUploadsStep(s, up, wpurl);
    OtherAttributeShape(attr, v);
    ExpandUploadsSkip(attr[1..] + "/", v + "\"", up, wpurl);
    QuotedTailHasNoRef(v, up);
    ExpandUploadsAbsent(v + "\"", up, wpurl);
    assert s == [s[0]] + s[1..];
  }

  /** A quoted `href` value outside the uploads path gets the site address. */
  lemma AbsoluteOtherHref(v: string, wpurl: string, url: string, up: string)
    requires '"' !in v && '"' !in up
    requires !IsPrefix(up, v)
    ensures AbsoluteText(HrefAttr + "/" + v + "\"", wpurl, url, up) == HrefAttr + url + v + "\""
  {
    var s := HrefAttr + "/" + v + "\"";
    var link := HrefAttr + "/";
    assert s[0] == 'h';
    AbsoluteTextNotBare(s, wpurl, url, up);
    ExpandUploadsOtherAttribute(HrefAttr, v, wpurl, up);
    QuotedTailHasNoLink(v);
    assert s == link + (v + "\"");
    ReplaceAllHead(link, v + "\"", HrefAttr + url);
    ReplaceAllAbsent(v + "\"", link, HrefAttr + url);
  }

  /** A quoted `src` value outside the uploads path is left alone. */
  lemma AbsoluteOtherSrc(v: string, wpurl: string, url: string, up: string)
    requires '"' !in v && '"' !in up
    requires !IsPrefix(up, v)
    ensures AbsoluteText(SrcAttr + "/" + v + "\"", wpurl, url, up) == SrcAttr + "/" + v + "\""
  {
    var s := SrcAttr + "/" + v + "\"";
    assert s[0] == 's';
    AbsoluteTextNotBare(s, wpurl, url, up);
    ExpandUploadsOtherAttribute(SrcAttr, v, wpurl, up);
    forall k | 5 <= k < |s| - 1
      ensures s[k] != '"' || s[k + 1] != '/'
    {
      if k >= 6 {
        assert s[k] == v[k - 6];
      }
    }
    NoLinkWithoutQuoteSlash(s);
    ReplaceAllAbsent(s, HrefAttr + "/", HrefAttr + url);
  }

  /** One quoted `src` or `href` attribute whose root-relative value `v` holds no
      quote: a value inside the uploads path gets the WordPress address, any other
      `href` value gets the site address, and any other `src` value stays as it is. */
  lemma AbsoluteAttribute(attr: string, v: string, wpurl: string, url: string, up: string)
    requires attr == SrcAttr || attr == HrefAttr
    requires '"' !in v && '"' !in up && '"' !in wpurl
    requires |wpurl| > 0 && wpurl[0] != '/'
    ensures IsPrefix(up, v) ==>
      AbsoluteText(attr + "/" + v + "\"", wpurl, url, up) == attr + wpurl + v + "\""
    ensures !IsPrefix(up, v) && attr == HrefAttr ==>
      AbsoluteText(attr + "/" + v + "\"", wpurl, url, up) == HrefAttr + url + v + "\""
    ensures !IsPrefix(up, v) && attr == SrcAttr ==>
      AbsoluteText(attr + "/" + v + "\"", wpurl, url, up) == attr + "/" + v + "\""
  {
    if IsPrefix(up, v) {
      AbsoluteUploadAttribute(attr, v, wpurl, url, up);
    } else if attr == HrefAttr {
      AbsoluteOtherHref(v, wpurl, url, up);
    } else {
      AbsoluteOtherSrc(v, wpurl, url, up);
    }
  }
}
