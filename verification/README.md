# Absolute <> Relative URLs: the rewriting core in Dafny

This is a model of the WordPress plugin "Absolute <> Relative URLs", version 1.4.1
(`absolute-relative-urls.php`). When content is saved, the plugin removes the site's own
addresses so that the database holds root-relative URLs. When content is displayed or
edited, it puts the addresses back. Three functions do this:

- `pri_relative_url` is the save filter. It walks the content and, in every string,
  replaces the WordPress address and the site address by `/` using `str_replace`. When
  the site address is a prefix of the WordPress address, the longer WordPress address
  goes first.
- `pri_absolute_url` is the display filter. A string that starts with `/<upload path>`
  is a bare uploads field and gets the WordPress address in front. Any other string
  gets two passes:
  - a regular-expression pass turns `src="/<upload path>` and `href="/<upload path>`
    into the attribute followed by `<wpurl><upload path>`;
  - a `str_replace` pass turns every remaining `href="/` into `href="<url>`.
- `pri_upload_path` derives the uploads path segment from the upload base URL, or falls
  back to `wp-content/uploads`.

The model follows the code of version 1.4.1 as written. The code replaces the addresses
anywhere in a string, not only inside attributes. It adds a trailing slash to both
addresses with `trailingslashit`, and its fallback uploads path has no leading slash.

## Layout

- `strings.dfy` (module `Strings`): prefix and occurrence predicates, and PHP's
  single-needle `str_replace` as `ReplaceAll`. `str_replace` works leftmost and without
  overlap, and resumes after each replacement. An empty needle leaves the subject
  unchanged.
- `content.dfy` (module `Content`): the value a filter receives. It is a string, an
  array or object of keyed entries, or another scalar. `Walk` is the recursion both
  filters share.
- `urls.dfy` (module `Urls`): the operations.
  - `UploadPath` is `pri_upload_path`.
  - `RelativeText` and `AbsoluteText` rewrite one string leaf.
  - `ExpandUploads` is the `preg_replace` on line 95, written as a left-to-right literal
    scan.
  - `Relative` and `Absolute` are the two filters.
  - The host's configuration is a `Site` value: the WordPress address and the site
    address after `trailingslashit`, and what `wp_upload_dir()` reports.
- `text_laws.dfy` (module `TextLaws`): what the string rewrites do, stated against
  independent descriptions:
  - when they change nothing;
  - which occurrence they rewrite;
  - why the replacement order matters;
  - what happens to a single quoted `src` or `href` attribute.
- `round_trip.dfy` (module `RoundTrip`): display followed by save, and save followed by
  display, for one attribute and for whole content trees. It also covers where the
  round trip fails.

Two behaviours follow from the code and are proved, not taken for granted.

- Take a WordPress install in a sub-directory of the site, such as WordPress at
  `http://a/wp/` serving `http://a/`. A link into that directory outside the uploads
  path is saved without the directory. It is then displayed under the site address.
  `RoundTrip.WordPressLinkLost` states this precisely. Uploads references are not
  affected in this configuration, because display puts the WordPress address back in
  front of them.
- Take the reverse: a site address in a sub-directory of the WordPress address, such
  as WordPress at `http://a/` serving `http://a/blog/`, with the uploads path under
  that sub-directory (`blog/up`). A displayed uploads reference then begins with the
  site address, which saving strips first, so `src="/blog/up/x"` comes back as
  `src="/up/x"`. `RoundTrip.SiteUploadLost` states this precisely.

## Model

| member | source | states |
|---|---|---|
| `Urls.UploadPath` | absolute-relative-urls.php:112-120 | With no upload error and a base URL that begins with the WordPress address, the path is exactly the rest of the base URL: the WordPress address followed by the path is the base URL. Otherwise the path is `wp-content/uploads`. |
| `Urls.RelativeText` | absolute-relative-urls.php:51-62 | Saving never lengthens a string leaf, because every replacement puts a single `/` in place of an address of at least one character. |
| `Urls.ExpandUploads` | absolute-relative-urls.php:95 | The uploads pass never shortens text, because it puts the WordPress address in place of a `/`. |
| `Urls.AbsoluteText` | absolute-relative-urls.php:86-97 | Display never shortens a string leaf, whether it is a bare uploads field or regular content. |
| `Urls.ExpandContent` | absolute-relative-urls.php:95-96 | The two passes over regular content, the uploads pass then the `href="/` pass, never shorten it, because each puts an address of at least one character in place of a `/`. |
| `Urls.Relative` | absolute-relative-urls.php:42-65 | The save filter replaces every string of the content, in its own position, by its saved form, and keeps everything else: kinds, keys, order, element counts and non-string values. The strings it returns are exactly the saved forms of the input's strings. |
| `Urls.Absolute` | absolute-relative-urls.php:77-100 | The display filter replaces every string of the content, in its own position, by its displayed form, and keeps everything else. The strings it returns are exactly the displayed forms of the input's strings. The uploads path is the one `pri_upload_path` derives. |
| `Content.Walk` | absolute-relative-urls.php:43-50 | Rebuilding arrays and objects entry by entry keeps every key, the order, the element counts and the non-string values, and each string leaf becomes the rewrite of the string that stood in the same place. |
| `Content.RewrittenByUnique` | absolute-relative-urls.php:43-50 | The walk is the only tree that rewrites the content string by string in place: any tree related to the content that way is the walk's result. |
| `Content.RewrittenShape` | absolute-relative-urls.php:43-50 | Content rewritten string by string in place keeps its kinds, keys, order, element counts and non-string values. |
| `Content.WalkLeaves` | absolute-relative-urls.php:43-51 | The strings of the rewritten content are exactly the images of the original strings, in both directions. |
| `Content.WalkFixed` | absolute-relative-urls.php:43-51 | If the leaf rewrite fixes every string of the content, the walk returns the content unchanged. |
| `Content.WalkFixedOnly` | absolute-relative-urls.php:78-86 | Conversely, if the walk returns the content unchanged, the leaf rewrite fixes every string of it. |
| `Content.WalkRoundTrip` | absolute-relative-urls.php:78-86 | If one leaf rewrite undoes another on every string, walking with both gives the content back. |
| `Strings.ReplaceAllAbsent` | absolute-relative-urls.php:55 | `str_replace` with a needle that does not occur returns the subject unchanged. |
| `Strings.ReplaceAllLeftmost` | absolute-relative-urls.php:57-58 | `str_replace` copies the text before the leftmost occurrence, replaces that occurrence, and carries on right after it, so a replaced span is never rescanned. |
| `Strings.ReplaceAllLength` | absolute-relative-urls.php:60-61 | When the needle occurs, a shorter replacement strictly shortens the subject and a longer one strictly lengthens it. |
| `Strings.ReplaceAllSkip` | absolute-relative-urls.php:96 | Text in front of the rest in which no occurrence starts is copied through unchanged. |
| `TextLaws.RelativeTextUnchanged` | absolute-relative-urls.php:51-62 | A string leaf is left unchanged by saving exactly when it contains neither address. This holds for each of the three orderings. |
| `TextLaws.RelativeLongerFirst` | absolute-relative-urls.php:54-61 | When one address is a proper prefix of the other, a reference through the longer address loses all of it and becomes `/` followed by the rest. |
| `TextLaws.RelativeOrderMatters` | absolute-relative-urls.php:56-61 | Replacing the shorter address first would leave the longer address's extra directory behind, a different result from what the filter produces. |
| `TextLaws.ExpandUploadsAbsent` | absolute-relative-urls.php:95 | Text with no `src="/<up>` and no `href="/<up>` passes the uploads pass unchanged. |
| `TextLaws.ExpandUploadsGrows` | absolute-relative-urls.php:95 | Text with an uploads reference comes out strictly longer, so it does change. |
| `TextLaws.ExpandUploadsLeftmost` | absolute-relative-urls.php:95 | The leftmost uploads reference is the one rewritten. Its attribute is kept, `/<up>` becomes `<wpurl><up>`, the text before it is copied, and the scan resumes after it. |
| `TextLaws.ExpandUploadsSkip` | absolute-relative-urls.php:95 | Text containing neither `s` nor `h` cannot start a reference, and is copied through. |
| `TextLaws.AbsoluteBareUpload` | absolute-relative-urls.php:91-93 | A bare uploads field only gets the WordPress address in place of its leading `/`, whatever follows. No attribute rewrite applies to it. |
| `TextLaws.AbsoluteTextUnchanged` | absolute-relative-urls.php:92-97 | Regular content is left unchanged by display exactly when it has no `href="/` and no `src="/<up>`. A `src="/` outside the uploads path does not count. |
| `TextLaws.ExpandUploadAttribute` | absolute-relative-urls.php:95 | A quoted attribute value inside the uploads path gets the WordPress address in place of its `/`. |
| `TextLaws.ExpandUploadsOtherAttribute` | absolute-relative-urls.php:95 | A quoted attribute value outside the uploads path passes the uploads pass untouched. |
| `TextLaws.AbsoluteUploadAttribute` | absolute-relative-urls.php:94-97 | After both passes, a quoted uploads reference reads `attr` + WordPress address + value. The second pass finds nothing left to change. |
| `TextLaws.AbsoluteOtherHref` | absolute-relative-urls.php:96 | A quoted `href` value outside the uploads path gets the site address. |
| `TextLaws.AbsoluteOtherSrc` | absolute-relative-urls.php:94-97 | A quoted `src` value outside the uploads path is left as it is. |
| `TextLaws.AbsoluteAttribute` | absolute-relative-urls.php:94-96 | The three outcomes for one quoted `src` or `href` value: the WordPress address inside the uploads path, the site address for other links, and no change for other sources. |
| `RoundTrip.UploadAttributeRoundTrip` | absolute-relative-urls.php:52-96 | A stored uploads reference is displayed with the WordPress address, and saving that gives the stored form back. This holds when the site address is the WordPress address or a prefix of it. When the site address is longer, it holds only if the displayed reference does not contain the site address. |
| `RoundTrip.LinkAttributeRoundTrip` | absolute-relative-urls.php:52-96 | A stored link outside the uploads path is displayed with the site address, and saving that gives the stored form back. |
| `RoundTrip.SourceAttributeRoundTrip` | absolute-relative-urls.php:52-96 | A stored `src` outside the uploads path is neither changed by display nor by saving. |
| `RoundTrip.WordPressLinkLost` | absolute-relative-urls.php:56-96 | With WordPress in a sub-directory of the site, a link into that directory is saved without the directory and displayed under the site address, which differs from the link that was saved. |
| `RoundTrip.SiteUploadLost` | absolute-relative-urls.php:56-95 | With the site address a sub-directory `d` of the WordPress address and the uploads path under `d`, a stored uploads reference `/<d><t>` is displayed as the site address followed by `t` and saved back as `/<t>`. The stored value meets every other condition of the round trip; it fails only the clause about the site address after display. |
| `RoundTrip.AttributeRoundTrip` | absolute-relative-urls.php:42-100 | Display followed by save gives back every reversible stored attribute. |
| `RoundTrip.UploadPathUnquoted` | absolute-relative-urls.php:112-120 | The uploads path contains no quote when the upload base URL contains none. |
| `RoundTrip.TreeRoundTrip` | absolute-relative-urls.php:42-100 | Content whose strings are all reversible stored attributes comes back unchanged from the display filter followed by the save filter. |
| `RoundTrip.TreeSaveRoundTrip` | absolute-relative-urls.php:42-100 | Content in the displayed form comes back unchanged from the save filter followed by the display filter. |
| `RoundTrip.RelativeUnchanged` | absolute-relative-urls.php:42-65 | The save filter leaves content unchanged exactly when none of its strings contains either address. |
| `RoundTrip.AbsoluteUnchanged` | absolute-relative-urls.php:77-100 | The display filter leaves content unchanged exactly when none of its strings is a bare uploads field, contains `href="/`, or contains `src="/<up>`. |

## Left out

- The filter lists and the `add_filter` loops (lines 20-38, 67-73 and 102-108) only
  attach the two filters to WordPress hooks. They are not modelled.
- The `ABSPATH` guard (lines 14-17) is not modelled.
- `get_bloginfo`, `trailingslashit` and `wp_upload_dir` are host calls. Their results
  are the fields of `Site`. The round-trip lemmas require the addresses to look the
  way `trailingslashit` leaves them: they end with `/`.
- The `error` entry of `wp_upload_dir()` is a PHP truthy value. It is modelled as a
  `bool`.
- The upload path is spliced into the regular expression on line 95 without escaping.
  `ExpandUploads` matches it literally, so the following are not modelled:
  - metacharacters such as `.` in the path;
  - the `chr(127)` delimiter appearing inside the path;
  - `$` or `\` sequences in the WordPress address or the path, which `preg_replace`
    would read as references in the replacement.
- PHP arrays and objects are modelled as ordered keyed entries. References,
  by-value iteration, object identity and property visibility are not modelled.
- Floats and resources are not modelled. They are scalars that the filters return
  unchanged, so they behave like the modelled null, booleans and integers. Closures
  are not modelled either. A closure is an object whose `foreach` yields nothing, so
  it comes back as an empty object would.
- PHP strings are byte strings; the model works on sequences of `char`. Every match
  here is a literal comparison, which gives the same answer on UTF-8 text whether it
  is read byte by byte or character by character.
- `strpos` with an empty needle is modelled as PHP 8 treats it: `IsPrefix` of the
  empty string holds. None of the plugin's needles can be empty.
- `RoundTrip.TreeRoundTrip` and `RoundTrip.TreeSaveRoundTrip` cover content whose
  string leaves are each one quoted `src` or `href` attribute with a quote-free value.
  Free text that mixes attributes is not covered by a round-trip lemma. Its behaviour
  follows from `TextLaws.ExpandUploadsLeftmost` and `Strings.ReplaceAllLeftmost`.
- `RoundTrip.UploadAttributeRoundTrip` does not cover a site address that is a
  sub-directory `d` of the WordPress address with the uploads path under `d`, such as
  WordPress at `http://a/`, the site at `http://a/blog/` and uploads at `blog/up`.
  There, display followed by save loses `d` from an uploads reference. The lemma
  requires that the displayed reference not contain the site address, and
  `RoundTrip.SiteUploadLost` proves the loss.
- `RoundTrip.AttributeRoundTrip` covers only values that satisfy `Reversible`. Values
  that break any of these three groups of conditions are left out:
  - Boundary conditions: the addresses do not start with `/` and hold no quote, and the
    stored value holds no quote and neither address. Without them the save filter could
    match across the attribute boundary.
  - An uploads reference, when the site address is not a prefix of the WordPress
    address: the displayed `<wpurl><value>"` must not contain the site address. Without
    this, saving strips the site address and loses part of the path, as
    `RoundTrip.SiteUploadLost` shows.
  - An `href` outside the uploads path, when the WordPress address is a sub-directory of
    the site address: the displayed `<url><value>"` must not contain the WordPress
    address. Without this, saving strips the WordPress address and the directory is
    lost, as `RoundTrip.WordPressLinkLost` shows.
