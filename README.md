# jupyblog link tracking, modelled in Dafny

This project models jupyblog's link-tracking rewriter, `src/jupyblog/utm.py`. The rewriter works on a rendered markdown document:

- `find_urls` (`Locator.FindUrls`) locates every `http://` or `https://` token with the regular expression `https?://[^\s\(\)]+`.
- `is_image` (`Images.IsImage`) recognises a URL path whose final segment ends in an image suffix.
- `add_utm_to_url` merges the three tracking keys `utm_source`, `utm_medium` and `utm_campaign` into a URL's query. `Utm.AddUtmToUrl` models it for a parsed URL and `Utm.AddUtmToUrlText` for text; `Utm.MergedParams` is the merged dictionary and `Utm.Annotate` the URL with the written query.
- `add_utm_to_all_urls` parses every located URL (`Utm.ParseAll`) and drops the images (`Utm.NonImages`). It maps each remaining URL's `geturl()` form to its tagged form (`Utm.Mapping`), then rewrites the text one mapping entry at a time with a global `str.replace` (`Utm.ReplaceAll`, specified by `Utm.ApplyMapping`). `Utm.AllUrlsResult` is the whole result and `Utm.AddUtmToAllUrls` the method.

The Python library behaviour the rewriter depends on is written out as Dafny functions. Each has the lemmas the rewriter's properties need:

- `urlparse` (`Urls.Parse`), `geturl` (`Urls.GetUrl`): `urlsplit`/`urlunsplit` as in CPython 3.9.17 to 3.9.20 and 3.10.12 to 3.10.15, including `;params` on the last path segment. The match is exact for URLs whose authority is ASCII; a non-ASCII authority that NFKC normalisation breaks is refused by every release and accepted by the model, and later releases also refuse some bracketed hosts (see "## Left out").
- `parse_qsl` (`Query.ParseQsl`), `urlencode` (`Query.Urlencode`): default arguments.
- `quote_plus` (`Quoting.QuotePlus`), `unquote` (`Quoting.Unquote`), `unquote_plus` (`Quoting.UnquotePlus`): over UTF-8 (`Utf8.Encode`, `Utf8.Decode`).
- Python dictionaries (`Dict.Entries`): insertion order, `d[k] = v` (`Dict.Put`), `dict(pairs)` (`Dict.FromPairs`), `{**a, **b}` (`Dict.Update`).
- `str.replace` (`Text.Replace`), `str.split` (`Text.Split`), `str.join` (`Text.Join`).
- The regular-expression scan: `Locator.MatchLength` is the greedy match at one position and `Locator.Spans` the `re.findall` walk.
- `PurePosixPath.name` (`Images.Name`).

`add_utm_to_all_urls` is a method. Its replacement loop is the method `Utm.ReplaceAll`, proved against the left fold `Utm.ApplyMapping`. Everything else in the source is an expression and is modelled by functions.

The global replace is modelled as written. A located URL that is a substring of another located URL is therefore also rewritten inside the longer one. A URL that occurs elsewhere in the text is rewritten there too. This is the source's behaviour, and the model keeps it.

`urlparse` raises `ValueError("Invalid IPv6 URL")` when a URL's authority has a `[` without a `]` or the other way round. The rewriter calls `urlparse` on every located URL, so such a URL makes it raise. The model follows the code: `Urls.Parse`, `Utm.AddUtmToUrlText` and `Utm.AddUtmToAllUrls` return `Fail` in that case. `urlparse` can also raise for a non-ASCII authority that NFKC normalisation changes, and in some releases for a malformed bracketed host. The model does not make those checks (see "## Left out").

## Model

| member | source | states |
|---|---|---|
| Locator.FindUrls | src/jupyblog/utm.py:12 | as many located URLs as spans, each one its span's text; the spans are found scanning left to right from the start of the text |
| Locator.Spans | src/jupyblog/utm.py:12 | every span is a non-empty piece of the text lying at or after the scan position |
| Locator.SpansMatch | src/jupyblog/utm.py:12 | every span is exactly the longest match at its start |
| Locator.SpansOrdered | src/jupyblog/utm.py:12 | spans are pairwise ordered left to right and do not overlap |
| Locator.SpansComplete | src/jupyblog/utm.py:12 | every position where a match could start lies inside some span, so no match is skipped |
| Locator.SpansEmpty | src/jupyblog/utm.py:12 | a text with no match position yields no spans |
| Locator.FindUrlsShape | src/jupyblog/utm.py:12 | every located URL begins with `http://` or `https://` and holds no whitespace, `(` or `)` |
| Locator.MatchInPattern | src/jupyblog/utm.py:12 | a match found at a position is a word of the pattern `https?://[^\s()]+` |
| Locator.MatchLengthLongest | src/jupyblog/utm.py:12 | any pattern word starting at a position is no longer than the match found there (greedy, maximal match) |
| Locator.MatchEndsAtDelimiter | src/jupyblog/utm.py:12 | a match ends at the end of the text or just before whitespace, `(` or `)` |
| Locator.RunIsMaximal | src/jupyblog/utm.py:12 | the character run `[^\s()]+` takes every allowed character and stops at the first disallowed one |
| Locator.HttpAtSlice | src/jupyblog/utm.py:12 | the character tests for the scheme agree with "starts with `http://`" and "starts with `https://`" |
| Locator.InPatternShape | src/jupyblog/utm.py:12 | a pattern word starts with an http scheme and has only allowed characters |
| Locator.FindUrlsNone | src/jupyblog/utm.py:12 | a text without `http` has no located URL |
| Images.LastProperBelow | src/jupyblog/utm.py:53 | the name `PurePosixPath` reports is empty, or one of the given segments that is neither empty nor `.` |
| Images.NameHasNoSlash | src/jupyblog/utm.py:53 | a path's name holds no `/` |
| Images.NameOfChild | src/jupyblog/utm.py:53 | the name of `dir/x` is `x` for a plain segment `x` |
| Images.NameIgnoresTrailing | src/jupyblog/utm.py:53 | a trailing `/` or `/.` does not change the name |
| Images.LastProperAppend | src/jupyblog/utm.py:53 | appending a segment makes it the name exactly when it is neither empty nor `.` |
| Images.IsImageOfChild | src/jupyblog/utm.py:52-56 | `dir/x` is an image exactly when `x` ends with `.` and one of png, jpg, jpeg, svg, webp, gif |
| Images.ExamplePng | src/jupyblog/utm.py:52-56 | `/img/cat.png` is an image |
| Images.ExampleTrailingSlash | src/jupyblog/utm.py:52-56 | `/img/cat.png/` is an image, because the name ignores a trailing slash |
| Images.ExampleUpperCase | src/jupyblog/utm.py:52-56 | `/img/cat.PNG` is not an image: the suffix test is case-sensitive |
| Images.ExampleDirectory | src/jupyblog/utm.py:52-56 | `/a.png/b` is not an image: only the final segment counts |
| Text.ReplaceIsJoinOfSplit | src/jupyblog/utm.py:47 | `t.replace(p, s)` equals `s.join(t.split(p))` |
| Text.ReplaceBySelf | src/jupyblog/utm.py:47 | replacing a pattern by itself leaves the text unchanged |
| Text.ReplaceAbsent | src/jupyblog/utm.py:47 | a text without the pattern comes back unchanged |
| Text.JoinSplit | src/jupyblog/utm.py:21 | joining a split with its separator restores the text |
| Text.SplitJoinChar | src/jupyblog/utm.py:21-28 | splitting joined pieces that lack the separator character gives the pieces back |
| Text.RFind | src/jupyblog/utm.py:17 | the index is the last occurrence of the character, or -1 when there is none |
| Text.IndexOf | src/jupyblog/utm.py:17 | the index is the first occurrence of the character, or the length when there is none |
| Utf8.DecodeEncode | src/jupyblog/utm.py:21-28 | decoding the UTF-8 encoding of a text gives the text back |
| Quoting.QuotePlus | src/jupyblog/utm.py:28 | `quote_plus` writes only letters, digits, `_.-~`, `+` and `%`, and is empty exactly for the empty text |
| Quoting.UnquotePlusQuotePlus | src/jupyblog/utm.py:21-28 | `unquote_plus(quote_plus(s)) == s` for every text |
| Quoting.QuotePlusUnchanged | src/jupyblog/utm.py:28 | text made of always-safe characters is written as it is |
| Quoting.UnquoteWithoutPercent | src/jupyblog/utm.py:21 | text without `%` is read back unchanged |
| Query.ParseQslValuesNonBlank | src/jupyblog/utm.py:21 | `parse_qsl` with its defaults never yields a blank value |
| Query.ParseEncodedField | src/jupyblog/utm.py:21-28 | one written field reads back as its pair, or is skipped when its value is blank |
| Query.ParseQslUrlencode | src/jupyblog/utm.py:21-28 | `parse_qsl(urlencode(d))` is `d` without its blank entries, in order |
| Query.GetNonBlank | src/jupyblog/utm.py:21 | dropping blank entries hides exactly the keys whose value is blank |
| Query.UrlencodeChars | src/jupyblog/utm.py:28 | `urlencode` writes only `quote_plus` output, `=` and `&` |
| Query.UrlencodeLacks | src/jupyblog/utm.py:28-30 | the written query holds no `#`, tab, carriage return or line feed |
| Query.NonBlankAll | src/jupyblog/utm.py:21 | entries with no blank value are kept whole |
| Query.UpdateNonBlank | src/jupyblog/utm.py:28 | the merge of two dictionaries without blank values has none |
| Dict.Put | src/jupyblog/utm.py:28 | `d[k] = v` keeps an existing key in place and appends a new one; `k` then maps to `v` and every other key is unchanged |
| Dict.Absorb | src/jupyblog/utm.py:28 | the merged key list holds every key of either side, each once when the first side is duplicate-free |
| Dict.Update | src/jupyblog/utm.py:28 | `{**a, **b}` keeps the keys distinct |
| Dict.UpdateGet | src/jupyblog/utm.py:28 | in `{**a, **b}` a key takes its last value in `b`, else its value in `a` |
| Dict.UpdateKeys | src/jupyblog/utm.py:28 | the keys of `{**a, **b}` are those of `a`, then the new keys of `b` in first-occurrence order |
| Dict.FromPairsGet | src/jupyblog/utm.py:41-44 | `dict(pairs)` gives each key the value of its last pair |
| Dict.FromPairsKeys | src/jupyblog/utm.py:41-44 | `dict(pairs)` lists each key once, in first-occurrence order |
| Dict.FromPairsDistinct | src/jupyblog/utm.py:21 | `dict(d.items())` is `d` |
| Dict.AbsorbDistinct | src/jupyblog/utm.py:28 | absorbing distinct keys appends exactly the missing ones, in order |
| Dict.DedupOrder | src/jupyblog/utm.py:41-44 | deduplicated keys appear in the order of their first occurrence |
| Dict.PutExisting | src/jupyblog/utm.py:28 | assigning a key the value it already has changes nothing |
| Dict.PutNew | src/jupyblog/utm.py:28 | assigning a new key appends it at the end |
| Urls.LowerAscii | src/jupyblog/utm.py:17 | lower-casing the scheme keeps its length, turns `A` to `Z` into `a` to `z` and keeps every other character |
| Urls.ParseGetUrl | src/jupyblog/utm.py:30 | for a well-formed `http`/`https` URL, `urlparse(u.geturl())` gives back `u` in every component |
| Urls.SplitRestOfGetUrl | src/jupyblog/utm.py:30 | splitting the written path, params, query and fragment recovers those components |
| Urls.SplitPathParams | src/jupyblog/utm.py:17 | `;params` after the last path segment are split off again as written |
| Urls.RemoveUnsafeNoop | src/jupyblog/utm.py:17 | a URL with no tab, carriage return or line feed is not altered by their removal |
| Urls.ParseWellFormed | src/jupyblog/utm.py:36 | a text that starts with `http://` or `https://`, holds no tab, carriage return or line feed and is accepted by `urlparse` parses to well-formed components: an authority without `/?#` and with balanced brackets, an empty or absolute path with a plain last segment, params only after a path, a query without `#` |
| Utm.AddUtmToUrlText | src/jupyblog/utm.py:15-19 | a textual URL fails, with `Invalid IPv6 URL`, exactly when `Urls.Parse` refuses it, and otherwise is tagged as its parsed form; `Urls.Parse` leaves out the NFKC authority check, so a URL such as `http://℀` is tagged where `urlparse` raises |
| Utm.TrackingKeysDistinct | src/jupyblog/utm.py:22-26 | the `utm` dictionary lists source, medium, campaign, each once |
| Utm.MergedDistinct | src/jupyblog/utm.py:21-28 | the merged parameters hold each key once |
| Utm.UpdateTracking | src/jupyblog/utm.py:22-28 | merging the `utm` dictionary into any dictionary sets the three tracking values and leaves every other key as it was |
| Utm.MergedTracking | src/jupyblog/utm.py:21-28 | the tracking values override any like-named parameter of the query |
| Utm.MergedOther | src/jupyblog/utm.py:21-28 | any other key keeps the value of its last occurrence in the query |
| Utm.MergedKeys | src/jupyblog/utm.py:21-28 | key order: the query's keys in first-occurrence order (a tracking key that was present keeps its place), then the absent tracking keys in the order source, medium, campaign |
| Utm.DecodedQuery | src/jupyblog/utm.py:21-28 | the written query decodes to the merged parameters without the blank ones |
| Utm.DecodedTracking | src/jupyblog/utm.py:21-28 | the written query decodes each tracking key to its value, except that a blank value is dropped |
| Utm.DecodedOther | src/jupyblog/utm.py:21-28 | every other key decodes to the value of its last non-blank occurrence in the original query; keys with only blank values are gone |
| Utm.MergedValuesNonBlank | src/jupyblog/utm.py:21-28 | with non-blank tracking values no merged parameter is blank |
| Utm.UpdateTrackingNoop | src/jupyblog/utm.py:28 | merging the `utm` dictionary into one that already holds those values changes nothing |
| Utm.AnnotateIdempotent | src/jupyblog/utm.py:21-28 | with non-blank tracking values, tagging an already tagged URL changes nothing |
| Utm.AnnotateEmptyQuery | src/jupyblog/utm.py:21-28 | a URL without a query gets exactly `utm_source=…&utm_medium=…&utm_campaign=…` with `quote_plus` values |
| Utm.MergedEmpty | src/jupyblog/utm.py:21-28 | an empty query merges to the `utm` dictionary itself |
| Utm.UrlencodeTracking | src/jupyblog/utm.py:28 | the `utm` dictionary is written as the three tracking fields, `&`-separated, in order |
| Utm.KeyUnquoted | src/jupyblog/utm.py:28 | `quote_plus` writes the tracking keys as they are |
| Utm.AnnotateWellFormed | src/jupyblog/utm.py:28 | replacing the query keeps a well-formed `http`/`https` URL well formed |
| Utm.ReparseAddUtmToUrl | src/jupyblog/utm.py:28-30 | only the query changes: parsing the tagged URL gives back the same scheme, netloc, path, params and fragment, with the merged query |
| Utm.UrlCharsSafe | src/jupyblog/utm.py:12 | a located URL holds no tab, carriage return or line feed, so `urlsplit` deletes nothing from it |
| Utm.LocatedWellFormed | src/jupyblog/utm.py:36 | every located URL that `urlparse` accepts parses to well-formed components |
| Utm.AddUtmToUrlTextReparse | src/jupyblog/utm.py:15-30 | for a located URL that `urlparse` accepts, `add_utm_to_url` succeeds, and parsing its output gives back the URL's scheme, netloc, path, params and fragment with the merged query |
| Utm.ParseAll | src/jupyblog/utm.py:36 | parsing all located URLs succeeds exactly when each one parses; the result lists each URL's parse, in order |
| Utm.Collect | src/jupyblog/utm.py:36 | a sequence of results collects to its values exactly when none failed |
| Utm.NonImagesMembers | src/jupyblog/utm.py:39 | the filter keeps exactly the URLs whose path is not an image, and never grows the list |
| Utm.NonImagesEmpty | src/jupyblog/utm.py:39 | the filter leaves nothing exactly when every path is an image |
| Utm.MappingPairs | src/jupyblog/utm.py:41-44 | the comprehension has one pair per remaining URL |
| Utm.MappingShape | src/jupyblog/utm.py:41-44 | the mapping's keys are the `geturl()` forms, each once, in first-occurrence order; a key takes the value of its last pair |
| Utm.MappingValue | src/jupyblog/utm.py:41-44 | a `geturl()` form maps to the tagged form of the last URL written that way |
| Utm.LastValueAt | src/jupyblog/utm.py:41-44 | a pair whose key does not recur later supplies that key's last value |
| Utm.ApplyConcat | src/jupyblog/utm.py:46-47 | applying the mapping's entries in two consecutive runs is applying them all in order |
| Utm.ReplaceAll | src/jupyblog/utm.py:46-47 | the loop leaves the text with every mapping entry applied in order as a global replace |
| Utm.AddUtmToAllUrls | src/jupyblog/utm.py:33-49 | the result is the `urlparse` error, or the text with the mapping of the located non-image URLs applied in order |
| Utm.AllUrlsFail | src/jupyblog/utm.py:36 | `add_utm_to_all_urls` fails exactly when some located URL is refused by `Urls.Parse`, which leaves out the NFKC authority check |
| Utm.AllUrlsUnchanged | src/jupyblog/utm.py:36-49 | with no located URLs, or only image URLs, the text comes back unchanged |
| Utm.ParsedWellFormed | src/jupyblog/utm.py:36 | the parses of located URLs are all well formed |
| Utm.AllUrlsWellFormed | src/jupyblog/utm.py:36-39 | every URL that `add_utm_to_all_urls` tags is well formed |
| Utm.AllUrlsTagged | src/jupyblog/utm.py:36-44 | for every URL that `add_utm_to_all_urls` tags, parsing its tagged form gives back its scheme, netloc, path, params and fragment with the merged query |

## Left out

- `src/jupyblog/config.py` (the blog's paths and processors) plays no part in link tagging; the tracking values come from the caller.
- `urllib.parse`, `pathlib` and `re` are not part of this model as source. Their behaviour is re-stated as functions that match CPython 3.9.17 to 3.9.20 and 3.10.12 to 3.10.15 exactly on URLs whose authority is ASCII.
  - Earlier releases differ: only from 3.9.17 and 3.10.12 on does `urlsplit` strip leading control characters and spaces; tab, carriage return and line feed are deleted from 3.9.5 on; before 3.9.2 `parse_qsl` also splits on `;`.
  - CPython 3.11.4 and later, 3.12 and later, 3.9.21 and later and 3.10.16 and later also refuse a bracketed host that is neither an IPv6 address nor an IPvFuture literal, such as `http://[abc]/x`. The model accepts such a host, so for those releases `Utm.AddUtmToUrlText` and `Utm.AllUrlsFail` describe a rewriter that raises on fewer URLs than the real one.
  - In every release, `urlsplit` raises `ValueError("netloc '…' contains invalid characters under NFKC normalization")` when a non-ASCII authority, with its `@`, `:`, `#` and `?` removed, changes under NFKC normalisation and its normalised form holds one of `/`, `?`, `#`, `@` or `:`. An example is `http://℀`, since `℀` (U+2100) normalises to `a/c`. Such a URL is located, because `℀` is neither whitespace nor a parenthesis. The model leaves out NFKC normalisation. `Urls.Parse` therefore accepts such a URL, and `Utm.AddUtmToUrlText`, `Utm.AllUrlsFail` and `Utm.AddUtmToAllUrls` give `Ok` where the source raises this second `ValueError`.
  - Neither the bracketed-host check nor the NFKC check is modelled.
- `add_utm_to_url(url, ...)` dispatches on `isinstance(url, str)`. This is modelled as two functions: `Utm.AddUtmToUrl` for a parsed URL and `Utm.AddUtmToUrlText` for text. Any other argument type is a Python type error and is not modelled.
- Python's `str` may hold lone surrogate code points; Dafny `char` is a Unicode scalar value, so such strings (which `quote_plus` would reject when encoding) are not modelled.
- Urls.ParseGetUrl: proved only for `http`/`https` URLs of the shape `Urls.WellFormedHttp` describes, which every located URL that `urlparse` accepts has (`Utm.LocatedWellFormed`). It excludes a path starting with `//` under an empty authority: `http:////x` parses to an empty authority and the path `//x`, and `geturl()` writes `http://x`.
- Utm.ReparseAddUtmToUrl: carries the same restriction as `Urls.ParseGetUrl`.
- Utm.AddUtmToUrlTextReparse: excludes the same empty-authority `//` path case, for the same reason.
- Utm.AllUrlsTagged: excludes the same empty-authority `//` path case, for the same reason.
- Utm.ParseAll: does not state which failure message is reported when several URLs are refused; the body reports the first.
- Utm.NonImagesMembers: states membership and size, not that the kept URLs stay in their original order (the function keeps it by construction).
- Utm.AllUrlsUnchanged: the image case needs every located URL to parse, because a refused URL makes `add_utm_to_all_urls` raise whatever its path.
- Utm.AnnotateIdempotent: stated only for non-blank tracking values, because a blank value is dropped when the query is read back.
