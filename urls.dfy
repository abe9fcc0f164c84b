/**
 * URLs split into the six components of `urllib.parse.urlparse` (the
 * generic syntax of section 3 of RFC 3986, with `;params` on the last path
 * segment) and joined back by `geturl()`, that is `urlunparse`.
 */
module Urls {
  import opened Wrappers
  import opened Text

  datatype Url = Url(scheme: string, netloc: string, path: string, params: string, query: string, fragment: string)

  /** Schemes whose last path segment may carry `;params`. */
  const UsesParams: seq<string> := ["", "ftp", "hdl", "prospero", "http", "imap", "https", "shttp", "rtsp",
    "rtspu", "sip", "sips", "mms", "sftp", "tel"]

  /** Schemes that `urlunsplit` writes with a `//` authority even when it is empty. */
  const UsesNetloc: seq<string> := ["", "ftp", "http", "gopher", "nntp", "telnet", "imap", "wais", "file",
    "mms", "https", "shttp", "snews", "prospero", "rtsp", "rtspu", "rsync", "svn", "svn+ssh", "sftp", "nfs",
    "git", "git+ssh", "ws", "wss"]

  const InvalidIPv6: string := "Invalid IPv6 URL"

  predicate IsAsciiLetter(c: char) {
    ('A' <= c <= 'Z') || ('a' <= c <= 'z')
  }

  predicate IsSchemeChar(c: char) {
    IsAsciiLetter(c) || ('0' <= c <= '9') || c == '+' || c == '-' || c == '.'
  }

  /** `str.lower()` on the ASCII letters: `A` to `Z` become `a` to `z`, every other character is kept. */
  function LowerAscii(s: string): (r: string)
    ensures |r| == |s|
    ensures forall i :: 0 <= i < |s| ==> r[i] == (if 'A' <= s[i] <= 'Z' then (s[i] as int + 32) as char else s[i])
  {
    if s == "" then ""
    else [if 'A' <= s[0] <= 'Z' then (s[0] as int + 32) as char else s[0]] + LowerAscii(s[1..])
  }

  /** `s.lstrip()` of the C0 control characters and the space. */
  function LStripControl(s: string): string {
    if s != "" && s[0] as int <= 0x20 then LStripControl(s[1..]) else s
  }

  /** Tab, carriage return and line feed are deleted wherever they occur. */
  function RemoveUnsafe(s: string): string {
    Replace(Replace(Replace(s, "\t", ""), "\r", ""), "\n", "")
  }

  /** The scheme (lower-cased) and the rest, when the text before the first `:` is a scheme. */
  function SplitScheme(url: string): (string, string) {
    var i := IndexOf(url, ':');
    if 0 < i < |url| && IsAsciiLetter(url[0]) && forall j :: 0 <= j < i ==> IsSchemeChar(url[j]) then
      (LowerAscii(url[..i]), url[i + 1..])
    else ("", url)
  }

  /** The authority after a leading `//`, up to the first `/`, `?` or `#`, and the rest. */
  function SplitNetloc(url: string): (string, string)
    requires StartsWith(url, "//")
  {
    var end := 2 + IndexOfAny(url[2..], "/?#");
    (url[2..end], url[end..])
  }

  /** `s.split(c, 1)`, or `s` and the empty string when `c` is absent. */
  function SplitOnce(s: string, c: char): (string, string) {
    var i := IndexOf(s, c);
    if i < |s| then (s[..i], s[i + 1..]) else (s, "")
  }

  /** `;params` start at the first `;` after the last `/`. */
  function SplitParams(url: string): (string, string) {
    var start := RFind(url, '/') + 1;
    var i := start + IndexOf(url[start..], ';');
    if i < |url| then (url[..i], url[i + 1..]) else (url, "")
  }

  /** `urlparse(s)`; unbalanced brackets in the authority raise `ValueError`. */
  function Parse(s: string): Result<Url> {
    var url := RemoveUnsafe(LStripControl(s));
    var (scheme, afterScheme) := SplitScheme(url);
    var (netloc, rest) := if StartsWith(afterScheme, "//") then SplitNetloc(afterScheme) else ("", afterScheme);
    if ('[' in netloc) != (']' in netloc) then Fail(InvalidIPv6)
    else Ok(SplitRest(scheme, netloc, rest))
  }

  /** The fragment after the first `#`, the query after the first `?` before it, and the path with its params. */
  function SplitRest(scheme: string, netloc: string, rest: string): Url {
    var (beforeFragment, fragment) := SplitOnce(rest, '#');
    var (beforeQuery, query) := SplitOnce(beforeFragment, '?');
    var (path, params) := if scheme in UsesParams then SplitParams(beforeQuery) else (beforeQuery, "");
    Url(scheme, netloc, path, params, query, fragment)
  }

  /** `u.geturl()`: empty components are written without their delimiter. */
  function GetUrl(u: Url): string {
    var url := if u.params != "" then u.path + ";" + u.params else u.path;
    var withNetloc :=
      if u.netloc != "" || (u.scheme != "" && u.scheme in UsesNetloc && !StartsWith(url, "//")) then
        "//" + u.netloc + (if url != "" && url[0] != '/' then "/" + url else url)
      else url;
    var withScheme := if u.scheme != "" then u.scheme + ":" + withNetloc else withNetloc;
    var withQuery := if u.query != "" then withScheme + "?" + u.query else withScheme;
    if u.fragment != "" then withQuery + "#" + u.fragment else withQuery
  }

  /** No tab, carriage return or line feed: the characters `urlsplit` deletes. */
  predicate NoUnsafe(s: string) {
    '\t' !in s && '\r' !in s && '\n' !in s
  }

  predicate Lacks(s: string, cs: string) {
    forall i :: 0 <= i < |s| ==> s[i] !in cs
  }

  /**
   * The components `urlparse` yields for an `http` or `https` URL: an
   * authority without `/?#` and with balanced brackets, a path that is empty
   * or absolute and whose last segment holds no `;`, params only after a
   * non-empty path, a query without `#`, and nothing `urlsplit` deletes.
   */
  predicate WellFormedHttp(u: Url) {
    && (u.scheme == "http" || u.scheme == "https")
    && Lacks(u.netloc, "/?#") && (('[' in u.netloc) == (']' in u.netloc))
    && Lacks(u.path, "?#") && (|u.path| == 0 || u.path[0] == '/')
    && LastSegmentPlain(u.path)
    && Lacks(u.params, "/?#") && (|u.params| > 0 ==> |u.path| > 0)
    && '#' !in u.query
    && NoUnsafe(u.netloc) && NoUnsafe(u.path) && NoUnsafe(u.params) && NoUnsafe(u.query) && NoUnsafe(u.fragment)
  }

  /** No `;` among the first `n` characters of `p` after the last `/` among them. */
  predicate PlainBelow(p: string, n: nat)
    requires n <= |p|
  {
    n == 0 || p[n - 1] == '/' || (p[n - 1] != ';' && PlainBelow(p, n - 1))
  }

  /** The last segment of the path holds no `;`, so it carries no params. */
  predicate LastSegmentPlain(p: string) {
    PlainBelow(p, |p|)
  }

  lemma {:induction false} PlainBelowRFind(p: string, n: nat)
    requires n <= |p| && PlainBelow(p, n)
    ensures ';' !in p[RFindBelow(p, '/', n) + 1..n]
  {
    if n > 0 && p[n - 1] != '/' {
      PlainBelowRFind(p, n - 1);
      var k := RFindBelow(p, '/', n - 1);
      assert RFindBelow(p, '/', n) == k;
      NotInSnoc(p, k + 1, n, ';');
    }
  }

  lemma NotInSnoc(p: string, a: nat, n: nat, c: char)
    requires a < n <= |p| && c !in p[a..n - 1] && p[n - 1] != c
    ensures c !in p[a..n]
  {
    assert p[a..n] == p[a..n - 1] + [p[n - 1]];
  }

  lemma LastSegmentPlainRFind(p: string)
    requires LastSegmentPlain(p)
    ensures ';' !in p[RFind(p, '/') + 1..]
  {
    PlainBelowRFind(p, |p|);
    assert p[RFind(p, '/') + 1..|p|] == p[RFind(p, '/') + 1..];
  }

  lemma NotInSlice(s: string, c: char, a: nat, b: nat)
    requires c !in s && a <= b <= |s|
    ensures c !in s[a..b]
  {
    forall i | 0 <= i < b - a ensures s[a..b][i] != c { assert s[a..b][i] == s[a + i]; }
  }

  lemma NoUnsafeSlice(s: string, a: nat, b: nat)
    requires NoUnsafe(s) && a <= b <= |s|
    ensures NoUnsafe(s[a..b])
  {
    NotInSlice(s, '\t', a, b);
    NotInSlice(s, '\r', a, b);
    NotInSlice(s, '\n', a, b);
  }

  lemma RemoveUnsafeNoop(s: string)
    requires NoUnsafe(s)
    ensures RemoveUnsafe(s) == s
  {
    ReplaceCharAbsent(s, '\t', "");
    ReplaceCharAbsent(s, '\r', "");
    ReplaceCharAbsent(s, '\n', "");
  }

  lemma SplitOnceAt(a: string, c: char, b: string)
    requires c !in a
    ensures SplitOnce(a + [c] + b, c) == (a, b)
  {
    var s := a + [c] + b;
    assert s == a + ([c] + b);
    IndexOfConcat(a, [c] + b, c);
    IndexOfHead(c, b);
    AroundChar(a, c, b);
    SplitOnceBy(s, c, |a|);
  }

  lemma IndexOfHead(c: char, b: string)
    ensures IndexOf([c] + b, c) == 0
  {
  }

  lemma AroundChar(a: string, c: char, b: string)
    ensures (a + [c] + b)[..|a|] == a
    ensures (a + [c] + b)[|a| + 1..] == b
  {
  }

  lemma SplitOnceBy(s: string, c: char, i: nat)
    requires IndexOf(s, c) == i < |s|
    ensures SplitOnce(s, c) == (s[..i], s[i + 1..])
  {
  }

  lemma SplitOnceAbsent(a: string, c: char)
    requires c !in a
    ensures SplitOnce(a, c) == (a, "")
  {
  }

  /** A path whose last segment has no `;` followed by `;params` splits back into the two. */
  lemma SplitParamsBy(x: string, st: nat, e: nat)
    requires st == RFind(x, '/') + 1
    requires st <= e < |x| && IndexOf(x[st..], ';') == e - st
    ensures SplitParams(x) == (x[..e], x[e + 1..])
  {
  }

  lemma SplitParamsAt(path: string, params: string)
    requires path != "" && path[0] == '/'
    requires ';' !in path[RFind(path, '/') + 1..]
    requires '/' !in params
    ensures SplitParams(path + ";" + params) == (path, params)
  {
    var st := RFind(path, '/') + 1;
    RFindBeforeParams(path, params);
    IndexAfterLastSlash(path, params, st);
    SplitParamsAround(path, params, st);
  }

  lemma SplitParamsAround(path: string, params: string, st: nat)
    requires st == RFind(path + ";" + params, '/') + 1
    requires st <= |path| && IndexOf((path + ";" + params)[st..], ';') == |path| - st
    ensures SplitParams(path + ";" + params) == (path, params)
  {
    SplitParamsBy(path + ";" + params, st, |path|);
    AroundSemicolon(path, params);
  }

  lemma AroundSemicolon(path: string, params: string)
    ensures (path + ";" + params)[..|path|] == path
    ensures (path + ";" + params)[|path| + 1..] == params
  {
  }

  lemma RFindBeforeParams(path: string, params: string)
    requires '/' !in params
    ensures RFind(path + ";" + params, '/') == RFind(path, '/')
  {
    assert path + ";" + params == path + (";" + params);
    RFindConcat(path, ";" + params, '/');
  }

  lemma IndexAfterLastSlash(path: string, params: string, st: nat)
    requires st <= |path| && ';' !in path[st..]
    ensures IndexOf((path + ";" + params)[st..], ';') == |path| - st
  {
    assert (path + ";" + params)[st..] == path[st..] + (";" + params);
    IndexOfConcat(path[st..], ";" + params, ';');
  }

  lemma SplitParamsNone(path: string)
    requires ';' !in path[RFind(path, '/') + 1..]
    ensures SplitParams(path) == (path, "")
  {
  }

  /** `LStripControl` leaves a text that starts with a visible character alone. */
  lemma LStripVisible(s: string)
    requires s != "" && s[0] as int > 0x20
    ensures LStripControl(s) == s
  {
  }

  lemma LacksChar(s: string, cs: string, c: char)
    requires Lacks(s, cs) && c in cs
    ensures c !in s
  {
  }

  /** The path with its params, as `geturl()` writes it. */
  function PathWithParams(u: Url): string {
    if u.params != "" then u.path + ";" + u.params else u.path
  }

  function QueryPart(u: Url): string {
    if u.query != "" then "?" + u.query else ""
  }

  function FragmentPart(u: Url): string {
    if u.fragment != "" then "#" + u.fragment else ""
  }

  lemma GetUrlHttp(u: Url)
    requires u.scheme != "" && u.scheme in UsesNetloc
    requires PathWithParams(u) == "" || PathWithParams(u)[0] == '/'
    requires u.netloc != "" || !StartsWith(PathWithParams(u), "//")
    ensures GetUrl(u) == u.scheme + ":" + ("//" + u.netloc + (PathWithParams(u) + QueryPart(u) + FragmentPart(u)))
  {
    var url := PathWithParams(u);
    var withScheme := u.scheme + ":" + ("//" + u.netloc + url);
    var withQuery := withScheme + QueryPart(u);
    assert GetUrl(u) == withQuery + FragmentPart(u) by {
      if u.query == "" {
        assert withScheme + "" == withScheme;
      }
      if u.fragment == "" {
        assert withQuery + "" == withQuery;
      }
    }
    AppendAfterAuthority(u.scheme, u.netloc, url, QueryPart(u), FragmentPart(u));
  }

  lemma AppendAfterAuthority(scheme: string, netloc: string, a: string, b: string, c: string)
    ensures scheme + ":" + ("//" + netloc + a) + b + c == scheme + ":" + ("//" + netloc + (a + b + c))
  {
  }

  lemma PathWithParamsShape(u: Url)
    requires WellFormedHttp(u)
    requires !(u.netloc == "" && StartsWith(u.path, "//"))
    ensures PathWithParams(u) == "" || PathWithParams(u)[0] == '/'
    ensures u.netloc != "" || !StartsWith(PathWithParams(u), "//")
  {
    var url := PathWithParams(u);
    if u.params != "" {
      if |u.path| >= 2 {
        assert url[..2] == u.path[..2];
      } else {
        assert url[1] == ';';
      }
    }
  }

  lemma NoUnsafeConcat(a: string, b: string)
    requires NoUnsafe(a) && NoUnsafe(b)
    ensures NoUnsafe(a + b)
  {
  }

  lemma RestNoUnsafe(u: Url)
    requires NoUnsafe(u.path) && NoUnsafe(u.params) && NoUnsafe(u.query) && NoUnsafe(u.fragment)
    ensures NoUnsafe(PathWithParams(u) + QueryPart(u) + FragmentPart(u))
  {
    NoUnsafeConcat(u.path, ";");
    NoUnsafeConcat(u.path + ";", u.params);
    NoUnsafeConcat("?", u.query);
    NoUnsafeConcat("#", u.fragment);
    NoUnsafeConcat(PathWithParams(u), QueryPart(u));
    NoUnsafeConcat(PathWithParams(u) + QueryPart(u), FragmentPart(u));
  }

  /** Lower-casing leaves a text without upper-case letters alone. */
  lemma {:induction false} LowerAsciiLower(s: string)
    requires forall i :: 0 <= i < |s| ==> !('A' <= s[i] <= 'Z')
    ensures LowerAscii(s) == s
  {
    if s != "" {
      LowerAsciiLower(s[1..]);
    }
  }

  /** The authority of `//netloc rest` is `netloc` when `rest` is empty or starts a path, query or fragment. */
  lemma SplitNetlocOf(netloc: string, rest: string)
    requires Lacks(netloc, "/?#")
    requires rest == "" || rest[0] in "/?#"
    ensures SplitNetloc("//" + netloc + rest) == (netloc, rest)
  {
    var after := "//" + netloc + rest;
    assert after[2..] == netloc + rest;
    IndexOfAnyConcat(netloc, rest, "/?#");
  }

  lemma SplitSchemeOf(scheme: string, rest: string)
    requires scheme == "http" || scheme == "https"
    ensures SplitScheme(scheme + ":" + rest) == (scheme, rest)
  {
    var g := scheme + ":" + rest;
    HttpLetters(scheme);
    LowerAsciiLower(scheme);
    ColonAfterScheme(scheme, rest);
    SchemeCharsOf(g, scheme);
    SplitSchemeBy(g, |scheme|);
  }

  lemma ColonAfterScheme(scheme: string, rest: string)
    requires ':' !in scheme
    ensures IndexOf(scheme + ":" + rest, ':') == |scheme|
    ensures (scheme + ":" + rest)[..|scheme|] == scheme
    ensures (scheme + ":" + rest)[|scheme| + 1..] == rest
  {
    assert scheme + ":" + rest == scheme + (":" + rest);
    IndexOfConcat(scheme, ":" + rest, ':');
  }

  lemma SchemeCharsOf(g: string, scheme: string)
    requires scheme != "" && |scheme| <= |g| && g[..|scheme|] == scheme
    requires forall j :: 0 <= j < |scheme| ==> 'a' <= scheme[j] <= 'z'
    ensures IsAsciiLetter(g[0])
    ensures forall j :: 0 <= j < |scheme| ==> IsSchemeChar(g[j])
  {
    forall j | 0 <= j < |scheme| ensures 'a' <= g[j] <= 'z' {
      assert g[j] == g[..|scheme|][j];
    }
  }

  /** The scheme is the text before the first `:` when it is a letter followed by scheme characters. */
  lemma SplitSchemeBy(url: string, i: nat)
    requires IndexOf(url, ':') == i && 0 < i < |url| && IsAsciiLetter(url[0])
    requires forall j :: 0 <= j < i ==> IsSchemeChar(url[j])
    ensures SplitScheme(url) == (LowerAscii(url[..i]), url[i + 1..])
  {
  }

  /** The letters of `http` and `https` are lower-case ASCII letters. */
  lemma HttpLetters(scheme: string)
    requires scheme == "http" || scheme == "https"
    ensures forall j :: 0 <= j < |scheme| ==> 'a' <= scheme[j] <= 'z'
  {
  }

  /** `urlparse` of a text that splits into a scheme, a balanced `//` authority and the rest. */
  lemma ParseBy(s: string, scheme: string, netloc: string, rest: string)
    requires RemoveUnsafe(LStripControl(s)) == s
    requires SplitScheme(s) == (scheme, "//" + netloc + rest)
    requires SplitNetloc("//" + netloc + rest) == (netloc, rest)
    requires ('[' in netloc) == (']' in netloc)
    ensures Parse(s) == Ok(SplitRest(scheme, netloc, rest))
  {
  }

  /** `urlparse(u.geturl())` gives back a well-formed `http(s)` URL, except for an empty authority before a `//` path. */
  lemma ParseGetUrl(u: Url)
    requires WellFormedHttp(u)
    requires !(u.netloc == "" && StartsWith(u.path, "//"))
    ensures Parse(GetUrl(u)) == Ok(u)
  {
    var rest := PathWithParams(u) + QueryPart(u) + FragmentPart(u);
    GetUrlForm(u);
    ParseHttpText(GetUrl(u), u.scheme, u.netloc, rest);
    SplitRestOfGetUrl(u);
  }

  /** What `geturl()` writes for a well-formed `http(s)` URL: scheme, `//`, authority, then the rest. */
  lemma GetUrlForm(u: Url)
    requires WellFormedHttp(u)
    requires !(u.netloc == "" && StartsWith(u.path, "//"))
    ensures GetUrl(u) == u.scheme + ":" + ("//" + u.netloc + (PathWithParams(u) + QueryPart(u) + FragmentPart(u)))
    ensures var rest := PathWithParams(u) + QueryPart(u) + FragmentPart(u); rest == "" || rest[0] in "/?#"
    ensures NoUnsafe(GetUrl(u))
  {
    var rest := PathWithParams(u) + QueryPart(u) + FragmentPart(u);
    HttpListed(u.scheme);
    PathWithParamsShape(u);
    GetUrlHttp(u);
    RestStart(u);
    RestNoUnsafe(u);
    NoUnsafeHttp(u.scheme, u.netloc, rest);
  }

  lemma RestStart(u: Url)
    requires PathWithParams(u) == "" || PathWithParams(u)[0] == '/'
    ensures var rest := PathWithParams(u) + QueryPart(u) + FragmentPart(u); rest == "" || rest[0] in "/?#"
  {
  }

  lemma NoUnsafeHttp(scheme: string, netloc: string, rest: string)
    requires scheme == "http" || scheme == "https"
    requires NoUnsafe(netloc) && NoUnsafe(rest)
    ensures NoUnsafe(scheme + ":" + ("//" + netloc + rest))
  {
    NoUnsafeConcat("//", netloc);
    NoUnsafeConcat("//" + netloc, rest);
    NoUnsafeConcat(scheme, ":");
    NoUnsafeConcat(scheme + ":", "//" + netloc + rest);
  }

  /** `urlparse` of `scheme://netloc rest` for an `http(s)` scheme, a balanced authority and a rest that starts a path, query or fragment. */
  lemma ParseHttpText(g: string, scheme: string, netloc: string, rest: string)
    requires scheme == "http" || scheme == "https"
    requires g == scheme + ":" + ("//" + netloc + rest)
    requires Lacks(netloc, "/?#") && ('[' in netloc) == (']' in netloc)
    requires rest == "" || rest[0] in "/?#"
    requires NoUnsafe(g)
    ensures Parse(g) == Ok(SplitRest(scheme, netloc, rest))
  {
    RemoveUnsafeNoop(g);
    LStripVisible(g);
    SplitSchemeOf(scheme, "//" + netloc + rest);
    SplitNetlocOf(netloc, rest);
    ParseBy(g, scheme, netloc, rest);
  }

  /**
   * What `urlparse` yields for a text that starts with `http://` or
   * `https://` and holds nothing `urlsplit` deletes, when it does not
   * refuse it, has the shape `WellFormedHttp` describes.
   */
  lemma ParseWellFormed(s: string)
    requires StartsWith(s, "http://") || StartsWith(s, "https://")
    requires NoUnsafe(s)
    ensures Parse(s).Ok? ==> WellFormedHttp(Parse(s).value)
  {
    var scheme := HttpSchemeOf(s);
    var after := s[|scheme| + 1..];
    AfterSchemeSafe(s, scheme);
    ParseAfterScheme(s, scheme);
    NetlocParts(after);
    NetlocSafe(after);
    if Parse(s).Ok? {
      SplitRestWellFormed(scheme, SplitNetloc(after).0, SplitNetloc(after).1);
    }
  }

  /** The scheme a text starting with `http://` or `https://` names. */
  lemma HttpSchemeOf(s: string) returns (scheme: string)
    requires StartsWith(s, "http://") || StartsWith(s, "https://")
    ensures (scheme == "http" || scheme == "https") && StartsWith(s, scheme + "://")
  {
    scheme := if StartsWith(s, "https://") then "https" else "http";
  }

  /** The text after the colon of `scheme://` starts with `//` and keeps the absence of the deleted characters. */
  lemma AfterSchemeSafe(s: string, scheme: string)
    requires StartsWith(s, scheme + "://") && NoUnsafe(s)
    ensures StartsWith(s[|scheme| + 1..], "//") && NoUnsafe(s[|scheme| + 1..])
  {
    SchemePrefix(s, scheme);
    NoUnsafeSlice(s, |scheme| + 1, |s|);
    assert s[|scheme| + 1..|s|] == s[|scheme| + 1..];
  }

  /** What `urlparse` makes of a text that starts with `scheme://`, in terms of the text after the scheme's colon. */
  lemma ParseAfterScheme(s: string, scheme: string)
    requires scheme == "http" || scheme == "https"
    requires StartsWith(s, scheme + "://") && NoUnsafe(s)
    ensures StartsWith(s[|scheme| + 1..], "//")
    ensures var (netloc, rest) := SplitNetloc(s[|scheme| + 1..]);
      Parse(s) == if ('[' in netloc) != (']' in netloc) then Fail(InvalidIPv6) else Ok(SplitRest(scheme, netloc, rest))
  {
    var after := s[|scheme| + 1..];
    SchemePrefix(s, scheme);
    LStripVisible(s);
    RemoveUnsafeNoop(s);
    SplitSchemeOf(scheme, after);
    ParseParts(s, scheme, after);
  }

  /** The authority and the rest `SplitNetloc` cuts keep the absence of the deleted characters. */
  lemma NetlocSafe(after: string)
    requires StartsWith(after, "//") && NoUnsafe(after)
    ensures NoUnsafe(SplitNetloc(after).0) && NoUnsafe(SplitNetloc(after).1)
  {
    var end := 2 + IndexOfAny(after[2..], "/?#");
    NoUnsafeSlice(after, 2, end);
    NoUnsafeSlice(after, end, |after|);
    assert after[end..|after|] == after[end..];
  }

  /** A text starting with `scheme://` is the scheme, a colon and a text starting with `//`. */
  lemma SchemePrefix(s: string, scheme: string)
    requires StartsWith(s, scheme + "://")
    ensures s == scheme + ":" + s[|scheme| + 1..]
    ensures StartsWith(s[|scheme| + 1..], "//")
    ensures s[0] == (scheme + "://")[0]
  {
    var p := scheme + "://";
    var n := |scheme|;
    assert s[..n] == s[..|p|][..n] == p[..n] == scheme;
    assert s[n] == s[..|p|][n] == p[n] == ':';
    assert s[n + 1..][..2] == s[..|p|][n + 1..] == p[n + 1..] == "//";
    assert s == s[..n] + [s[n]] + s[n + 1..];
    assert s[0] == s[..|p|][0];
  }

  /** `SplitNetloc` cuts the authority, which holds no `/?#`, and a rest that is empty or starts with one of them. */
  lemma NetlocParts(after: string)
    requires StartsWith(after, "//")
    ensures var (netloc, rest) := SplitNetloc(after);
      && netloc == after[2..2 + |netloc|] && rest == after[2 + |netloc|..]
      && Lacks(netloc, "/?#") && (rest == "" || rest[0] in "/?#")
  {
    var i := IndexOfAny(after[2..], "/?#");
    var netloc := after[2..2 + i];
    var rest := after[2 + i..];
    forall j | 0 <= j < |netloc| ensures netloc[j] !in "/?#" {
      assert netloc[j] == after[2..][j];
    }
    if rest != "" {
      assert rest[0] == after[2..][i];
    }
  }

  /** `urlparse` of a text that nothing is stripped from and whose scheme is split off before `//`. */
  lemma ParseParts(s: string, scheme: string, after: string)
    requires RemoveUnsafe(LStripControl(s)) == s
    requires SplitScheme(s) == (scheme, after) && StartsWith(after, "//")
    ensures var (netloc, rest) := SplitNetloc(after);
      Parse(s) == if ('[' in netloc) != (']' in netloc) then Fail(InvalidIPv6) else Ok(SplitRest(scheme, netloc, rest))
  {
  }

  /** The components `SplitRest` cuts from the text after an `http(s)` authority are well formed. */
  lemma SplitRestWellFormed(scheme: string, netloc: string, rest: string)
    requires scheme == "http" || scheme == "https"
    requires Lacks(netloc, "/?#") && ('[' in netloc) == (']' in netloc) && NoUnsafe(netloc)
    requires NoUnsafe(rest) && (rest == "" || rest[0] in "/?#")
    ensures WellFormedHttp(SplitRest(scheme, netloc, rest))
  {
    PiecesWellFormed(rest);
    WellFormedOfPieces(scheme, netloc, rest);
  }

  /** The path, params, query and fragment `SplitRest` cuts from such a rest are well formed. */
  lemma PiecesWellFormed(rest: string)
    requires NoUnsafe(rest) && (rest == "" || rest[0] in "/?#")
    ensures PathWellFormed(SplitParams(SplitOnce(SplitOnce(rest, '#').0, '?').0).0)
    ensures ParamsWellFormed(SplitParams(SplitOnce(SplitOnce(rest, '#').0, '?').0).1)
    ensures |SplitParams(SplitOnce(SplitOnce(rest, '#').0, '?').0).1| > 0 ==> |SplitParams(SplitOnce(SplitOnce(rest, '#').0, '?').0).0| > 0
    ensures '#' !in SplitOnce(SplitOnce(rest, '#').0, '?').1 && NoUnsafe(SplitOnce(SplitOnce(rest, '#').0, '?').1)
    ensures NoUnsafe(SplitOnce(rest, '#').1)
  {
    RestPieces(rest);
    SplitParamsWellFormed(SplitOnce(SplitOnce(rest, '#').0, '?').0);
  }

  /** `SplitRest` assembles well-formed pieces into a well-formed URL. */
  lemma WellFormedOfPieces(scheme: string, netloc: string, rest: string)
    requires scheme == "http" || scheme == "https"
    requires Lacks(netloc, "/?#") && ('[' in netloc) == (']' in netloc) && NoUnsafe(netloc)
    requires PathWellFormed(SplitParams(SplitOnce(SplitOnce(rest, '#').0, '?').0).0)
    requires ParamsWellFormed(SplitParams(SplitOnce(SplitOnce(rest, '#').0, '?').0).1)
    requires |SplitParams(SplitOnce(SplitOnce(rest, '#').0, '?').0).1| > 0 ==> |SplitParams(SplitOnce(SplitOnce(rest, '#').0, '?').0).0| > 0
    requires '#' !in SplitOnce(SplitOnce(rest, '#').0, '?').1 && NoUnsafe(SplitOnce(SplitOnce(rest, '#').0, '?').1)
    requires NoUnsafe(SplitOnce(rest, '#').1)
    ensures WellFormedHttp(SplitRest(scheme, netloc, rest))
  {
    HttpListed(scheme);
  }

  /** The text before the query, the query and the fragment of a rest that starts a path, query or fragment. */
  lemma RestPieces(rest: string)
    requires NoUnsafe(rest) && (rest == "" || rest[0] in "/?#")
    ensures var beforeQuery := SplitOnce(SplitOnce(rest, '#').0, '?').0;
      '?' !in beforeQuery && '#' !in beforeQuery && (beforeQuery == "" || beforeQuery[0] == '/') && NoUnsafe(beforeQuery)
    ensures '#' !in SplitOnce(SplitOnce(rest, '#').0, '?').1 && NoUnsafe(SplitOnce(SplitOnce(rest, '#').0, '?').1)
    ensures NoUnsafe(SplitOnce(rest, '#').1)
  {
    var beforeFragment := SplitOnce(rest, '#').0;
    SplitOnceParts(rest, '#');
    PrefixFacts(beforeFragment, rest);
    SuffixFacts(SplitOnce(rest, '#').1, rest);
    SplitOnceParts(beforeFragment, '?');
    PrefixFacts(SplitOnce(beforeFragment, '?').0, beforeFragment);
    SuffixFacts(SplitOnce(beforeFragment, '?').1, beforeFragment);
  }

  /** A prefix keeps the absence of the deleted characters and of `#`, and the first character. */
  lemma PrefixFacts(a: string, s: string)
    requires |a| <= |s| && a == s[..|a|]
    ensures NoUnsafe(s) ==> NoUnsafe(a)
    ensures '#' !in s ==> '#' !in a
    ensures a != "" ==> a[0] == s[0]
  {
    assert forall i :: 0 <= i < |a| ==> a[i] == s[i];
  }

  /** A suffix keeps the absence of the deleted characters and of `#`. */
  lemma SuffixFacts(b: string, s: string)
    requires |b| <= |s| && b == s[|s| - |b|..]
    ensures NoUnsafe(s) ==> NoUnsafe(b)
    ensures '#' !in s ==> '#' !in b
  {
    assert forall i :: 0 <= i < |b| ==> b[i] == s[|s| - |b| + i];
  }

  /** `s.split(c, 1)` cuts a prefix without `c` and a suffix of `s`. */
  lemma SplitOnceParts(s: string, c: char)
    ensures var (a, b) := SplitOnce(s, c);
      && |a| <= |s| && |b| <= |s| && a == s[..|a|] && b == s[|s| - |b|..] && c !in a
  {
  }

  /** The path `SplitParams` cuts from an empty or absolute path without `?` and `#` is well formed, and so are its params. */
  lemma SplitParamsWellFormed(x: string)
    requires '?' !in x && '#' !in x && NoUnsafe(x)
    requires x == "" || x[0] == '/'
    ensures PathWellFormed(SplitParams(x).0) && ParamsWellFormed(SplitParams(x).1)
    ensures |SplitParams(x).1| > 0 ==> |SplitParams(x).0| > 0
  {
    SplitParamsPathWellFormed(x);
    SplitParamsParamsWellFormed(x);
  }

  /** An empty or absolute path without `?`, `#` or deleted characters whose last segment is plain. */
  predicate PathWellFormed(path: string) {
    Lacks(path, "?#") && (|path| == 0 || path[0] == '/') && LastSegmentPlain(path) && NoUnsafe(path)
  }

  /** Params without `/`, `?`, `#` or deleted characters. */
  predicate ParamsWellFormed(params: string) {
    Lacks(params, "/?#") && NoUnsafe(params)
  }

  /** Where `SplitParams` cuts: the path ends at the first `;` of the last segment. */
  lemma SplitParamsCut(x: string, st: nat, e: nat)
    requires st == RFind(x, '/') + 1 && e == st + IndexOf(x[st..], ';')
    ensures SplitParams(x).0 == x[..e]
    ensures SplitParams(x).1 == if e < |x| then x[e + 1..] else ""
  {
    if e == |x| {
      assert x[..e] == x;
    }
  }

  /** The path `SplitParams` cuts from an empty or absolute path without `?` and `#` is well formed. */
  lemma SplitParamsPathWellFormed(x: string)
    requires '?' !in x && '#' !in x && NoUnsafe(x) && (x == "" || x[0] == '/')
    ensures PathWellFormed(SplitParams(x).0)
  {
    var st := RFind(x, '/') + 1;
    var e := st + IndexOf(x[st..], ';');
    SplitParamsCut(x, st, e);
    PathPrefixWellFormed(x, st, e);
  }

  /** The params `SplitParams` cuts from such a path are well formed and follow a non-empty path. */
  lemma SplitParamsParamsWellFormed(x: string)
    requires '?' !in x && '#' !in x && NoUnsafe(x) && (x == "" || x[0] == '/')
    ensures ParamsWellFormed(SplitParams(x).1) && (|SplitParams(x).1| > 0 ==> |SplitParams(x).0| > 0)
  {
    var st := RFind(x, '/') + 1;
    var e := st + IndexOf(x[st..], ';');
    if e < |x| {
      SplitParamsCutIn(x, st, e);
      ParamsSuffixWellFormed(x, st, e);
    } else {
      SplitParamsCutOut(x, st, e);
    }
  }

  /** With a `;` in the last segment, the path ends before it and the params follow it. */
  lemma SplitParamsCutIn(x: string, st: nat, e: nat)
    requires st == RFind(x, '/') + 1 && e == st + IndexOf(x[st..], ';') && e < |x|
    ensures SplitParams(x).0 == x[..e] && SplitParams(x).1 == x[e + 1..]
  {
  }

  /** Without a `;` in the last segment, there are no params. */
  lemma SplitParamsCutOut(x: string, st: nat, e: nat)
    requires st == RFind(x, '/') + 1 && e == st + IndexOf(x[st..], ';') && e == |x|
    ensures SplitParams(x).1 == ""
  {
  }

  /** The text after a `;` in the last segment is well-formed params, after a non-empty path. */
  lemma ParamsSuffixWellFormed(x: string, st: nat, e: nat)
    requires '?' !in x && '#' !in x && NoUnsafe(x) && (x == "" || x[0] == '/')
    requires st == RFind(x, '/') + 1 && st <= e < |x|
    ensures ParamsWellFormed(x[e + 1..]) && e > 0
  {
    ParamsPlain(x, st, e);
    NoUnsafeSlice(x, e + 1, |x|);
    assert x[e + 1..|x|] == x[e + 1..];
  }

  /** The text before the first `;` of the last segment is a well-formed path. */
  lemma PathPrefixWellFormed(x: string, st: nat, e: nat)
    requires '?' !in x && '#' !in x && NoUnsafe(x) && (x == "" || x[0] == '/')
    requires st == RFind(x, '/') + 1 && e == st + IndexOf(x[st..], ';')
    ensures PathWellFormed(x[..e])
  {
    NoSemicolonBefore(x, st, e);
    PathPlain(x, st, e);
    NotInSlice(x, '?', 0, e);
    NotInSlice(x, '#', 0, e);
    NoUnsafeSlice(x, 0, e);
    assert x[0..e] == x[..e];
    if e > 0 {
      assert x[..e][0] == x[0];
    }
  }

  /** No `;` lies between the start of the last segment and the cut. */
  lemma NoSemicolonBefore(x: string, st: nat, e: nat)
    requires st <= |x| && e == st + IndexOf(x[st..], ';')
    ensures forall j :: st <= j < e ==> x[j] != ';'
  {
    forall j | st <= j < e ensures x[j] != ';' {
      assert x[j] == x[st..][..e - st][j - st];
    }
  }

  /** A path prefix whose characters after its last `/` are no `;` has a plain last segment. */
  lemma PathPlain(x: string, st: nat, e: nat)
    requires st == RFind(x, '/') + 1 && st <= e <= |x|
    requires forall j :: st <= j < e ==> x[j] != ';'
    ensures LastSegmentPlain(x[..e])
  {
    var p := x[..e];
    forall j | st <= j < e ensures p[j] != ';' {
      assert p[j] == x[j];
    }
    if st > 0 {
      assert p[st - 1] == x[st - 1];
    }
    PlainFrom(p, st, e);
  }

  lemma {:induction false} PlainFrom(p: string, a: nat, n: nat)
    requires a <= n <= |p| && (a == 0 || p[a - 1] == '/')
    requires forall j :: a <= j < n ==> p[j] != ';'
    ensures PlainBelow(p, n)
    decreases n
  {
    if n > a && p[n - 1] != '/' {
      PlainFrom(p, a, n - 1);
    }
  }

  /** The text after the cut holds no `/`, `?` or `#`. */
  lemma ParamsPlain(x: string, st: nat, e: nat)
    requires st == RFind(x, '/') + 1 && st <= e < |x|
    requires '?' !in x && '#' !in x
    ensures Lacks(x[e + 1..], "/?#")
  {
    var q := x[e + 1..];
    forall j | 0 <= j < |q| ensures q[j] !in "/?#" {
      assert q[j] == x[e + 1 + j];
    }
  }

  lemma HttpListed(scheme: string)
    requires scheme == "http" || scheme == "https"
    ensures scheme in UsesNetloc && scheme in UsesParams
  {
    if scheme == "http" {
      assert UsesNetloc[2] == scheme;
      assert UsesParams[4] == scheme;
    } else {
      assert UsesNetloc[10] == scheme;
      assert UsesParams[6] == scheme;
    }
  }

  lemma SplitRestBy(scheme: string, netloc: string, rest: string, beforeFragment: string, beforeQuery: string, u: Url)
    requires u.scheme == scheme && u.netloc == netloc
    requires SplitOnce(rest, '#') == (beforeFragment, u.fragment)
    requires SplitOnce(beforeFragment, '?') == (beforeQuery, u.query)
    requires scheme in UsesParams && SplitParams(beforeQuery) == (u.path, u.params)
    ensures SplitRest(scheme, netloc, rest) == u
  {
  }

  lemma SplitOnceOptional(a: string, c: char, b: string)
    requires c !in a
    ensures SplitOnce(a + (if b != "" then [c] + b else ""), c) == (a, b)
  {
    if b != "" {
      assert a + ([c] + b) == a + [c] + b;
      SplitOnceAt(a, c, b);
    } else {
      assert a + "" == a;
      SplitOnceAbsent(a, c);
    }
  }

  lemma SplitPathParams(path: string, params: string)
    requires path == "" || path[0] == '/'
    requires LastSegmentPlain(path)
    requires '/' !in params && (params != "" ==> path != "")
    ensures SplitParams(if params != "" then path + ";" + params else path) == (path, params)
  {
    LastSegmentPlainRFind(path);
    if params != "" {
      SplitParamsAt(path, params);
    } else {
      SplitParamsNone(path);
    }
  }

  lemma SplitRestOfGetUrl(u: Url)
    requires WellFormedHttp(u)
    ensures SplitRest(u.scheme, u.netloc, PathWithParams(u) + QueryPart(u) + FragmentPart(u)) == u
  {
    var url := PathWithParams(u);
    LacksChar(u.path, "?#", '#');
    LacksChar(u.path, "?#", '?');
    LacksChar(u.params, "/?#", '#');
    LacksChar(u.params, "/?#", '?');
    assert '#' !in url && '?' !in url;
    assert '#' !in url + QueryPart(u);
    SplitOnceOptional(url + QueryPart(u), '#', u.fragment);
    SplitOnceOptional(url, '?', u.query);
    LacksChar(u.params, "/?#", '/');
    SplitPathParams(u.path, u.params);
    HttpListed(u.scheme);
    SplitRestBy(u.scheme, u.netloc, url + QueryPart(u) + FragmentPart(u), url + QueryPart(u), url, u);
  }
}
