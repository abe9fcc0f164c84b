/**
 * The link-tracking rewriter: `add_utm_to_url` merges the three UTM keys
 * into a URL's query, and `add_utm_to_all_urls` rewrites every located
 * non-image URL of a document by global string replacement.
 */
module Utm {
  import opened Wrappers
  import opened Text
  import Dict
  import opened Quoting
  import opened Query
  import opened Urls
  import opened Locator
  import opened Images

  const SourceKey: string := "utm_source"
  const MediumKey: string := "utm_medium"
  const CampaignKey: string := "utm_campaign"

  /** The `utm` dictionary, in its literal order. */
  function Tracking(source: string, medium: string, campaign: string): Dict.Entries {
    [(SourceKey, source), (MediumKey, medium), (CampaignKey, campaign)]
  }

  predicate IsTrackingKey(k: string) {
    k == SourceKey || k == MediumKey || k == CampaignKey
  }

  /** `{**dict(parse_qsl(query)), **utm}`. */
  function MergedParams(query: string, source: string, medium: string, campaign: string): Dict.Entries {
    Dict.Update(Dict.FromPairs(ParseQsl(query)), Tracking(source, medium, campaign))
  }

  /** `parsed._replace(query=urlencode(...))`. */
  function Annotate(u: Url, source: string, medium: string, campaign: string): Url {
    u.(query := Urlencode(MergedParams(u.query, source, medium, campaign)))
  }

  /** `add_utm_to_url(parsed, source, medium, campaign)` for an already parsed URL. */
  function AddUtmToUrl(u: Url, source: string, medium: string, campaign: string): string {
    GetUrl(Annotate(u, source, medium, campaign))
  }

  /** `add_utm_to_url(url, ...)` for a URL given as text; `urlparse` may refuse it. */
  function AddUtmToUrlText(url: string, source: string, medium: string, campaign: string): (r: Result<string>)
    ensures r.Fail? <==> Parse(url).Fail?
    ensures r.Fail? ==> r.message == InvalidIPv6
    ensures r.Ok? ==> r.value == AddUtmToUrl(Parse(url).value, source, medium, campaign)
  {
    match Parse(url)
    case Fail(e) => Fail(e)
    case Ok(u) => Ok(AddUtmToUrl(u, source, medium, campaign))
  }

  lemma TrackingKeysDistinct(source: string, medium: string, campaign: string)
    ensures Dict.Keys(Tracking(source, medium, campaign)) == [SourceKey, MediumKey, CampaignKey]
    ensures Dict.Distinct(Dict.Keys(Tracking(source, medium, campaign)))
  {
  }

  lemma MergedDistinct(query: string, source: string, medium: string, campaign: string)
    ensures Dict.Distinct(Dict.Keys(MergedParams(query, source, medium, campaign)))
  {
    Dict.FromPairsKeys(ParseQsl(query));
  }

  /** Within the `utm` dictionary each tracking key carries its own value. */
  lemma TrackingLastValues(source: string, medium: string, campaign: string, k: string)
    ensures Dict.LastValue(Tracking(source, medium, campaign), SourceKey) == Some(source)
    ensures Dict.LastValue(Tracking(source, medium, campaign), MediumKey) == Some(medium)
    ensures Dict.LastValue(Tracking(source, medium, campaign), CampaignKey) == Some(campaign)
    ensures !IsTrackingKey(k) ==> Dict.LastValue(Tracking(source, medium, campaign), k) == None
  {
    var t := Tracking(source, medium, campaign);
    assert SourceKey != CampaignKey && MediumKey != CampaignKey by {
      assert |SourceKey| == 10 && |MediumKey| == 10 && |CampaignKey| == 12;
    }
    assert SourceKey != MediumKey by {
      assert SourceKey[4] != MediumKey[4];
    }
    var t2 := t[..2];
    var t1 := t2[..1];
    assert t2 == [(SourceKey, source), (MediumKey, medium)];
    assert t1 == [(SourceKey, source)] && t1[..0] == [];
    assert Dict.LastValue(t, SourceKey) == Dict.LastValue(t2, SourceKey) == Dict.LastValue(t1, SourceKey);
    if !IsTrackingKey(k) {
      assert Dict.LastValue(t1[..0], k) == None;
      assert Dict.LastValue(t, k) == Dict.LastValue(t2, k) == Dict.LastValue(t1, k);
    }
  }

  /** Merging the `utm` dictionary into any dictionary: the tracking values win, other keys are untouched. */
  lemma UpdateTracking(a: Dict.Entries, source: string, medium: string, campaign: string, k: string)
    ensures Dict.Get(Dict.Update(a, Tracking(source, medium, campaign)), SourceKey) == Some(source)
    ensures Dict.Get(Dict.Update(a, Tracking(source, medium, campaign)), MediumKey) == Some(medium)
    ensures Dict.Get(Dict.Update(a, Tracking(source, medium, campaign)), CampaignKey) == Some(campaign)
    ensures !IsTrackingKey(k) ==> Dict.Get(Dict.Update(a, Tracking(source, medium, campaign)), k) == Dict.Get(a, k)
  {
    var t := Tracking(source, medium, campaign);
    TrackingLastValues(source, medium, campaign, k);
    Dict.UpdateGet(a, t, SourceKey);
    Dict.UpdateGet(a, t, MediumKey);
    Dict.UpdateGet(a, t, CampaignKey);
    Dict.UpdateGet(a, t, k);
  }

  /** The tracking values win over like-named existing parameters. */
  lemma MergedTracking(query: string, source: string, medium: string, campaign: string)
    ensures Dict.Get(MergedParams(query, source, medium, campaign), SourceKey) == Some(source)
    ensures Dict.Get(MergedParams(query, source, medium, campaign), MediumKey) == Some(medium)
    ensures Dict.Get(MergedParams(query, source, medium, campaign), CampaignKey) == Some(campaign)
  {
    UpdateTracking(Dict.FromPairs(ParseQsl(query)), source, medium, campaign, SourceKey);
  }

  /** Any other key keeps the value of its last occurrence in the query. */
  lemma MergedOther(query: string, source: string, medium: string, campaign: string, k: string)
    requires !IsTrackingKey(k)
    ensures Dict.Get(MergedParams(query, source, medium, campaign), k) == Dict.LastValue(ParseQsl(query), k)
  {
    UpdateTracking(Dict.FromPairs(ParseQsl(query)), source, medium, campaign, k);
    Dict.FromPairsGet(ParseQsl(query), k);
  }

  /**
   * Key order: the existing keys in first-occurrence order, then the
   * tracking keys the query lacked, in the order source, medium, campaign.
   */
  lemma MergedKeys(query: string, source: string, medium: string, campaign: string)
    ensures Dict.Keys(MergedParams(query, source, medium, campaign)) ==
      Dict.Dedup(Dict.Keys(ParseQsl(query))) +
      Dict.Missing(Dict.Dedup(Dict.Keys(ParseQsl(query))), [SourceKey, MediumKey, CampaignKey])
  {
    var a := Dict.FromPairs(ParseQsl(query));
    var t := Tracking(source, medium, campaign);
    Dict.UpdateKeys(a, t);
    Dict.FromPairsKeys(ParseQsl(query));
    TrackingKeysDistinct(source, medium, campaign);
    Dict.AbsorbDistinct(Dict.Keys(a), Dict.Keys(t));
  }

  /** The query `add_utm_to_url` writes decodes to the merged parameters without the blank ones. */
  lemma DecodedQuery(u: Url, source: string, medium: string, campaign: string)
    ensures ParseQsl(Annotate(u, source, medium, campaign).query) == NonBlank(MergedParams(u.query, source, medium, campaign))
  {
    ParseQslUrlencode(MergedParams(u.query, source, medium, campaign));
  }

  /** Dropping blank values from merged parameters `m`, knowing what `m` holds for a key. */
  lemma MergedNonBlank(m: Dict.Entries, k: string, v: Option<string>)
    requires Dict.Distinct(Dict.Keys(m)) && Dict.Get(m, k) == v
    ensures Dict.Get(NonBlank(m), k) == if v == Some("") then None else v
  {
    GetNonBlank(m, k);
  }

  /**
   * After `add_utm_to_url`, the decoded query holds each tracking key with
   * its value; a blank value is dropped by `parse_qsl`.
   */
  lemma DecodedTracking(u: Url, source: string, medium: string, campaign: string)
    ensures Dict.Get(ParseQsl(Annotate(u, source, medium, campaign).query), SourceKey) == (if source == "" then None else Some(source))
    ensures Dict.Get(ParseQsl(Annotate(u, source, medium, campaign).query), MediumKey) == (if medium == "" then None else Some(medium))
    ensures Dict.Get(ParseQsl(Annotate(u, source, medium, campaign).query), CampaignKey) == (if campaign == "" then None else Some(campaign))
  {
    var m := MergedParams(u.query, source, medium, campaign);
    DecodedQuery(u, source, medium, campaign);
    MergedDistinct(u.query, source, medium, campaign);
    MergedTracking(u.query, source, medium, campaign);
    MergedNonBlank(m, SourceKey, Some(source));
    MergedNonBlank(m, MediumKey, Some(medium));
    MergedNonBlank(m, CampaignKey, Some(campaign));
  }

  /** After `add_utm_to_url`, every other key of the decoded query has the value of its last occurrence in the original query. */
  lemma DecodedOther(u: Url, source: string, medium: string, campaign: string, k: string)
    requires !IsTrackingKey(k)
    ensures Dict.Get(ParseQsl(Annotate(u, source, medium, campaign).query), k) == Dict.LastValue(ParseQsl(u.query), k)
  {
    var m := MergedParams(u.query, source, medium, campaign);
    DecodedQuery(u, source, medium, campaign);
    MergedDistinct(u.query, source, medium, campaign);
    MergedOther(u.query, source, medium, campaign, k);
    ParseQslValuesNonBlank(u.query);
    LastValueNonBlank(ParseQsl(u.query), k);
    MergedNonBlank(m, k, Dict.LastValue(ParseQsl(u.query), k));
  }

  lemma {:induction false} LastValueNonBlank(ps: Dict.Entries, k: string)
    requires forall i :: 0 <= i < |ps| ==> ps[i].1 != ""
    ensures Dict.LastValue(ps, k) != Some("")
  {
    if ps != [] {
      LastValueNonBlank(ps[..|ps| - 1], k);
    }
  }
  /** Merging the `utm` dictionary into one that already holds those values changes nothing. */
  lemma UpdateTrackingNoop(d: Dict.Entries, source: string, medium: string, campaign: string)
    requires Dict.Get(d, SourceKey) == Some(source)
    requires Dict.Get(d, MediumKey) == Some(medium)
    requires Dict.Get(d, CampaignKey) == Some(campaign)
    ensures Dict.Update(d, Tracking(source, medium, campaign)) == d
  {
    var t := Tracking(source, medium, campaign);
    assert t[..2][..1][..0] == [];
    assert t[..2][..1] == [(SourceKey, source)];
    Dict.PutExisting(d, SourceKey, source);
    assert Dict.Update(d, t[..2][..1]) == d;
    assert t[..2] == [(SourceKey, source), (MediumKey, medium)];
    Dict.PutExisting(d, MediumKey, medium);
    assert Dict.Update(d, t[..2]) == d;
    Dict.PutExisting(d, CampaignKey, campaign);
  }

  /** With non-blank tracking values no merged parameter is blank. */
  lemma MergedValuesNonBlank(query: string, source: string, medium: string, campaign: string)
    requires source != "" && medium != "" && campaign != ""
    ensures ValuesNonBlank(MergedParams(query, source, medium, campaign))
  {
    var parsed := Dict.FromPairs(ParseQsl(query));
    assert ValuesNonBlank(parsed) by {
      ParseQslValuesNonBlank(query);
      UpdateNonBlank([], ParseQsl(query));
    }
    TrackingNonBlank(source, medium, campaign);
    UpdateNonBlank(parsed, Tracking(source, medium, campaign));
  }

  lemma TrackingNonBlank(source: string, medium: string, campaign: string)
    requires source != "" && medium != "" && campaign != ""
    ensures ValuesNonBlank(Tracking(source, medium, campaign))
  {
  }

  /**
   * With non-blank tracking values, tagging an already tagged URL again
   * gives the same URL: the written query reads back as the merged
   * parameters, which already hold the tracking values.
   */
  lemma AnnotateIdempotent(u: Url, source: string, medium: string, campaign: string)
    requires source != "" && medium != "" && campaign != ""
    ensures Annotate(Annotate(u, source, medium, campaign), source, medium, campaign) == Annotate(u, source, medium, campaign)
  {
    var m := MergedParams(u.query, source, medium, campaign);
    MergedValuesNonBlank(u.query, source, medium, campaign);
    NonBlankAll(m);
    ParseQslUrlencode(m);
    MergedDistinct(u.query, source, medium, campaign);
    Dict.FromPairsDistinct(m);
    MergedTracking(u.query, source, medium, campaign);
    UpdateTrackingNoop(m, source, medium, campaign);
  }

  /** A URL without a query gets exactly the three tracking fields, in the order source, medium, campaign. */
  lemma AnnotateEmptyQuery(u: Url, source: string, medium: string, campaign: string)
    requires u.query == ""
    ensures Annotate(u, source, medium, campaign).query ==
      SourceKey + "=" + QuotePlus(source) + "&" + MediumKey + "=" + QuotePlus(medium) + "&" + CampaignKey + "=" + QuotePlus(campaign)
  {
    MergedEmpty(source, medium, campaign);
    UrlencodeTracking(source, medium, campaign);
  }

  lemma MergedEmpty(source: string, medium: string, campaign: string)
    ensures MergedParams("", source, medium, campaign) == Tracking(source, medium, campaign)
  {
    assert Split("", "&") == [""];
    assert ParseQsl("") == [];
    TrackingKeysDistinct(source, medium, campaign);
    Dict.FromPairsDistinct(Tracking(source, medium, campaign));
  }

  lemma UrlencodeTracking(source: string, medium: string, campaign: string)
    ensures Urlencode(Tracking(source, medium, campaign)) ==
      SourceKey + "=" + QuotePlus(source) + "&" + MediumKey + "=" + QuotePlus(medium) + "&" + CampaignKey + "=" + QuotePlus(campaign)
  {
    var t := Tracking(source, medium, campaign);
    var f0, f1, f2 := EncodeField(t[0]), EncodeField(t[1]), EncodeField(t[2]);
    KeyUnquoted(SourceKey);
    KeyUnquoted(MediumKey);
    KeyUnquoted(CampaignKey);
    assert t == [t[0], t[1], t[2]];
    EncodeThree(t[0], t[1], t[2]);
    JoinThree(f0, f1, f2, "&");
    assert Urlencode(t) == f0 + "&" + f1 + "&" + f2;
    ConcatFields(SourceKey, QuotePlus(source), MediumKey, QuotePlus(medium), CampaignKey, QuotePlus(campaign));
  }

  lemma EncodeThree(p: (string, string), q: (string, string), r: (string, string))
    ensures EncodeFields([p, q, r]) == [EncodeField(p), EncodeField(q), EncodeField(r)]
  {
    assert [p, q, r][1..] == [q, r] && [q, r][1..] == [r] && [r][1..] == [];
    assert EncodeFields([r]) == [EncodeField(r)];
    assert EncodeFields([q, r]) == [EncodeField(q), EncodeField(r)];
  }

  lemma ConcatFields(k0: string, v0: string, k1: string, v1: string, k2: string, v2: string)
    ensures (k0 + "=" + v0) + "&" + (k1 + "=" + v1) + "&" + (k2 + "=" + v2) ==
      k0 + "=" + v0 + "&" + k1 + "=" + v1 + "&" + k2 + "=" + v2
  {
  }

  lemma JoinThree(a: string, b: string, c: string, sep: string)
    ensures Join([a, b, c], sep) == a + sep + b + sep + c
  {
    assert [a, b, c][1..] == [b, c] && [b, c][1..] == [c];
    assert Join([b, c], sep) == b + sep + c;
    assert Join([a, b, c], sep) == a + sep + (b + sep + c);
    assert a + sep + (b + sep + c) == a + sep + b + sep + c;
  }

  /** The tracking keys are written as they are. */
  lemma KeyUnquoted(k: string)
    requires IsTrackingKey(k)
    ensures QuotePlus(k) == k
  {
    if k == SourceKey {
      assert forall i :: 0 <= i < |SourceKey| ==> IsAlwaysSafe(SourceKey[i]);
    } else if k == MediumKey {
      assert forall i :: 0 <= i < |MediumKey| ==> IsAlwaysSafe(MediumKey[i]);
    } else {
      assert forall i :: 0 <= i < |CampaignKey| ==> IsAlwaysSafe(CampaignKey[i]);
    }
    QuotePlusUnchanged(k);
  }

  /** `add_utm_to_url` keeps a well-formed `http` URL well formed. */
  lemma AnnotateWellFormed(u: Url, source: string, medium: string, campaign: string)
    requires WellFormedHttp(u)
    ensures WellFormedHttp(Annotate(u, source, medium, campaign))
  {
    UrlencodeLacks(MergedParams(u.query, source, medium, campaign));
  }

  /**
   * Only the query changes: reading the URL `add_utm_to_url` writes gives
   * back the scheme, authority, path, params and fragment it was given,
   * and the merged query.
   */
  lemma ReparseAddUtmToUrl(u: Url, source: string, medium: string, campaign: string)
    requires WellFormedHttp(u)
    requires !(u.netloc == "" && StartsWith(u.path, "//"))
    ensures Parse(AddUtmToUrl(u, source, medium, campaign)) == Ok(Annotate(u, source, medium, campaign))
  {
    AnnotateWellFormed(u, source, medium, campaign);
    ParseGetUrl(Annotate(u, source, medium, campaign));
  }

  /** The characters the locator accepts include none of those `urlsplit` deletes. */
  lemma UrlCharsSafe(s: string)
    requires AllUrlChars(s)
    ensures NoUnsafe(s)
  {
    forall k | 0 <= k < |s| ensures s[k] != '\t' && s[k] != '\r' && s[k] != '\n' {
      assert IsUrlChar(s[k]);
    }
  }

  /** A located URL that `urlparse` accepts is well formed. */
  lemma LocatedWellFormed(s: string)
    requires IsHttpText(s) && AllUrlChars(s)
    ensures Parse(s).Ok? ==> WellFormedHttp(Parse(s).value)
  {
    UrlCharsSafe(s);
    ParseWellFormed(s);
  }

  /**
   * `add_utm_to_url` on a located URL: it succeeds, and reading what it
   * writes gives back the URL's own components with the merged query.
   */
  lemma AddUtmToUrlTextReparse(s: string, source: string, medium: string, campaign: string)
    requires IsHttpText(s) && AllUrlChars(s)
    ensures Parse(s).Ok? ==> AddUtmToUrlText(s, source, medium, campaign).Ok?
    ensures Parse(s).Ok? && !(Parse(s).value.netloc == "" && StartsWith(Parse(s).value.path, "//")) ==>
      Parse(AddUtmToUrlText(s, source, medium, campaign).value) == Ok(Annotate(Parse(s).value, source, medium, campaign))
  {
    LocatedWellFormed(s);
    if Parse(s).Ok? && !(Parse(s).value.netloc == "" && StartsWith(Parse(s).value.path, "//")) {
      ReparseAddUtmToUrl(Parse(s).value, source, medium, campaign);
    }
  }
  /** `[urlparse(url) for url in urls]`: every URL is parsed, and the first one `urlparse` refuses raises. */
  function ParseAll(urls: seq<string>): (r: Result<seq<Url>>)
    ensures r.Ok? <==> forall i :: 0 <= i < |urls| ==> Parse(urls[i]).Ok?
    ensures r.Ok? ==> |r.value| == |urls| && forall i :: 0 <= i < |urls| ==> Parse(urls[i]) == Ok(r.value[i])
  {
    var rs := seq(|urls|, i requires 0 <= i < |urls| => Parse(urls[i]));
    var r := Collect(rs);
    assert forall i :: 0 <= i < |urls| ==> rs[i] == Parse(urls[i]);
    r
  }

  /** The values of a sequence of results, or the first failure in it. */
  function Collect(rs: seq<Result<Url>>): (r: Result<seq<Url>>)
    ensures r.Ok? <==> forall i :: 0 <= i < |rs| ==> rs[i].Ok?
    ensures r.Ok? ==> |r.value| == |rs| && forall i :: 0 <= i < |rs| ==> rs[i] == Ok(r.value[i])
  {
    if rs == [] then Ok([])
    else if rs[0].Fail? then Fail(rs[0].message)
    else
      var rest := Collect(rs[1..]);
      assert forall i :: 1 <= i < |rs| ==> rs[i] == rs[1..][i - 1];
      if rest.Fail? then rest else Ok([rs[0].value] + rest.value)
  }

  /** `[url for url in urls if not is_image(url.path)]`. */
  function NonImages(us: seq<Url>): seq<Url> {
    if us == [] then []
    else if IsImage(us[0].path) then NonImages(us[1..])
    else [us[0]] + NonImages(us[1..])
  }

  /** The filter keeps exactly the URLs whose path is not an image, and keeps their order. */
  lemma {:induction false} NonImagesMembers(us: seq<Url>)
    ensures forall u :: u in NonImages(us) <==> u in us && !IsImage(u.path)
    ensures |NonImages(us)| <= |us|
  {
    if us != [] {
      NonImagesMembers(us[1..]);
      assert us == [us[0]] + us[1..];
    }
  }

  /** The filter leaves nothing exactly when every URL's path is an image. */
  lemma {:induction false} NonImagesEmpty(us: seq<Url>)
    ensures NonImages(us) == [] <==> forall i :: 0 <= i < |us| ==> IsImage(us[i].path)
  {
    if us != [] {
      NonImagesEmpty(us[1..]);
      assert forall i :: 1 <= i < |us| ==> us[i] == us[1..][i - 1];
    }
  }

  /** The pairs `url.geturl(): add_utm_to_url(url, ...)`, in the order of the URLs. */
  function MappingPairs(us: seq<Url>, source: string, medium: string, campaign: string): (ps: Dict.Entries)
    ensures |ps| == |us|
  {
    seq(|us|, i requires 0 <= i < |us| => (GetUrl(us[i]), AddUtmToUrl(us[i], source, medium, campaign)))
  }

  /** The `mapping` dictionary comprehension. */
  function Mapping(us: seq<Url>, source: string, medium: string, campaign: string): Dict.Entries {
    Dict.FromPairs(MappingPairs(us, source, medium, campaign))
  }

  /** The `geturl()` forms of the URLs, in order. */
  function Originals(us: seq<Url>): seq<string> {
    seq(|us|, i requires 0 <= i < |us| => GetUrl(us[i]))
  }

  /**
   * The mapping's keys are the `geturl()` forms of the URLs, each once, in
   * the order in which they first occur; a key takes the rewritten form of
   * its last URL.
   */
  lemma MappingShape(us: seq<Url>, source: string, medium: string, campaign: string, k: string)
    ensures Dict.Keys(Mapping(us, source, medium, campaign)) == Dict.Dedup(Originals(us))
    ensures Dict.Distinct(Dict.Keys(Mapping(us, source, medium, campaign)))
    ensures Dict.Get(Mapping(us, source, medium, campaign), k) == Dict.LastValue(MappingPairs(us, source, medium, campaign), k)
  {
    var ps := MappingPairs(us, source, medium, campaign);
    Dict.FromPairsKeys(ps);
    assert Dict.Keys(ps) == Originals(us);
    Dict.FromPairsGet(ps, k);
  }

  /** Each key maps to the rewritten form of the last URL that has that `geturl()` form. */
  lemma {:induction false} MappingValue(us: seq<Url>, source: string, medium: string, campaign: string, j: nat)
    requires j < |us|
    requires forall i :: j < i < |us| ==> GetUrl(us[i]) != GetUrl(us[j])
    ensures Dict.Get(Mapping(us, source, medium, campaign), GetUrl(us[j])) == Some(AddUtmToUrl(us[j], source, medium, campaign))
  {
    var ps := MappingPairs(us, source, medium, campaign);
    MappingShape(us, source, medium, campaign, GetUrl(us[j]));
    LastValueAt(ps, j);
  }

  lemma {:induction false} LastValueAt(ps: Dict.Entries, j: nat)
    requires j < |ps|
    requires forall i :: j < i < |ps| ==> ps[i].0 != ps[j].0
    ensures Dict.LastValue(ps, ps[j].0) == Some(ps[j].1)
    decreases |ps|
  {
    if j < |ps| - 1 {
      var q := ps[..|ps| - 1];
      assert forall i :: j < i < |q| ==> q[i] == ps[i];
      LastValueAt(q, j);
    }
  }

  /** The loop over `mapping.items()`: each pair, in order, replaces every occurrence of its key in the current text. */
  function ApplyMapping(t: string, m: Dict.Entries): string {
    if m == [] then t
    else
      var n := |m| - 1;
      Replace(ApplyMapping(t, m[..n]), m[n].0, m[n].1)
  }

  /** Applying a mapping in two parts is applying the whole. */
  lemma {:induction false} ApplyConcat(t: string, a: Dict.Entries, b: Dict.Entries)
    ensures ApplyMapping(ApplyMapping(t, a), b) == ApplyMapping(t, a + b)
  {
    if b == [] {
      assert a + b == a;
    } else {
      var n := |b| - 1;
      ApplyConcat(t, a, b[..n]);
      assert (a + b)[..|a + b| - 1] == a + b[..n];
    }
  }

  /** What `add_utm_to_all_urls` returns: an error from `urlparse`, or the text with the mapping applied. */
  function AllUrlsResult(text: string, source: string, medium: string, campaign: string): Result<string> {
    match ParseAll(FindUrls(text))
    case Fail(e) => Fail(e)
    case Ok(us) => Ok(ApplyMapping(text, Mapping(NonImages(us), source, medium, campaign)))
  }

  /**
   * `add_utm_to_all_urls(text, source, medium, campaign)`. Parses every
   * located URL, drops the images, builds the mapping and then rewrites
   * the text one mapping entry at a time.
   */
  method AddUtmToAllUrls(text: string, source: string, medium: string, campaign: string) returns (r: Result<string>)
    ensures r == AllUrlsResult(text, source, medium, campaign)
  {
    var parsed := ParseAll(FindUrls(text));
    if parsed.Fail? {
      return Fail(parsed.message);
    }
    var mapping := Mapping(NonImages(parsed.value), source, medium, campaign);
    var rewritten := ReplaceAll(text, mapping);
    return Ok(rewritten);
  }

  /** `for original, new in mapping.items(): text = text.replace(original, new)`. */
  method ReplaceAll(text: string, mapping: Dict.Entries) returns (cur: string)
    ensures cur == ApplyMapping(text, mapping)
  {
    cur := text;
    var i := 0;
    while i < |mapping|
      invariant 0 <= i <= |mapping|
      invariant cur == ApplyMapping(text, mapping[..i])
    {
      assert mapping[..i + 1][..i] == mapping[..i];
      cur := Replace(cur, mapping[i].0, mapping[i].1);
      i := i + 1;
    }
    assert mapping[..i] == mapping;
  }

  /** `add_utm_to_all_urls` raises exactly when `urlparse` refuses one of the located URLs. */
  lemma AllUrlsFail(text: string, source: string, medium: string, campaign: string)
    ensures AllUrlsResult(text, source, medium, campaign).Fail? <==>
      exists i :: 0 <= i < |FindUrls(text)| && Parse(FindUrls(text)[i]).Fail?
  {
  }

  /** URLs parsed from located URLs are well formed. */
  lemma ParsedWellFormed(urls: seq<string>, us: seq<Url>)
    requires forall k :: 0 <= k < |urls| ==> IsHttpText(urls[k]) && AllUrlChars(urls[k])
    requires |us| == |urls| && forall i :: 0 <= i < |urls| ==> Parse(urls[i]) == Ok(us[i])
    ensures forall i :: 0 <= i < |us| ==> WellFormedHttp(us[i])
  {
    forall i | 0 <= i < |us| ensures WellFormedHttp(us[i]) {
      LocatedWellFormed(urls[i]);
    }
  }

  /** Every URL `add_utm_to_all_urls` tags is well formed. */
  lemma AllUrlsWellFormed(text: string)
    ensures ParseAll(FindUrls(text)).Ok? ==> forall u :: u in NonImages(ParseAll(FindUrls(text)).value) ==> WellFormedHttp(u)
  {
    if ParseAll(FindUrls(text)).Ok? {
      var us := ParseAll(FindUrls(text)).value;
      FindUrlsShape(text);
      ParsedWellFormed(FindUrls(text), us);
      NonImagesMembers(us);
    }
  }

  /**
   * Apart from an empty authority before a `//` path, reading the form
   * `add_utm_to_all_urls` writes for a tagged URL gives back that URL's
   * own components with the merged query.
   */
  lemma AllUrlsTagged(text: string, source: string, medium: string, campaign: string)
    ensures ParseAll(FindUrls(text)).Ok? ==>
      forall u :: u in NonImages(ParseAll(FindUrls(text)).value) && !(u.netloc == "" && StartsWith(u.path, "//")) ==>
        Parse(AddUtmToUrl(u, source, medium, campaign)) == Ok(Annotate(u, source, medium, campaign))
  {
    if ParseAll(FindUrls(text)).Ok? {
      AllUrlsWellFormed(text);
      forall u | u in NonImages(ParseAll(FindUrls(text)).value) && !(u.netloc == "" && StartsWith(u.path, "//"))
        ensures Parse(AddUtmToUrl(u, source, medium, campaign)) == Ok(Annotate(u, source, medium, campaign))
      {
        ReparseAddUtmToUrl(u, source, medium, campaign);
      }
    }
  }

  /** Without located URLs, or with images only, the text comes back unchanged. */
  lemma AllUrlsUnchanged(text: string, source: string, medium: string, campaign: string)
    requires forall i :: 0 <= i < |FindUrls(text)| ==> Parse(FindUrls(text)[i]).Ok? && IsImage(Parse(FindUrls(text)[i]).value.path)
    ensures AllUrlsResult(text, source, medium, campaign) == Ok(text)
  {
    var us := ParseAll(FindUrls(text)).value;
    NonImagesEmpty(us);
    assert Dict.FromPairs([]) == [];
  }
}
