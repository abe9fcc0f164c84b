/**
 * Query strings as `urllib.parse.parse_qsl` reads them (with its defaults:
 * blank values dropped, no strict parsing, `&` as the separator) and
 * `urllib.parse.urlencode` writes them (`quote_plus` on keys and values).
 */
module Query {
  import opened Wrappers
  import opened Text
  import opened Quoting
  import Dict

  /** One `name=value` field; a field without `=` (the empty one included) or with an empty value is skipped. */
  function ParseField(f: string): Option<(string, string)> {
    if '=' !in f then None
    else
      var i := IndexOf(f, '=');
      if f[i + 1..] == "" then None
      else Some((UnquotePlus(f[..i]), UnquotePlus(f[i + 1..])))
  }

  function ParseFields(fs: seq<string>): Dict.Entries {
    if fs == [] then []
    else
      match ParseField(fs[0])
      case None => ParseFields(fs[1..])
      case Some(p) => [p] + ParseFields(fs[1..])
  }

  /** `parse_qsl(qs)`. */
  function ParseQsl(qs: string): Dict.Entries {
    ParseFields(Split(qs, "&"))
  }

  function EncodeField(p: (string, string)): string {
    QuotePlus(p.0) + "=" + QuotePlus(p.1)
  }

  function EncodeFields(d: Dict.Entries): seq<string> {
    if d == [] then [] else [EncodeField(d[0])] + EncodeFields(d[1..])
  }

  /** `urlencode(d)` for a dictionary of strings. */
  function Urlencode(d: Dict.Entries): string {
    Join(EncodeFields(d), "&")
  }

  /** The entries whose value is not empty. */
  function NonBlank(d: Dict.Entries): Dict.Entries {
    if d == [] then []
    else if d[0].1 == "" then NonBlank(d[1..])
    else [d[0]] + NonBlank(d[1..])
  }

  lemma ReplaceCharLength(t: string, c: char, d: char)
    ensures |Replace(t, [c], [d])| == |t|
  {
  }

  /** A non-empty component never decodes to the empty string. */
  lemma UnquotePlusNonEmpty(s: string)
    requires s != ""
    ensures UnquotePlus(s) != ""
  {
    ReplaceCharLength(s, '+', ' ');
  }

  /** `parse_qsl` never yields a blank value: it drops those fields. */
  lemma {:induction false} ParseQslValuesNonBlank(qs: string)
    ensures forall i :: 0 <= i < |ParseQsl(qs)| ==> ParseQsl(qs)[i].1 != ""
  {
    FieldsNonBlank(Split(qs, "&"));
  }

  lemma {:induction false} FieldsNonBlank(fs: seq<string>)
    ensures forall i :: 0 <= i < |ParseFields(fs)| ==> ParseFields(fs)[i].1 != ""
  {
    if fs != [] {
      FieldsNonBlank(fs[1..]);
      var f := fs[0];
      if '=' in f {
        var i := IndexOf(f, '=');
        if f[i + 1..] != "" {
          UnquotePlusNonEmpty(f[i + 1..]);
        }
      }
    }
  }

  /** Reading back one written field gives the pair, unless its value is blank. */
  lemma ParseEncodedField(p: (string, string))
    ensures ParseField(EncodeField(p)) == if p.1 == "" then None else Some(p)
  {
    var k, v := QuotePlus(p.0), QuotePlus(p.1);
    var f := EncodeField(p);
    assert '=' !in k;
    assert f[|k|] == '=';
    assert f[..|k|] == k;
    assert IndexOf(f, '=') == |k|;
    assert f[|k| + 1..] == v;
    UnquotePlusQuotePlus(p.0);
    UnquotePlusQuotePlus(p.1);
  }

  lemma {:induction false} ParseEncodedFields(d: Dict.Entries)
    ensures ParseFields(EncodeFields(d)) == NonBlank(d)
  {
    if d != [] {
      ParseEncodedField(d[0]);
      ParseEncodedFields(d[1..]);
      assert EncodeFields(d)[1..] == EncodeFields(d[1..]);
    }
  }

  lemma {:induction false} EncodedFieldsLackAmpersand(d: Dict.Entries)
    ensures |EncodeFields(d)| == |d|
    ensures forall k :: 0 <= k < |d| ==> '&' !in EncodeFields(d)[k]
  {
    if d != [] {
      EncodedFieldsLackAmpersand(d[1..]);
      var f := EncodeField(d[0]);
      assert forall i :: 0 <= i < |f| ==> f[i] != '&';
    }
  }

  /** `parse_qsl(urlencode(d))` gives back the entries of `d` whose value is not blank, in order. */
  lemma ParseQslUrlencode(d: Dict.Entries)
    ensures ParseQsl(Urlencode(d)) == NonBlank(d)
  {
    if d == [] {
      assert Split("", "&") == [""];
    } else {
      EncodedFieldsLackAmpersand(d);
      SplitJoinChar(EncodeFields(d), '&');
      ParseEncodedFields(d);
    }
  }

  /** In a dictionary with distinct keys, dropping blank entries hides exactly the keys whose value is blank. */
  lemma {:induction false} GetNonBlank(d: Dict.Entries, k: string)
    requires Dict.Distinct(Dict.Keys(d))
    ensures Dict.Get(NonBlank(d), k) == if Dict.Get(d, k) == Some("") then None else Dict.Get(d, k)
  {
    if d != [] {
      assert Dict.Keys(d[1..]) == Dict.Keys(d)[1..];
      assert Dict.Distinct(Dict.Keys(d[1..]));
      GetNonBlank(d[1..], k);
      if d[0].0 == k && d[0].1 == "" {
        assert k !in Dict.Keys(d[1..]) by {
          assert Dict.Keys(d)[0] == k;
        }
        if Dict.Get(d[1..], k).Some? {
          Dict.GetSomeKey(d[1..], k);
        }
      }
    }
  }
  /** A character `urlencode` can write: one of `quote_plus`, or a field's `=` or `&`. */
  predicate IsFormChar(c: char) {
    IsQuotedChar(c) || c == '=' || c == '&'
  }

  /** `urlencode` writes only `quote_plus` output, `=` and `&`. */
  lemma {:induction false} UrlencodeChars(d: Dict.Entries)
    ensures forall i :: 0 <= i < |Urlencode(d)| ==> IsFormChar(Urlencode(d)[i])
  {
    EncodedFieldsLackAmpersand(d);
    if |d| > 1 {
      UrlencodeChars(d[1..]);
      assert EncodeFields(d)[1..] == EncodeFields(d[1..]);
      assert Urlencode(d) == EncodeField(d[0]) + "&" + Urlencode(d[1..]);
    }
  }

  predicate ValuesNonBlank(d: Dict.Entries) {
    forall i :: 0 <= i < |d| ==> d[i].1 != ""
  }

  /** Dropping blank entries from entries that have none changes nothing. */
  lemma {:induction false} NonBlankAll(d: Dict.Entries)
    requires ValuesNonBlank(d)
    ensures NonBlank(d) == d
  {
    if d != [] {
      NonBlankAll(d[1..]);
      assert [d[0]] + d[1..] == d;
    }
  }

  lemma {:induction false} PutNonBlank(d: Dict.Entries, k: string, v: string)
    requires ValuesNonBlank(d) && v != ""
    ensures ValuesNonBlank(Dict.Put(d, k, v))
  {
    if d != [] && d[0].0 != k {
      PutNonBlank(d[1..], k, v);
    }
  }

  /** `{**a, **b}` has no blank value when neither `a` nor `b` has one. */
  lemma {:induction false} UpdateNonBlank(a: Dict.Entries, b: Dict.Entries)
    requires ValuesNonBlank(a) && ValuesNonBlank(b)
    ensures ValuesNonBlank(Dict.Update(a, b))
  {
    if b != [] {
      var n := |b| - 1;
      UpdateNonBlank(a, b[..n]);
      PutNonBlank(Dict.Update(a, b[..n]), b[n].0, b[n].1);
    }
  }
  /** The text `urlencode` writes holds no `#` and none of the characters `urlsplit` deletes. */
  lemma UrlencodeLacks(d: Dict.Entries)
    ensures '#' !in Urlencode(d) && '\t' !in Urlencode(d) && '\r' !in Urlencode(d) && '\n' !in Urlencode(d)
  {
    UrlencodeChars(d);
    var q := Urlencode(d);
    forall i | 0 <= i < |q|
      ensures q[i] != '#' && q[i] != '\t' && q[i] != '\r' && q[i] != '\n'
    {
      assert IsFormChar(q[i]);
    }
  }
}
