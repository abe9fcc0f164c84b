/**
 * Percent-encoding as `urllib.parse.quote_plus` writes it and
 * `urllib.parse.unquote` reads it: the query-component rules of the
 * `application/x-www-form-urlencoded` format (section 5 of the WHATWG URL
 * Standard), over UTF-8.
 */
module Quoting {
  import Utf8
  import opened Text

  predicate IsAscii(c: char) {
    c as int < 0x80
  }

  predicate AllAscii(s: string) {
    forall i :: 0 <= i < |s| ==> IsAscii(s[i])
  }

  /** The characters `quote` never escapes: ASCII letters, digits and `_.-~`. */
  predicate IsAlwaysSafe(c: char) {
    ('A' <= c <= 'Z') || ('a' <= c <= 'z') || ('0' <= c <= '9') || c == '_' || c == '.' || c == '-' || c == '~'
  }

  /** A character that can appear in the output of `quote_plus`. */
  predicate IsQuotedChar(c: char) {
    IsAlwaysSafe(c) || c == '+' || c == '%'
  }

  function HexDigit(d: nat): char
    requires d < 16
  {
    "0123456789ABCDEF"[d]
  }

  /** The value of a hexadecimal digit of either case, or -1. */
  function HexValue(c: char): (v: int)
    ensures -1 <= v < 16
  {
    if '0' <= c <= '9' then c as int - '0' as int
    else if 'A' <= c <= 'F' then c as int - 'A' as int + 10
    else if 'a' <= c <= 'f' then c as int - 'a' as int + 10
    else -1
  }

  lemma HexValueOfDigit(d: nat)
    requires d < 16
    ensures HexValue(HexDigit(d)) == d
  {
  }

  /** `%XX` with upper-case hexadecimal digits. */
  function PercentByte(b: Utf8.Byte): string {
    ['%', HexDigit(b / 16), HexDigit(b % 16)]
  }

  function PercentBytes(bs: seq<Utf8.Byte>): string {
    if bs == [] then "" else PercentByte(bs[0]) + PercentBytes(bs[1..])
  }

  /** One character as `quote_plus(s, safe='')` writes it. */
  function QuotePlusChar(c: char): string {
    if IsAlwaysSafe(c) then [c]
    else if c == ' ' then "+"
    else PercentBytes(Utf8.EncodeChar(c))
  }

  /** `quote_plus(s)`. */
  function QuotePlus(s: string): (r: string)
    ensures forall i :: 0 <= i < |r| ==> IsQuotedChar(r[i])
    ensures r == "" <==> s == ""
  {
    if s == "" then ""
    else
      PercentOnlyQuotedChars(Utf8.EncodeChar(s[0]));
      QuotePlusChar(s[0]) + QuotePlus(s[1..])
  }

  /** One character as `quote(s, safe=' ')` writes it: `quote_plus` before its spaces become `+`. */
  function QuoteSpaceChar(c: char): string {
    if IsAlwaysSafe(c) || c == ' ' then [c] else PercentBytes(Utf8.EncodeChar(c))
  }

  function QuoteSpace(s: string): string {
    if s == "" then "" else QuoteSpaceChar(s[0]) + QuoteSpace(s[1..])
  }

  /** Length of the run of ASCII characters at the front of `s`. */
  function AsciiRun(s: string): (n: nat)
    ensures n <= |s|
    ensures AllAscii(s[..n])
    ensures n == |s| || !IsAscii(s[n])
  {
    if s == "" || !IsAscii(s[0]) then 0
    else
      var n := AsciiRun(s[1..]);
      assert s[..1 + n] == [s[0]] + s[1..][..n];
      1 + n
  }

  /** `unquote_to_bytes` on an ASCII string: `%XX` with two hexadecimal digits to one byte, anything else kept. */
  function PercentDecode(s: string): seq<Utf8.Byte>
    requires AllAscii(s)
  {
    if s == "" then []
    else if s[0] == '%' && |s| >= 3 && HexValue(s[1]) >= 0 && HexValue(s[2]) >= 0 then
      [16 * HexValue(s[1]) + HexValue(s[2])] + PercentDecode(s[3..])
    else [s[0] as int] + PercentDecode(s[1..])
  }

  /**
   * `unquote(s)` with UTF-8 and the 'replace' error handler: each run of
   * ASCII characters is percent-decoded to bytes and decoded as UTF-8; any
   * other character is kept.
   */
  function Unquote(s: string): string
    decreases |s|
  {
    if s == "" then ""
    else if !IsAscii(s[0]) then [s[0]] + Unquote(s[1..])
    else
      var n := AsciiRun(s);
      Utf8.Decode(PercentDecode(s[..n])) + Unquote(s[n..])
  }

  /** `unquote_plus(s)`: `+` stands for a space. */
  function UnquotePlus(s: string): string {
    Unquote(Replace(s, "+", " "))
  }

  lemma PercentDecodeByte(b: Utf8.Byte, tail: string)
    requires AllAscii(tail)
    ensures AllAscii(PercentByte(b) + tail)
    ensures PercentDecode(PercentByte(b) + tail) == [b] + PercentDecode(tail)
  {
    var t := PercentByte(b) + tail;
    HexValueOfDigit(b / 16);
    HexValueOfDigit(b % 16);
    assert t[0] == '%' && t[1] == HexDigit(b / 16) && t[2] == HexDigit(b % 16);
    assert IsAscii(t[1]) && IsAscii(t[2]);
    assert 16 * (b / 16) + b % 16 == b;
    assert t[3..] == tail;
    assert forall i :: 3 <= i < |t| ==> t[i] == tail[i - 3];
  }

  lemma {:induction false} PercentDecodeBytes(bs: seq<Utf8.Byte>, rest: string)
    requires AllAscii(rest)
    ensures AllAscii(PercentBytes(bs) + rest)
    ensures PercentDecode(PercentBytes(bs) + rest) == bs + PercentDecode(rest)
  {
    if bs == [] {
      assert PercentBytes(bs) + rest == rest;
    } else {
      var tail := PercentBytes(bs[1..]) + rest;
      PercentDecodeBytes(bs[1..], rest);
      PercentDecodeByte(bs[0], tail);
      PercentBytesCons(bs, rest);
      ConsAppend(bs, PercentDecode(rest));
    }
  }

  lemma PercentBytesCons(bs: seq<Utf8.Byte>, rest: string)
    requires bs != []
    ensures PercentBytes(bs) + rest == PercentByte(bs[0]) + (PercentBytes(bs[1..]) + rest)
  {
  }

  lemma ConsAppend(bs: seq<Utf8.Byte>, more: seq<Utf8.Byte>)
    requires bs != []
    ensures [bs[0]] + (bs[1..] + more) == bs + more
  {
    assert [bs[0]] + bs[1..] == bs;
  }

  lemma {:induction false} QuoteSpaceIsAscii(s: string)
    ensures AllAscii(QuoteSpace(s))
  {
    if s != "" {
      QuoteSpaceIsAscii(s[1..]);
      var c := s[0];
      if !(IsAlwaysSafe(c) || c == ' ') {
        PercentDecodeBytes(Utf8.EncodeChar(c), "");
        assert PercentBytes(Utf8.EncodeChar(c)) + "" == PercentBytes(Utf8.EncodeChar(c));
      }
    }
  }

  /** Percent-decoding the space-keeping quotation of `s` gives the UTF-8 bytes of `s`. */
  lemma {:induction false} PercentDecodeQuoteSpace(s: string)
    ensures AllAscii(QuoteSpace(s))
    ensures PercentDecode(QuoteSpace(s)) == Utf8.Encode(s)
  {
    QuoteSpaceIsAscii(s);
    if s != "" {
      var c := s[0];
      var rest := QuoteSpace(s[1..]);
      PercentDecodeQuoteSpace(s[1..]);
      if IsAlwaysSafe(c) || c == ' ' {
        assert (QuoteSpace(s))[1..] == rest;
      } else {
        PercentDecodeBytes(Utf8.EncodeChar(c), rest);
      }
    }
  }

  /** On ASCII text `unquote` decodes the whole text as one run. */
  lemma UnquoteAscii(t: string)
    requires AllAscii(t)
    ensures Unquote(t) == Utf8.Decode(PercentDecode(t))
  {
    if t != "" {
      assert AsciiRun(t) == |t|;
      assert t[..|t|] == t;
    }
  }

  lemma {:induction false} ReplacePlusInQuotePlus(s: string)
    ensures Replace(QuotePlus(s), "+", " ") == QuoteSpace(s)
  {
    if s != "" {
      var c := s[0];
      ReplacePlusInQuotePlus(s[1..]);
      ReplaceCharConcat(QuotePlusChar(c), QuotePlus(s[1..]), "+", " ");
      if c == ' ' {
        assert Replace("+", "+", " ") == " ";
      } else if IsAlwaysSafe(c) {
        ReplaceCharAbsent([c], '+', " ");
      } else {
        var q := PercentBytes(Utf8.EncodeChar(c));
        PercentOnlyQuotedChars(Utf8.EncodeChar(c));
        ReplaceCharAbsent(q, '+', " ");
      }
    }
  }

  lemma {:induction false} PercentOnlyQuotedChars(bs: seq<Utf8.Byte>)
    ensures forall i :: 0 <= i < |PercentBytes(bs)| ==> PercentBytes(bs)[i] == '%' || IsAlwaysSafe(PercentBytes(bs)[i])
  {
    if bs != [] {
      PercentOnlyQuotedChars(bs[1..]);
      var p := PercentByte(bs[0]);
      assert forall i :: 0 <= i < 3 ==> p[i] == '%' || IsAlwaysSafe(p[i]);
    }
  }

  /** `unquote_plus(quote_plus(s)) == s`: decoding inverts the encoding used for query keys and values. */
  lemma UnquotePlusQuotePlus(s: string)
    ensures UnquotePlus(QuotePlus(s)) == s
  {
    ReplacePlusInQuotePlus(s);
    PercentDecodeQuoteSpace(s);
    UnquoteAscii(QuoteSpace(s));
    Utf8.DecodeEncode(s);
  }

  /** `quote_plus` leaves text made of always-safe characters alone. */
  lemma {:induction false} QuotePlusUnchanged(s: string)
    requires forall i :: 0 <= i < |s| ==> IsAlwaysSafe(s[i])
    ensures QuotePlus(s) == s
  {
    if s != "" {
      QuotePlusUnchanged(s[1..]);
      assert [s[0]] + s[1..] == s;
    }
  }

  /** Text without `%` comes back from `unquote` unchanged (the function's own shortcut). */
  lemma {:induction false} UnquoteWithoutPercent(s: string)
    requires '%' !in s
    ensures Unquote(s) == s
    decreases |s|
  {
    if s != "" {
      if !IsAscii(s[0]) {
        UnquoteWithoutPercent(s[1..]);
        assert [s[0]] + s[1..] == s;
      } else {
        var n := AsciiRun(s);
        PlainAsciiDecodes(s[..n]);
        UnquoteWithoutPercent(s[n..]);
        assert s[..n] + s[n..] == s;
      }
    }
  }

  lemma {:induction false} PlainAsciiDecodes(t: string)
    requires AllAscii(t) && '%' !in t
    ensures Utf8.Decode(PercentDecode(t)) == t
  {
    if t != "" {
      PlainAsciiDecodes(t[1..]);
      var bs := PercentDecode(t);
      assert bs == [t[0] as int] + PercentDecode(t[1..]);
      assert bs[1..] == PercentDecode(t[1..]);
      assert [t[0]] + t[1..] == t;
    }
  }
}
