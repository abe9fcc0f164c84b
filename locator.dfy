/**
 * `find_urls`: the matches, left to right and without overlap, of the
 * pattern `https?://[^\s\(\)]+` in a text, written out as a scanner.
 */
module Locator {
  import opened Text

  /** `str.isspace`, which is what `\s` matches in a `str` pattern. */
  predicate IsWhitespace(c: char) {
    || c == ' ' || ('\t' <= c <= '\r') || ('\U{1c}' <= c <= '\U{1f}')
    || c == '\U{85}' || c == '\U{a0}' || c == '\U{1680}' || ('\U{2000}' <= c <= '\U{200a}')
    || c == '\U{2028}' || c == '\U{2029}' || c == '\U{202f}' || c == '\U{205f}' || c == '\U{3000}'
  }

  /** A character of the class `[^\s\(\)]`. */
  predicate IsUrlChar(c: char) {
    !IsWhitespace(c) && c != '(' && c != ')'
  }

  predicate AllUrlChars(w: string) {
    forall k :: 0 <= k < |w| ==> IsUrlChar(w[k])
  }

  /** The text starts with the scheme token the scanner looks for. */
  predicate IsHttpText(s: string) {
    StartsWith(s, "http://") || StartsWith(s, "https://")
  }

  /** `w` belongs to the language of `https?://[^\s\(\)]+`. */
  predicate InPattern(w: string) {
    || (StartsWith(w, "http://") && |w| > 7 && AllUrlChars(w[7..]))
    || (StartsWith(w, "https://") && |w| > 8 && AllUrlChars(w[8..]))
  }

  /** The length of the run of URL characters starting at `j`. */
  function RunLength(t: string, j: nat): (n: nat)
    requires j <= |t|
    ensures j + n <= |t|
    decreases |t| - j
  {
    if j == |t| || !IsUrlChar(t[j]) then 0 else 1 + RunLength(t, j + 1)
  }

  /** The run holds URL characters only and stops at the end of the text or at a character outside the class. */
  lemma {:induction false} RunIsMaximal(t: string, j: nat)
    requires j <= |t|
    ensures forall k :: j <= k < j + RunLength(t, j) ==> IsUrlChar(t[k])
    ensures j + RunLength(t, j) == |t| || !IsUrlChar(t[j + RunLength(t, j)])
    decreases |t| - j
  {
    if j < |t| && IsUrlChar(t[j]) {
      RunIsMaximal(t, j + 1);
    }
  }

  /**
   * The length of the match the regular expression engine reports at `i`,
   * or 0 when none starts there: `s?` is tried with the `s` first and the
   * class repetition is greedy.
   */
  function MatchLength(t: string, i: nat): (n: nat)
    requires i <= |t|
    ensures i + n <= |t|
    ensures n == 0 || n > 7
  {
    if HttpsAt(t, i) && RunLength(t, i + 8) > 0 then 8 + RunLength(t, i + 8)
    else if HttpAt(t, i) && RunLength(t, i + 7) > 0 then 7 + RunLength(t, i + 7)
    else 0
  }

  /** `http://` occurs at position `i`, compared character by character. */
  predicate HttpAt(t: string, i: nat) {
    && i + 7 <= |t|
    && t[i] == 'h' && t[i + 1] == 't' && t[i + 2] == 't' && t[i + 3] == 'p'
    && t[i + 4] == ':' && t[i + 5] == '/' && t[i + 6] == '/'
  }

  /** `https://` occurs at position `i`, compared character by character. */
  predicate HttpsAt(t: string, i: nat) {
    && i + 8 <= |t|
    && t[i] == 'h' && t[i + 1] == 't' && t[i + 2] == 't' && t[i + 3] == 'p'
    && t[i + 4] == 's' && t[i + 5] == ':' && t[i + 6] == '/' && t[i + 7] == '/'
  }

  lemma HttpAtSlice(t: string, i: nat)
    requires i <= |t|
    ensures HttpAt(t, i) <==> StartsWith(t[i..], "http://")
    ensures HttpsAt(t, i) <==> StartsWith(t[i..], "https://")
  {
    if i + 7 <= |t| {
      var w := t[i..][..7];
      assert w[0] == t[i] && w[1] == t[i + 1] && w[2] == t[i + 2] && w[3] == t[i + 3];
      assert w[4] == t[i + 4] && w[5] == t[i + 5] && w[6] == t[i + 6];
    }
    if i + 8 <= |t| {
      var w := t[i..][..8];
      assert w[0] == t[i] && w[1] == t[i + 1] && w[2] == t[i + 2] && w[3] == t[i + 3];
      assert w[4] == t[i + 4] && w[5] == t[i + 5] && w[6] == t[i + 6] && w[7] == t[i + 7];
    }
  }

  /** The reported match is a piece of the text in the pattern's language. */
  lemma MatchInPattern(t: string, i: nat)
    requires i <= |t| && MatchLength(t, i) > 0
    ensures InPattern(t[i..i + MatchLength(t, i)])
  {
    var n := MatchLength(t, i);
    var w := t[i..i + n];
    HttpAtSlice(t, i);
    RunIsMaximal(t, i + 8);
    RunIsMaximal(t, i + 7);
    if HttpsAt(t, i) && RunLength(t, i + 8) > 0 {
      assert w[..8] == t[i..][..8];
      forall k | 0 <= k < |w| - 8 ensures IsUrlChar(w[8..][k]) {
        assert w[8..][k] == t[i + 8 + k];
      }
    } else {
      assert w[..7] == t[i..][..7];
      forall k | 0 <= k < |w| - 7 ensures IsUrlChar(w[7..][k]) {
        assert w[7..][k] == t[i + 7 + k];
      }
    }
  }

  /** A match ends where the text ends or at a character outside the class. */
  lemma MatchEndsAtDelimiter(t: string, i: nat)
    requires i <= |t| && MatchLength(t, i) > 0
    ensures var e := i + MatchLength(t, i); e == |t| || !IsUrlChar(t[e])
  {
    RunIsMaximal(t, i + 8);
    RunIsMaximal(t, i + 7);
  }

  /** The reported match is the longest piece of the text at `i` in the pattern's language, and there is none when 0 is reported. */
  lemma MatchLengthLongest(t: string, i: nat, e: nat)
    requires i <= e <= |t| && InPattern(t[i..e])
    ensures MatchLength(t, i) > 0 && e <= i + MatchLength(t, i)
  {
    var w := t[i..e];
    HttpAtSlice(t, i);
    if StartsWith(w, "https://") && |w| > 8 && AllUrlChars(w[8..]) {
      assert t[i..][..8] == w[..8];
      RunCovers(t, i + 8, e);
    } else {
      assert t[i..][..7] == w[..7];
      assert t[i + 4] == w[4];
      assert !StartsWith(t[i..], "https://") by {
        if |t[i..]| >= 8 {
          assert t[i..][..8][4] == t[i + 4];
        }
      }
      RunCovers(t, i + 7, e);
    }
  }

  /** A run of URL characters from `j` to `e` lies within the maximal run at `j`. */
  lemma RunCovers(t: string, j: nat, e: nat)
    requires j < e <= |t| && AllUrlChars(t[j..e])
    ensures RunLength(t, j) >= e - j
  {
    RunIsMaximal(t, j);
    forall m | j <= m < e
      ensures IsUrlChar(t[m])
    {
      assert t[m] == t[j..e][m - j];
    }
  }

  /** A match reported by the scanner: `t[start..end]`. */
  datatype Span = Span(start: nat, end: nat)

  /** The matches from position `i` on, as `re.findall` walks the text. */
  function Spans(t: string, i: nat): (r: seq<Span>)
    requires i <= |t|
    ensures forall k :: 0 <= k < |r| ==> i <= r[k].start < r[k].end <= |t|
    decreases |t| - i
  {
    if i == |t| then []
    else
      var n := MatchLength(t, i);
      if n > 0 then [Span(i, i + n)] + Spans(t, i + n) else Spans(t, i + 1)
  }

  /** Each reported match is the one the engine finds at its start. */
  lemma {:induction false} SpansMatch(t: string, i: nat)
    requires i <= |t|
    ensures forall k :: 0 <= k < |Spans(t, i)| ==> Spans(t, i)[k].end - Spans(t, i)[k].start == MatchLength(t, Spans(t, i)[k].start)
    decreases |t| - i
  {
    if i < |t| {
      var n := MatchLength(t, i);
      if n == 0 {
        SpansMatch(t, i + 1);
        SpansSkip(t, i);
      } else {
        SpansMatch(t, i + n);
        SpansHead(t, i);
        forall k | 1 <= k < |Spans(t, i)|
          ensures Spans(t, i)[k] == Spans(t, i + n)[k - 1]
        {
          SpansTail(t, i, k - 1);
        }
      }
    }
  }

  /** The reported matches are in left-to-right order and do not overlap. */
  lemma {:induction false} SpansOrdered(t: string, i: nat)
    requires i <= |t|
    ensures forall a, b :: 0 <= a < b < |Spans(t, i)| ==> Spans(t, i)[a].end <= Spans(t, i)[b].start
    decreases |t| - i
  {
    if i < |t| {
      var n := MatchLength(t, i);
      if n == 0 {
        SpansOrdered(t, i + 1);
        SpansSkip(t, i);
      } else {
        SpansOrdered(t, i + n);
        SpansHead(t, i);
        forall k | 1 <= k < |Spans(t, i)|
          ensures Spans(t, i)[k] == Spans(t, i + n)[k - 1]
        {
          SpansTail(t, i, k - 1);
        }
      }
    }
  }

  /** One step of the scan: a match at `i` is reported and the scan resumes after it, otherwise at `i + 1`. */
  lemma SpansStep(t: string, i: nat)
    requires i < |t|
    ensures MatchLength(t, i) > 0 ==> Spans(t, i) == [Span(i, i + MatchLength(t, i))] + Spans(t, i + MatchLength(t, i))
    ensures MatchLength(t, i) == 0 ==> Spans(t, i) == Spans(t, i + 1)
  {
  }

  /** Every position where a match could start lies inside a reported one, the `k`th: the scanner misses nothing. */
  lemma {:induction false} SpansComplete(t: string, i: nat, p: nat) returns (k: nat)
    requires i <= p < |t| && MatchLength(t, p) > 0
    ensures k < |Spans(t, i)| && Spans(t, i)[k].start <= p < Spans(t, i)[k].end
    decreases |t| - i
  {
    var n := MatchLength(t, i);
    if n == 0 {
      k := SpansComplete(t, i + 1, p);
      SpansSkip(t, i);
    } else if p < i + n {
      k := 0;
      SpansHead(t, i);
    } else {
      var j := SpansComplete(t, i + n, p);
      k := j + 1;
      SpansTail(t, i, j);
    }
  }

  lemma SpansSkip(t: string, i: nat)
    requires i < |t| && MatchLength(t, i) == 0
    ensures Spans(t, i) == Spans(t, i + 1)
  {
  }

  lemma SpansHead(t: string, i: nat)
    requires i < |t| && MatchLength(t, i) > 0
    ensures |Spans(t, i)| > 0 && Spans(t, i)[0] == Span(i, i + MatchLength(t, i))
  {
    SpansStep(t, i);
  }

  lemma SpansTail(t: string, i: nat, j: nat)
    requires i < |t| && MatchLength(t, i) > 0 && j < |Spans(t, i + MatchLength(t, i))|
    ensures j + 1 < |Spans(t, i)| && Spans(t, i)[j + 1] == Spans(t, i + MatchLength(t, i))[j]
  {
    SpansStep(t, i);
  }

  /** No match starts anywhere from `i` on, so none is reported. */
  lemma {:induction false} SpansEmpty(t: string, i: nat)
    requires i <= |t|
    requires forall p :: i <= p < |t| ==> MatchLength(t, p) == 0
    ensures Spans(t, i) == []
    decreases |t| - i
  {
    if i < |t| {
      SpansEmpty(t, i + 1);
    }
  }

  /** `find_urls(text)`. */
  function FindUrls(t: string): (urls: seq<string>)
    ensures |urls| == |Spans(t, 0)|
  {
    var r := Spans(t, 0);
    seq(|r|, k requires 0 <= k < |r| => t[r[k].start..r[k].end])
  }

  /** Every located URL starts with `http://` or `https://` and holds no whitespace and no parenthesis. */
  lemma FindUrlsShape(t: string)
    ensures forall k :: 0 <= k < |FindUrls(t)| ==> IsHttpText(FindUrls(t)[k]) && AllUrlChars(FindUrls(t)[k])
  {
    var r := Spans(t, 0);
    SpansMatch(t, 0);
    forall k | 0 <= k < |FindUrls(t)| ensures IsHttpText(FindUrls(t)[k]) && AllUrlChars(FindUrls(t)[k]) {
      assert FindUrls(t)[k] == t[r[k].start..r[k].start + MatchLength(t, r[k].start)];
      MatchInPattern(t, r[k].start);
      InPatternShape(FindUrls(t)[k]);
    }
  }

  lemma InPatternShape(w: string)
    requires InPattern(w)
    ensures IsHttpText(w) && AllUrlChars(w)
  {
    var p := if StartsWith(w, "https://") && |w| > 8 && AllUrlChars(w[8..]) then 8 else 7;
    forall k | 0 <= k < |w| ensures IsUrlChar(w[k]) {
      if k < p {
        assert w[k] == w[..p][k];
      } else {
        assert w[k] == w[p..][k - p];
      }
    }
  }

  /** No URL is found in a text in which `http` does not occur. */
  lemma FindUrlsNone(t: string)
    requires !Occurs(t, "http")
    ensures FindUrls(t) == []
  {
    forall p | 0 <= p < |t| ensures MatchLength(t, p) == 0 {
      assert !OccursAt(t, "http", p);
      assert !StartsWith(t[p..], "http://") && !StartsWith(t[p..], "https://") by {
        if |t| - p >= 7 {
          assert t[p..][..7][..4] == t[p..p + 4];
        }
        if |t| - p >= 8 {
          assert t[p..][..8][..4] == t[p..p + 4];
        }
      }
    }
    SpansEmpty(t, 0);
  }
}
