/**
 * The string operations of Python that the link rewriter relies on:
 * `str.startswith`, `str.endswith`, `str.find`, `str.split(sep)`,
 * `sep.join(parts)` and `str.replace(old, new)`.
 */
module Text {

  predicate StartsWith(s: string, p: string) {
    |p| <= |s| && s[..|p|] == p
  }

  predicate EndsWith(s: string, p: string) {
    |p| <= |s| && s[|s| - |p|..] == p
  }

  /** `pat` occurs in `t` starting at position `i`. */
  predicate OccursAt(t: string, pat: string, i: int) {
    0 <= i && i + |pat| <= |t| && t[i..i + |pat|] == pat
  }

  predicate Occurs(t: string, pat: string) {
    exists i | 0 <= i <= |t| :: OccursAt(t, pat, i)
  }

  /** `str.find(c)` for one character, with `|s|` standing for "not found". */
  function IndexOf(s: string, c: char): (i: nat)
    ensures i <= |s|
    ensures i < |s| <==> c in s
    ensures i < |s| ==> s[i] == c
    ensures c !in s[..i]
  {
    if s == [] then 0
    else if s[0] == c then 0
    else
      assert s[1..][..IndexOf(s[1..], c)] == s[1..1 + IndexOf(s[1..], c)];
      1 + IndexOf(s[1..], c)
  }

  /**
   * `t.replace(pat, sub)`: every occurrence of `pat`, found scanning from
   * the left and never overlapping a previous one, is replaced by `sub`;
   * the inserted `sub` is not scanned again.  An empty `pat` matches
   * before every character and at the end.
   */
  function Replace(t: string, pat: string, sub: string): string
    decreases |t|
  {
    if pat == "" then
      if t == "" then sub else sub + [t[0]] + Replace(t[1..], pat, sub)
    else if |t| < |pat| then t
    else if t[..|pat|] == pat then sub + Replace(t[|pat|..], pat, sub)
    else [t[0]] + Replace(t[1..], pat, sub)
  }

  /** `t.split(sep)` for a non-empty separator (Python refuses an empty one). */
  function Split(t: string, sep: string): (parts: seq<string>)
    requires sep != ""
    ensures |parts| >= 1
    ensures StartsWith(t, parts[0])
    decreases |t|
  {
    if |t| < |sep| then [t]
    else if t[..|sep|] == sep then [""] + Split(t[|sep|..], sep)
    else
      var rest := Split(t[1..], sep);
      [[t[0]] + rest[0]] + rest[1..]
  }

  /** `sep.join(parts)`. */
  function Join(parts: seq<string>, sep: string): string {
    if parts == [] then ""
    else if |parts| == 1 then parts[0]
    else parts[0] + sep + Join(parts[1..], sep)
  }

  lemma JoinConsChar(c: char, x: string, rest: seq<string>, sep: string)
    ensures Join([[c] + x] + rest, sep) == [c] + Join([x] + rest, sep)
  {
    var a := [[c] + x] + rest;
    var b := [x] + rest;
    if rest != [] {
      assert a[1..] == rest && b[1..] == rest;
    }
  }

  /** Joining the pieces of a split with the same separator gives the text back. */
  lemma {:induction false} JoinSplit(t: string, sep: string)
    requires sep != ""
    ensures Join(Split(t, sep), sep) == t
    decreases |t|
  {
    if |t| < |sep| {
    } else if t[..|sep|] == sep {
      var u := t[|sep|..];
      JoinSplit(u, sep);
      SplitAtSeparator(t, sep);
      JoinEmptyHead(Split(u, sep), sep);
      assert t == sep + u;
    } else {
      var u := t[1..];
      var rest := Split(u, sep);
      JoinSplit(u, sep);
      SplitPastChar(t, sep);
      JoinConsChar(t[0], rest[0], rest[1..], sep);
      assert [rest[0]] + rest[1..] == rest;
      assert t == [t[0]] + u;
    }
  }

  lemma SplitAtSeparator(t: string, sep: string)
    requires sep != "" && |t| >= |sep| && t[..|sep|] == sep
    ensures Split(t, sep) == [""] + Split(t[|sep|..], sep)
  {
  }

  lemma SplitPastChar(t: string, sep: string)
    requires sep != "" && |t| >= |sep| && t[..|sep|] != sep
    ensures Split(t, sep) == [[t[0]] + Split(t[1..], sep)[0]] + Split(t[1..], sep)[1..]
  {
  }

  lemma JoinEmptyHead(rest: seq<string>, sep: string)
    requires |rest| >= 1
    ensures Join([""] + rest, sep) == sep + Join(rest, sep)
  {
    assert ([""] + rest)[1..] == rest;
  }

  /** No piece of a split contains the separator: every occurrence was cut. */
  lemma {:induction false} SplitPiecesAreFree(t: string, sep: string)
    requires sep != ""
    ensures forall k :: 0 <= k < |Split(t, sep)| ==> !Occurs(Split(t, sep)[k], sep)
    decreases |t|
  {
    var parts := Split(t, sep);
    if |t| < |sep| {
      forall i | OccursAt(t, sep, i) ensures false { }
    } else if t[..|sep|] == sep {
      SplitPiecesAreFree(t[|sep|..], sep);
      assert !Occurs("", sep) by {
        forall i | OccursAt("", sep, i) ensures false { }
      }
      assert forall k :: 1 <= k < |parts| ==> parts[k] == Split(t[|sep|..], sep)[k - 1];
    } else {
      var rest := Split(t[1..], sep);
      SplitPiecesAreFree(t[1..], sep);
      var head := [t[0]] + rest[0];
      assert StartsWith(t, head);
      OccursCons(t[0], rest[0], sep);
      assert !StartsWith(head, sep) by {
        if |sep| <= |head| {
          assert head[..|sep|] == t[..|head|][..|sep|] == t[..|sep|];
        }
      }
      assert forall k :: 1 <= k < |parts| ==> parts[k] == rest[k];
    }
  }

  /** An occurrence in `[c] + r` is at its start or lies within `r`. */
  lemma OccursCons(c: char, r: string, sep: string)
    ensures Occurs([c] + r, sep) ==> StartsWith([c] + r, sep) || Occurs(r, sep)
  {
    var s := [c] + r;
    if Occurs(s, sep) {
      var i :| 0 <= i <= |s| && OccursAt(s, sep, i);
      if i > 0 {
        assert r[i - 1..i - 1 + |sep|] == s[i..i + |sep|];
        assert OccursAt(r, sep, i - 1);
      } else {
        assert s[..|sep|] == s[i..i + |sep|];
      }
    }
  }

  /** `t.replace(pat, sub)` is `sub.join(t.split(pat))`. */
  lemma {:induction false} ReplaceIsJoinOfSplit(t: string, pat: string, sub: string)
    requires pat != ""
    ensures Replace(t, pat, sub) == Join(Split(t, pat), sub)
    decreases |t|
  {
    if |t| < |pat| {
    } else if t[..|pat|] == pat {
      var rest := Split(t[|pat|..], pat);
      ReplaceIsJoinOfSplit(t[|pat|..], pat, sub);
      assert Replace(t, pat, sub) == sub + Replace(t[|pat|..], pat, sub);
      assert Split(t, pat) == [""] + rest;
      assert ([""] + rest)[1..] == rest;
      assert Join([""] + rest, sub) == "" + sub + Join(rest, sub);
    } else {
      var rest := Split(t[1..], pat);
      ReplaceIsJoinOfSplit(t[1..], pat, sub);
      assert Replace(t, pat, sub) == [t[0]] + Replace(t[1..], pat, sub);
      assert Split(t, pat) == [[t[0]] + rest[0]] + rest[1..];
      JoinConsChar(t[0], rest[0], rest[1..], sub);
      assert [rest[0]] + rest[1..] == rest;
    }
  }

  /** Replacing a pattern by itself changes nothing. */
  lemma ReplaceBySelf(t: string, pat: string)
    requires pat != ""
    ensures Replace(t, pat, pat) == t
  {
    ReplaceIsJoinOfSplit(t, pat, pat);
    JoinSplit(t, pat);
  }

  /** A text in which the pattern does not occur comes back unchanged. */
  lemma {:induction false} ReplaceAbsent(t: string, pat: string, sub: string)
    requires pat != "" && !Occurs(t, pat)
    ensures Replace(t, pat, sub) == t
    decreases |t|
  {
    if |t| < |pat| {
    } else {
      assert !OccursAt(t, pat, 0);
      assert !Occurs(t[1..], pat) by {
        forall i | 0 <= i && i + |pat| <= |t| - 1
          ensures !OccursAt(t[1..], pat, i)
        {
          assert !OccursAt(t, pat, i + 1);
          assert t[1..][i..i + |pat|] == t[i + 1..i + 1 + |pat|];
        }
      }
      ReplaceAbsent(t[1..], pat, sub);
    }
  }

  /** For a one-character pattern, replacing distributes over concatenation. */
  lemma {:induction false} ReplaceCharConcat(a: string, b: string, pat: string, sub: string)
    requires |pat| == 1
    ensures Replace(a + b, pat, sub) == Replace(a, pat, sub) + Replace(b, pat, sub)
    decreases |a|
  {
    if a == [] {
      assert a + b == b;
    } else {
      assert (a + b)[1..] == a[1..] + b;
      assert (a + b)[..1] == a[..1];
      ReplaceCharConcat(a[1..], b, pat, sub);
    }
  }

  /** A one-character pattern absent from `t` leaves `t` unchanged. */
  lemma ReplaceCharAbsent(t: string, c: char, sub: string)
    requires c !in t
    ensures Replace(t, [c], sub) == t
  {
    assert !Occurs(t, [c]) by {
      forall i | 0 <= i <= |t| ensures !OccursAt(t, [c], i) {
        if i < |t| { assert t[i..i + 1] == [t[i]]; }
      }
    }
    ReplaceAbsent(t, [c], sub);
  }

  /** Splitting at a character the pieces do not contain recovers the pieces. */
  lemma {:induction false} SplitJoinChar(parts: seq<string>, c: char)
    requires parts != []
    requires forall k :: 0 <= k < |parts| ==> c !in parts[k]
    ensures Split(Join(parts, [c]), [c]) == parts
    decreases |parts|
  {
    if |parts| == 1 {
      SplitNoSeparator(parts[0], c);
    } else {
      SplitJoinChar(parts[1..], c);
      SplitAtFirst(parts[0], c, Join(parts[1..], [c]));
      assert [parts[0]] + parts[1..] == parts;
    }
  }

  lemma {:induction false} SplitNoSeparator(x: string, c: char)
    requires c !in x
    ensures Split(x, [c]) == [x]
    decreases |x|
  {
    if |x| >= 1 {
      assert x[..1] != [c] by { assert x[..1][0] == x[0]; }
      SplitNoSeparator(x[1..], c);
      assert [x[0]] + x[1..] == x;
    }
  }

  lemma {:induction false} SplitAtFirst(x: string, c: char, y: string)
    requires c !in x
    ensures Split(x + [c] + y, [c]) == [x] + Split(y, [c])
    decreases |x|
  {
    var t := x + [c] + y;
    if x == [] {
      assert t[..1] == [c];
      assert t[1..] == y;
    } else {
      assert t[..1] != [c] by { assert t[..1][0] == x[0]; }
      assert t[1..] == x[1..] + [c] + y;
      SplitAtFirst(x[1..], c, y);
      assert [x[0]] + x[1..] == x;
    }
  }

  lemma {:induction false} SplitAtLast(x: string, c: char, y: string)
    requires c !in y
    ensures Split(x + [c] + y, [c]) == Split(x, [c]) + [y]
    decreases |x|
  {
    SplitNoSeparator(y, c);
    if c !in x {
      SplitAtFirst(x, c, y);
      SplitNoSeparator(x, c);
    } else {
      var i := IndexOf(x, c);
      var x1, x2 := x[..i], x[i + 1..];
      assert x == x1 + [c] + x2;
      assert x + [c] + y == x1 + [c] + (x2 + [c] + y);
      SplitAtFirst(x1, c, x2 + [c] + y);
      SplitAtLast(x2, c, y);
      SplitAtFirst(x1, c, x2);
    }
  }

  /** `str.rfind(c)`: the last position holding `c`, or -1. */
  function RFind(s: string, c: char): (i: int)
    ensures -1 <= i < |s|
    ensures i >= 0 ==> s[i] == c
    ensures forall j :: i < j < |s| ==> s[j] != c
  {
    RFindBelow(s, c, |s|)
  }

  /** The last position below `n` holding `c`, or -1. */
  function RFindBelow(s: string, c: char, n: nat): (i: int)
    requires n <= |s|
    ensures -1 <= i < n
    ensures i >= 0 ==> s[i] == c
    ensures forall j :: i < j < n ==> s[j] != c
  {
    if n == 0 then -1
    else if s[n - 1] == c then n - 1
    else RFindBelow(s, c, n - 1)
  }

  /** The first position holding one of the characters `cs`, or `|s|`. */
  function IndexOfAny(s: string, cs: string): (i: nat)
    ensures i <= |s|
    ensures i < |s| ==> s[i] in cs
    ensures forall j :: 0 <= j < i ==> s[j] !in cs
  {
    if s == "" || s[0] in cs then 0 else 1 + IndexOfAny(s[1..], cs)
  }

  lemma {:induction false} IndexOfConcat(a: string, b: string, c: char)
    requires c !in a
    ensures IndexOf(a + b, c) == |a| + IndexOf(b, c)
  {
    if a != "" {
      assert (a + b)[1..] == a[1..] + b;
      IndexOfConcat(a[1..], b, c);
    } else {
      assert a + b == b;
    }
  }

  lemma {:induction false} IndexOfAnyConcat(a: string, b: string, cs: string)
    requires forall i :: 0 <= i < |a| ==> a[i] !in cs
    ensures IndexOfAny(a + b, cs) == |a| + IndexOfAny(b, cs)
  {
    if a != "" {
      assert (a + b)[1..] == a[1..] + b;
      IndexOfAnyConcat(a[1..], b, cs);
    } else {
      assert a + b == b;
    }
  }

  lemma RFindConcat(a: string, b: string, c: char)
    requires c !in b
    ensures RFind(a + b, c) == RFind(a, c)
  {
    var i := RFind(a + b, c);
    var k := RFind(a, c);
    forall j | |a| <= j < |a + b| ensures (a + b)[j] != c {
      assert (a + b)[j] == b[j - |a|];
    }
    if k >= 0 {
      assert (a + b)[k] == a[k];
    }
    forall j | k < j < |a| ensures (a + b)[j] != c {
      assert (a + b)[j] == a[j];
    }
    forall j | i < j < |a| ensures a[j] != c {
      assert (a + b)[j] == a[j];
    }
  }
}
