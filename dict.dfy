/**
 * Python dictionaries from strings to strings, as a sequence of entries in
 * insertion order: `d[k] = v` keeps an existing key where it is and appends
 * a new one; `dict(pairs)` and `{**a, **b}` are made of such assignments.
 */
module Dict {
  import opened Wrappers

  type Entries = seq<(string, string)>

  function Keys(d: Entries): seq<string> {
    seq(|d|, i requires 0 <= i < |d| => d[i].0)
  }

  predicate Distinct(xs: seq<string>) {
    forall i, j :: 0 <= i < j < |xs| ==> xs[i] != xs[j]
  }

  /** `d.get(k)`. */
  function Get(d: Entries, k: string): Option<string> {
    if d == [] then None
    else if d[0].0 == k then Some(d[0].1)
    else Get(d[1..], k)
  }

  /** The value the last pair with key `k` carries, if any. */
  function LastValue(ps: Entries, k: string): Option<string> {
    if ps == [] then None
    else if ps[|ps| - 1].0 == k then Some(ps[|ps| - 1].1)
    else LastValue(ps[..|ps| - 1], k)
  }

  /** `d[k] = v`. */
  function Put(d: Entries, k: string, v: string): (r: Entries)
    ensures Keys(r) == if k in Keys(d) then Keys(d) else Keys(d) + [k]
    ensures Get(r, k) == Some(v)
    ensures forall j :: j != k ==> Get(r, j) == Get(d, j)
  {
    if d == [] then [(k, v)]
    else
      KeysCons(d);
      if d[0].0 == k then
        var r := [(k, v)] + d[1..];
        KeysCons(r);
        assert r[1..] == d[1..];
        r
      else
        var r := [d[0]] + Put(d[1..], k, v);
        KeysCons(r);
        assert r[1..] == Put(d[1..], k, v);
        r
  }

  /** The keys of a non-empty dictionary: the first key, then the keys of the rest. */
  lemma KeysCons(d: Entries)
    requires d != []
    ensures Keys(d) == [d[0].0] + Keys(d[1..])
  {
  }

  /** `ks` followed by the elements of `xs` it lacks, each once, in the order they first occur in `xs`. */
  function Absorb(ks: seq<string>, xs: seq<string>): (r: seq<string>)
    ensures Distinct(ks) ==> Distinct(r)
    ensures forall x :: x in r <==> x in ks || x in xs
  {
    if xs == [] then ks
    else
      var r := Absorb(ks, xs[..|xs| - 1]);
      assert xs == xs[..|xs| - 1] + [xs[|xs| - 1]];
      if xs[|xs| - 1] in r then r else r + [xs[|xs| - 1]]
  }

  /** The elements of `xs` without repetitions, in the order of their first occurrence. */
  function Dedup(xs: seq<string>): seq<string> {
    Absorb([], xs)
  }

  /** `{**a, **b}`: the entries of `b` assigned one after another into a copy of `a`. */
  function Update(a: Entries, b: Entries): (r: Entries)
    ensures Distinct(Keys(a)) ==> Distinct(Keys(r))
  {
    if b == [] then a
    else
      var n := |b| - 1;
      Put(Update(a, b[..n]), b[n].0, b[n].1)
  }

  /** `dict(pairs)`. */
  function FromPairs(ps: Entries): Entries {
    Update([], ps)
  }

  lemma KeysPrefix(d: Entries, n: nat)
    requires n <= |d|
    ensures Keys(d[..n]) == Keys(d)[..n]
  {
  }

  /** In `{**a, **b}` a key takes its value from the last pair of `b` that has it, else from `a`. */
  lemma {:induction false} UpdateGet(a: Entries, b: Entries, k: string)
    ensures Get(Update(a, b), k) == if LastValue(b, k).Some? then LastValue(b, k) else Get(a, k)
  {
    if b != [] {
      UpdateGet(a, b[..|b| - 1], k);
    }
  }

  /** The keys of `{**a, **b}` are those of `a`, followed by the new keys of `b` in first-occurrence order. */
  lemma {:induction false} UpdateKeys(a: Entries, b: Entries)
    ensures Keys(Update(a, b)) == Absorb(Keys(a), Keys(b))
  {
    if b != [] {
      var n := |b| - 1;
      UpdateKeys(a, b[..n]);
      KeysPrefix(b, n);
    }
  }

  /** `dict(pairs)` keeps, for each key, the value of its last pair. */
  lemma FromPairsGet(ps: Entries, k: string)
    ensures Get(FromPairs(ps), k) == LastValue(ps, k)
  {
    UpdateGet([], ps, k);
  }

  /** `dict(pairs)` orders its keys by first occurrence and holds each once. */
  lemma FromPairsKeys(ps: Entries)
    ensures Keys(FromPairs(ps)) == Dedup(Keys(ps))
    ensures Distinct(Keys(FromPairs(ps)))
  {
    UpdateKeys([], ps);
  }

  /** The elements of `xs` missing from `ks`, in order. */
  function Missing(ks: seq<string>, xs: seq<string>): seq<string> {
    if xs == [] then []
    else
      var n := |xs| - 1;
      Missing(ks, xs[..n]) + (if xs[n] in ks then [] else [xs[n]])
  }

  /** Absorbing distinct new keys appends exactly those missing, in their order. */
  lemma {:induction false} AbsorbDistinct(ks: seq<string>, xs: seq<string>)
    requires Distinct(xs)
    ensures Absorb(ks, xs) == ks + Missing(ks, xs)
  {
    if xs != [] {
      var n := |xs| - 1;
      var x := xs[n];
      DistinctSeqInit(xs);
      AbsorbDistinct(ks, xs[..n]);
      MissingSubset(ks, xs[..n]);
      var m := Missing(ks, xs[..n]);
      AbsorbStep(ks, xs);
      MissingStep(ks, xs);
      assert (x in ks + m) == (x in ks);
      if x in ks {
        assert m + [] == m;
      } else {
        assert ks + m + [x] == ks + (m + [x]);
      }
    }
  }

  lemma DistinctSeqInit(xs: seq<string>)
    requires xs != [] && Distinct(xs)
    ensures Distinct(xs[..|xs| - 1]) && xs[|xs| - 1] !in xs[..|xs| - 1]
  {
  }

  lemma AbsorbStep(ks: seq<string>, xs: seq<string>)
    requires xs != []
    ensures var r := Absorb(ks, xs[..|xs| - 1]);
      Absorb(ks, xs) == if xs[|xs| - 1] in r then r else r + [xs[|xs| - 1]]
  {
  }

  lemma MissingStep(ks: seq<string>, xs: seq<string>)
    requires xs != []
    ensures Missing(ks, xs) == Missing(ks, xs[..|xs| - 1]) + (if xs[|xs| - 1] in ks then [] else [xs[|xs| - 1]])
  {
  }

  lemma {:induction false} MissingSubset(ks: seq<string>, xs: seq<string>)
    ensures forall x :: x in Missing(ks, xs) ==> x in xs
  {
    if xs != [] {
      var n := |xs| - 1;
      MissingSubset(ks, xs[..n]);
      assert forall x :: x in xs[..n] ==> x in xs;
    }
  }

  /** Position of the first occurrence of `x` in `xs`. */
  function FirstIndex(xs: seq<string>, x: string): (i: nat)
    requires x in xs
    ensures i < |xs| && xs[i] == x && x !in xs[..i]
  {
    if xs[0] == x then 0
    else
      var i := FirstIndex(xs[1..], x);
      assert xs[..1 + i] == [xs[0]] + xs[1..][..i];
      1 + i
  }

  /** A position holding `x` with no `x` before it is the first index of `x`. */
  lemma FirstIndexUnique(zs: seq<string>, x: string, k: nat)
    requires k < |zs| && zs[k] == x && x !in zs[..k]
    ensures FirstIndex(zs, x) == k
  {
    var i := FirstIndex(zs, x);
    forall m | 0 <= m < k ensures zs[m] != x { assert zs[..k][m] == zs[m]; }
    forall m | 0 <= m < i ensures zs[m] != x { assert zs[..i][m] == zs[m]; }
  }

  lemma FirstIndexExtend(xs: seq<string>, y: string, x: string)
    requires x in xs
    ensures FirstIndex(xs + [y], x) == FirstIndex(xs, x)
  {
    var i := FirstIndex(xs, x);
    assert (xs + [y])[..i] == xs[..i];
    FirstIndexUnique(xs + [y], x, i);
  }

  /** `Dedup` lists elements in the order in which they first occur. */
  lemma {:induction false} DedupOrder(xs: seq<string>)
    ensures forall i, j :: 0 <= i < j < |Dedup(xs)| ==>
      FirstIndex(xs, Dedup(xs)[i]) < FirstIndex(xs, Dedup(xs)[j])
  {
    if xs != [] {
      var n := |xs| - 1;
      var p := xs[..n];
      DedupOrder(p);
      assert xs == p + [xs[n]];
      var d := Dedup(p);
      forall x | x in d ensures FirstIndex(xs, x) == FirstIndex(p, x) {
        FirstIndexExtend(p, xs[n], x);
      }
      if xs[n] !in d {
        assert FirstIndex(xs, xs[n]) == n;
      }
    }
  }

  /** Assigning a key the value it already has changes nothing. */
  lemma {:induction false} PutExisting(d: Entries, k: string, v: string)
    requires Get(d, k) == Some(v)
    ensures Put(d, k, v) == d
  {
    if d[0].0 != k {
      PutExisting(d[1..], k, v);
      assert [d[0]] + d[1..] == d;
    }
  }

  /** Assigning a new key appends it. */
  lemma {:induction false} PutNew(d: Entries, k: string, v: string)
    requires k !in Keys(d)
    ensures Put(d, k, v) == d + [(k, v)]
  {
    if d != [] {
      assert d[0].0 != k by {
        assert Keys(d)[0] == d[0].0;
      }
      assert k !in Keys(d[1..]) by {
        assert Keys(d[1..]) == Keys(d)[1..];
      }
      PutNew(d[1..], k, v);
      assert Put(d, k, v) == [d[0]] + Put(d[1..], k, v);
      assert [d[0]] + (d[1..] + [(k, v)]) == d + [(k, v)];
    }
  }

  /** `dict(d.items())` is `d` itself. */
  lemma {:induction false} FromPairsDistinct(d: Entries)
    requires Distinct(Keys(d))
    ensures FromPairs(d) == d
  {
    if d != [] {
      var n := |d| - 1;
      DistinctInit(d);
      FromPairsDistinct(d[..n]);
      FromPairsSnoc(d);
    }
  }

  lemma FromPairsSnoc(d: Entries)
    requires d != []
    requires FromPairs(d[..|d| - 1]) == d[..|d| - 1]
    requires d[|d| - 1].0 !in Keys(d[..|d| - 1])
    ensures FromPairs(d) == d
  {
    var n := |d| - 1;
    FromPairsStep(d);
    PutNew(d[..n], d[n].0, d[n].1);
    assert d[..n] + [(d[n].0, d[n].1)] == d;
  }

  lemma FromPairsStep(d: Entries)
    requires d != []
    ensures FromPairs(d) == Put(FromPairs(d[..|d| - 1]), d[|d| - 1].0, d[|d| - 1].1)
  {
  }

  /** Without its last entry a dictionary with distinct keys still has distinct keys, none of them the last key. */
  lemma DistinctInit(d: Entries)
    requires d != [] && Distinct(Keys(d))
    ensures Distinct(Keys(d[..|d| - 1]))
    ensures d[|d| - 1].0 !in Keys(d[..|d| - 1])
  {
    var n := |d| - 1;
    KeysPrefix(d, n);
    assert Keys(d)[n] == d[n].0;
  }

  /** A key whose first value is `v` is in the dictionary. */
  lemma {:induction false} GetSomeKey(d: Entries, k: string)
    requires Get(d, k).Some?
    ensures k in Keys(d)
  {
    if d[0].0 != k {
      GetSomeKey(d[1..], k);
      assert Keys(d[1..]) == Keys(d)[1..];
    } else {
      assert Keys(d)[0] == k;
    }
  }
}
