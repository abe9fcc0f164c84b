/**
 * `is_image`: whether the final name of a URL path, as
 * `PurePosixPath(path).name` gives it, carries one of a fixed set of image
 * suffixes.
 */
module Images {
  import opened Text

  /** The suffixes `is_image` recognises; the comparison is case-sensitive. */
  const ImageSuffixes: seq<string> := ["png", "jpg", "jpeg", "svg", "webp", "gif"]

  /** A path component `pathlib` keeps: it drops empty components and `.`. */
  predicate IsProperPart(x: string) {
    x != "" && x != "."
  }

  /** The last proper component among the first `n`, or `""` when there is none. */
  function LastProperBelow(parts: seq<string>, n: nat): (name: string)
    requires n <= |parts|
    ensures name == "" || (IsProperPart(name) && name in parts[..n])
  {
    if n == 0 then ""
    else if IsProperPart(parts[n - 1]) then parts[n - 1]
    else LastProperBelow(parts, n - 1)
  }

  /** `PurePosixPath(p).name`: the last component that is neither empty nor `.`. */
  function Name(p: string): string {
    var parts := Split(p, "/");
    LastProperBelow(parts, |parts|)
  }

  /** `is_image(p)`. */
  predicate IsImage(p: string) {
    exists k :: 0 <= k < |ImageSuffixes| && EndsWith(Name(p), "." + ImageSuffixes[k])
  }

  /** A name never holds a `/`. */
  lemma NameHasNoSlash(p: string)
    ensures '/' !in Name(p)
  {
    var parts := Split(p, "/");
    SplitPiecesAreFree(p, "/");
    var n := Name(p);
    if n != "" {
      var k :| 0 <= k < |parts| && parts[k] == n;
      assert !Occurs(n, "/");
      forall i | 0 <= i < |n|
        ensures n[i] != '/'
      {
        assert !OccursAt(n, "/", i);
        assert n[i..i + 1] == [n[i]];
      }
    }
  }

  lemma LastProperAppend(parts: seq<string>, x: string)
    ensures IsProperPart(x) ==> LastProperBelow(parts + [x], |parts| + 1) == x
    ensures !IsProperPart(x) ==> LastProperBelow(parts + [x], |parts| + 1) == LastProperBelow(parts, |parts|)
  {
    if !IsProperPart(x) {
      LastProperPrefix(parts, [x], |parts|);
    }
  }

  lemma {:induction false} LastProperPrefix(parts: seq<string>, more: seq<string>, n: nat)
    requires n <= |parts|
    ensures LastProperBelow(parts + more, n) == LastProperBelow(parts, n)
  {
    if n > 0 {
      assert (parts + more)[n - 1] == parts[n - 1];
      LastProperPrefix(parts, more, n - 1);
    }
  }

  /** The name of `dir/x` is `x` when `x` is a proper component holding no `/`. */
  lemma NameOfChild(dir: string, x: string)
    requires IsProperPart(x) && '/' !in x
    ensures Name(dir + "/" + x) == x
  {
    assert dir + "/" + x == dir + ['/'] + x;
    SplitAtLast(dir, '/', x);
    LastProperAppend(Split(dir, "/"), x);
  }

  /** A trailing `/` or `/.` does not change the name. */
  lemma NameIgnoresTrailing(p: string)
    ensures Name(p + "/") == Name(p)
    ensures Name(p + "/.") == Name(p)
  {
    assert p + "/" == p + ['/'] + "";
    SplitAtLast(p, '/', "");
    LastProperAppend(Split(p, "/"), "");
    assert p + "/." == p + ['/'] + ".";
    SplitAtLast(p, '/', ".");
    LastProperAppend(Split(p, "/"), ".");
  }

  /** `dir/x` is an image exactly when the file name `x` ends with `.` and one of the suffixes. */
  lemma IsImageOfChild(dir: string, x: string)
    requires IsProperPart(x) && '/' !in x
    ensures IsImage(dir + "/" + x) <==> exists k :: 0 <= k < |ImageSuffixes| && EndsWith(x, "." + ImageSuffixes[k])
  {
    NameOfChild(dir, x);
  }

  /** `/img/cat.png` is an image. */
  lemma ExamplePng()
    ensures IsImage("/img/cat.png")
  {
    assert "/img/cat.png" == "/img" + "/" + "cat.png";
    NameOfChild("/img", "cat.png");
    var w := "." + ImageSuffixes[0];
    assert w == ".png";
    assert "cat.png"[3..] == ".png";
    assert EndsWith(Name("/img/cat.png"), w);
  }

  /** A trailing slash does not hide the image: `/img/cat.png/` is one too. */
  lemma ExampleTrailingSlash()
    ensures IsImage("/img/cat.png/")
  {
    ExamplePng();
    NameIgnoresTrailing("/img/cat.png");
    assert "/img/cat.png/" == "/img/cat.png" + "/";
  }

  /** The suffix test is case-sensitive: `/img/cat.PNG` is not an image. */
  lemma ExampleUpperCase()
    ensures !IsImage("/img/cat.PNG")
  {
    assert "/img/cat.PNG" == "/img" + "/" + "cat.PNG";
    NameOfChild("/img", "cat.PNG");
    forall k | 0 <= k < |ImageSuffixes| ensures !EndsWith("cat.PNG", "." + ImageSuffixes[k]) {
      var w := "." + ImageSuffixes[k];
      if |w| <= 7 {
        assert "cat.PNG"[7 - |w|..][|w| - 1] == 'G';
      }
    }
  }

  /** Only the last component counts: `/a.png/b` is not an image. */
  lemma ExampleDirectory()
    ensures !IsImage("/a.png/b")
  {
    assert "/a.png/b" == "/a.png" + "/" + "b";
    NameOfChild("/a.png", "b");
  }
}
