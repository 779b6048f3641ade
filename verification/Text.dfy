/**
  The two string helpers of the client: `String.prototype.trim`, which guards
  sending (client.js:145-148), and `isImageUrl` (client.js:13-15), which decides
  whether a message's text is shown as a picture.
 */
module Text {

  /** ECMAScript WhiteSpace and LineTerminator code points, the set `trim` removes. */
  predicate IsSpace(c: char)
  {
    var n := c as int;
    n == 0x09 || n == 0x0A || n == 0x0B || n == 0x0C || n == 0x0D || n == 0x20
    || n == 0xA0 || n == 0x1680 || (0x2000 <= n <= 0x200A)
    || n == 0x2028 || n == 0x2029 || n == 0x202F || n == 0x205F || n == 0x3000 || n == 0xFEFF
  }

  /** Every character of `s` at an index in `[lo, hi)` is whitespace. */
  predicate SpaceBetween(s: string, lo: int, hi: int)
  {
    forall j :: lo <= j < hi && 0 <= j < |s| ==> IsSpace(s[j])
  }

  predicate AllSpace(s: string)
  {
    SpaceBetween(s, 0, |s|)
  }

  /** Number of whitespace characters at the start of `s`. */
  function LeadingSpace(s: string): (n: nat)
    ensures n <= |s|
    ensures SpaceBetween(s, 0, n)
    ensures n < |s| ==> !IsSpace(s[n])
  {
    if |s| == 0 || !IsSpace(s[0]) then 0
    else
      var k := LeadingSpace(s[1..]);
      assert forall j :: 1 <= j < k + 1 ==> s[j] == s[1..][j - 1];
      k + 1
  }

  /** Number of whitespace characters at the end of `s`. */
  function TrailingSpace(s: string): (n: nat)
    ensures n <= |s|
    ensures SpaceBetween(s, |s| - n, |s|)
    ensures n < |s| ==> !IsSpace(s[|s| - n - 1])
  {
    if |s| == 0 || !IsSpace(s[|s| - 1]) then 0
    else
      var init := s[..|s| - 1];
      var k := TrailingSpace(init);
      assert forall j :: 0 <= j < |init| ==> s[j] == init[j];
      k + 1
  }

  /**
    `s` consists of whitespace, then `t` starting at index `i`, then whitespace.
   */
  predicate Framed(s: string, t: string, i: nat)
  {
    && i + |t| <= |s|
    && SpaceBetween(s, 0, i)
    && s[i..i + |t|] == t
    && SpaceBetween(s, i + |t|, |s|)
  }

  /** `s.trim()`. */
  function Trim(s: string): (t: string)
    ensures Framed(s, t, LeadingSpace(s))
    ensures |t| > 0 ==> !IsSpace(t[0]) && !IsSpace(t[|t| - 1])
    ensures |t| == 0 <==> AllSpace(s)
  {
    var a := LeadingSpace(s);
    var rest := s[a..];
    var b := TrailingSpace(rest);
    var t := rest[..|rest| - b];
    assert forall j :: a <= j < |s| ==> s[j] == rest[j - a];
    t
  }

  /** Trimming again removes nothing. */
  lemma TrimIdempotent(s: string)
    ensures Trim(Trim(s)) == Trim(s)
  {
    var t := Trim(s);
    if |t| > 0 {
      assert LeadingSpace(t) == 0;
      assert TrailingSpace(t) == 0;
    }
  }

  /** Padding a string with whitespace keeps its core, shifted by the left padding. */
  lemma FramedPadding(pre: string, s: string, post: string, t: string, i: nat)
    requires AllSpace(pre) && AllSpace(post) && Framed(s, t, i)
    ensures Framed(pre + s + post, t, |pre| + i)
  {
    var u := pre + s + post;
    var k := |pre| + i;
    forall j | 0 <= j < k ensures IsSpace(u[j]) {
      if j < |pre| { assert u[j] == pre[j]; } else { assert u[j] == s[j - |pre|]; }
    }
    forall j | k + |t| <= j < |u| ensures IsSpace(u[j]) {
      if j < |pre| + |s| { assert u[j] == s[j - |pre|]; } else { assert u[j] == post[j - |pre| - |s|]; }
    }
    assert u[k..k + |t|] == s[i..i + |t|];
  }

  /** Whitespace around a string does not change its trimmed form. */
  lemma TrimIgnoresPadding(pre: string, s: string, post: string)
    requires AllSpace(pre) && AllSpace(post)
    ensures Trim(pre + s + post) == Trim(s)
  {
    var u := pre + s + post;
    FramedPadding(pre, s, post, Trim(s), LeadingSpace(s));
    FramedUnique(u, Trim(s), |pre| + LeadingSpace(s), Trim(u), LeadingSpace(u));
  }

  /** A framed core with non-space ends starts after the leading and ends before the trailing whitespace. */
  lemma FramedCore(s: string, t: string, i: nat)
    ensures Framed(s, t, i) && |t| > 0 && !IsSpace(t[0]) && !IsSpace(t[|t| - 1]) ==>
              i == LeadingSpace(s) && i + |t| == |s| - TrailingSpace(s)
  {
    if Framed(s, t, i) && |t| > 0 && !IsSpace(t[0]) && !IsSpace(t[|t| - 1]) {
      assert s[i] == t[0] && s[i + |t| - 1] == t[|t| - 1] by {
        assert s[i..i + |t|][0] == s[i] && s[i..i + |t|][|t| - 1] == s[i + |t| - 1];
      }
    }
  }

  /** A string has only one trimmed core. */
  lemma FramedUnique(s: string, t1: string, i1: nat, t2: string, i2: nat)
    requires Framed(s, t1, i1) && Framed(s, t2, i2)
    requires |t1| > 0 ==> !IsSpace(t1[0]) && !IsSpace(t1[|t1| - 1])
    requires |t2| > 0 ==> !IsSpace(t2[0]) && !IsSpace(t2[|t2| - 1])
    ensures t1 == t2
  {
    FramedCore(s, t1, i1);
    FramedCore(s, t2, i2);
    assert |t1| > 0 ==> !IsSpace(s[i1]) by { if |t1| > 0 { assert s[i1..i1 + |t1|][0] == s[i1]; } }
    assert |t2| > 0 ==> !IsSpace(s[i2]) by { if |t2| > 0 { assert s[i2..i2 + |t2|][0] == s[i2]; } }
  }

  /** The file suffixes the image regular expression `\.(jpg|jpeg|png|webp|gif)$` accepts. */
  const ImageSuffixes: seq<string> := [".jpg", ".jpeg", ".png", ".webp", ".gif"]
  const UnsplashPrefix: string := "https://images.unsplash.com"

  predicate EndsWith(s: string, suffix: string)
  {
    |suffix| <= |s| && s[|s| - |suffix|..] == suffix
  }

  /** `isImageUrl(url)`: an image file suffix at the very end, or the Unsplash image host prefix. */
  predicate IsImageUrl(url: string)
  {
    (exists k :: 0 <= k < |ImageSuffixes| && EndsWith(url, ImageSuffixes[k])) || UnsplashPrefix <= url
  }

  /** Any text that ends in one of the image suffixes is shown as an image. */
  lemma ImageBySuffix(path: string, k: nat)
    requires k < |ImageSuffixes|
    ensures IsImageUrl(path + ImageSuffixes[k])
  {
    var u := path + ImageSuffixes[k];
    assert u[|u| - |ImageSuffixes[k]|..] == ImageSuffixes[k];
  }

  /** Any text under the Unsplash host is shown as an image. */
  lemma ImageByHost(rest: string)
    ensures IsImageUrl(UnsplashPrefix + rest)
  {
    assert (UnsplashPrefix + rest)[..|UnsplashPrefix|] == UnsplashPrefix;
  }

  /** Text without a dot that is not under the Unsplash host is shown as text. */
  lemma NoDotNoImage(text: string)
    requires '.' !in text
    requires !(UnsplashPrefix <= text)
    ensures !IsImageUrl(text)
  {
    forall k | 0 <= k < |ImageSuffixes|
      ensures !EndsWith(text, ImageSuffixes[k])
    {
      var e := ImageSuffixes[k];
      assert e[0] == '.';
      if |e| <= |text| {
        assert text[|text| - |e|..][0] == text[|text| - |e|];
      }
    }
  }

  /** The suffix check is case-sensitive: an upper-case extension is not an image. */
  lemma UpperCaseExtensionIsText()
    ensures !IsImageUrl("cat.JPG")
  {
    forall k | 0 <= k < |ImageSuffixes|
      ensures !EndsWith("cat.JPG", ImageSuffixes[k])
    {
      var u, e := "cat.JPG", ImageSuffixes[k];
      assert e[|e| - 1] != 'G';
      assert u[|u| - |e|..][|e| - 1] == 'G';
    }
    assert !(UnsplashPrefix <= "cat.JPG") by { assert UnsplashPrefix[0] != 'c'; }
  }
}
