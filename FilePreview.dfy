/** The helpers of components/file_preview.tsx: whether a file URL names an
    image, its extension, and which of the two previews is rendered. */
module FilePreview {
  import opened Wrappers
  import JsStrings

  /** The suffixes `isValidImageUrl` accepts, all lower-case, each a dot
      followed by a dot-free name. */
  const ImageExtensions: seq<string> := [".jpg", ".jpeg", ".png", ".gif", ".bmp", ".webp"]

  /** `isValidImageUrl`: an absent or empty URL is not an image; otherwise the
      lower-cased URL must end with one of the image suffixes. */
  predicate IsValidImageUrl(url: Option<string>) {
    url.Some? && url.value != [] &&
    exists i :: 0 <= i < |ImageExtensions| && JsStrings.EndsWith(JsStrings.ToLower(url.value), ImageExtensions[i])
  }

  /** `getExtension`: the last piece of `url.split(".")` when there is more
      than one piece, otherwise "". */
  function GetExtension(url: Option<string>): (ext: string)
    ensures url.None? || url.value == [] ==> ext == []
    ensures url.Some? && '.' !in url.value ==> ext == []
    ensures '.' !in ext
  {
    if url.None? || url.value == [] then []
    else
      var parts := JsStrings.Split(url.value, '.');
      if |parts| > 1 then
        JsStrings.SplitPartsLackSep(url.value, '.', |parts| - 1);
        parts[|parts| - 1]
      else []
  }

  /** A URL whose '.' at `k` is followed by dot-free text has that text as
      its extension. */
  lemma ExtensionIsLastPart(u: string, k: int)
    requires 0 <= k < |u| && u[k] == '.' && '.' !in u[k + 1..]
    ensures GetExtension(Some(u)) == u[k + 1..]
  {
    var x, y := u[..k], u[k + 1..];
    assert u == x + ['.'] + y;
    JsStrings.SplitLastPart(x, y, '.');
    var parts := JsStrings.Split(u, '.');
    assert |parts| > 1 && parts[|parts| - 1] == y;
  }

  /** The extension is exactly the text after the last '.'. */
  lemma ExtensionFollowsLastDot(u: string)
    requires '.' in u
    ensures GetExtension(Some(u)) == u[JsStrings.LastIndexOf(u, '.') + 1..]
  {
    ExtensionIsLastPart(u, JsStrings.LastIndexOf(u, '.'));
  }

  /** So a URL ending in '.' has the empty extension. */
  lemma TrailingDotHasNoExtension(x: string)
    ensures GetExtension(Some(x + ['.'])) == []
  {
    var u := x + ['.'];
    ExtensionFollowsLastDot(u);
    assert JsStrings.LastIndexOf(u, '.') == |u| - 1;
  }

  /** Lower-casing leaves a '.' where it was and creates no other. */
  lemma LowerKeepsDot(s: string, i: int)
    requires 0 <= i < |s|
    ensures JsStrings.ToLower(s)[i] == '.' <==> s[i] == '.'
  {
  }

  /** Lower-casing commutes with dropping a prefix. */
  lemma LowerOfSuffix(s: string, i: nat)
    requires i <= |s|
    ensures JsStrings.ToLower(s[i..]) == JsStrings.ToLower(s)[i..]
  {
  }

  /** `low` holds its '.'s exactly where `u` does. */
  predicate SameDots(low: string, u: string) {
    |low| == |u| && forall i :: 0 <= i < |u| ==> (low[i] == '.' <==> u[i] == '.')
  }

  lemma LowerSameDots(u: string)
    ensures SameDots(JsStrings.ToLower(u), u)
  {
    forall i | 0 <= i < |u|
      ensures JsStrings.ToLower(u)[i] == '.' <==> u[i] == '.'
    {
      LowerKeepsDot(u, i);
    }
  }

  /** When a string with the URL's dots (its lower-cased form) ends with a
      '.' and a dot-free name, that '.' is the URL's last one. */
  lemma SuffixLocatesLastDot(u: string, low: string, e: string)
    requires |e| >= 1 && e[0] == '.' && '.' !in e[1..]
    requires SameDots(low, u) && JsStrings.EndsWith(low, e)
    ensures '.' in u
    ensures JsStrings.LastIndexOf(u, '.') == |u| - |e|
  {
    var d := |u| - |e|;
    assert low[d..] == e;
    assert low[d] == '.';
    forall j | d < j < |u|
      ensures u[j] != '.'
    {
      assert low[j] == e[j - d] == e[1..][j - d - 1];
    }
    LastDotAt(u, d);
  }

  /** A '.' at `d` with none after it is the last '.'. */
  lemma LastDotAt(u: string, d: int)
    requires 0 <= d < |u| && u[d] == '.'
    requires forall j :: d < j < |u| ==> u[j] != '.'
    ensures JsStrings.LastIndexOf(u, '.') == d
  {
  }

  /** For a URL whose last '.' is at `k`, and a string with the URL's dots:
      that string ends with a dot suffix exactly when its part from `k` on
      is the suffix. */
  lemma DotSuffixAfter(u: string, low: string, e: string, k: int)
    requires |e| >= 1 && e[0] == '.' && '.' !in e[1..]
    requires '.' in u && k == JsStrings.LastIndexOf(u, '.')
    requires SameDots(low, u)
    ensures JsStrings.EndsWith(low, e) <==> low[k..] == e
  {
    if JsStrings.EndsWith(low, e) {
      SuffixLocatesLastDot(u, low, e);
    }
  }

  /** Lower-casing the URL from its '.' at `k` on gives the '.' and the
      lower-cased text after it. */
  lemma LowerFromDot(u: string, k: int)
    requires 0 <= k < |u| && u[k] == '.'
    ensures JsStrings.ToLower(u)[k..] == ['.'] + JsStrings.ToLower(u[k + 1..])
  {
    var low := JsStrings.ToLower(u);
    LowerOfSuffix(u, k + 1);
    LowerKeepsDot(u, k);
    ConsAt(low, k);
  }

  /** A suffix is its first character and the rest. */
  lemma ConsAt(s: string, k: int)
    requires 0 <= k < |s|
    ensures s[k..] == [s[k]] + s[k + 1..]
  {
  }

  /** For a suffix made of a '.' and a non-empty dot-free name, "the
      lower-cased URL ends with it" is "the lower-cased extension is that
      name". */
  lemma EndsWithDotSuffix(u: string, e: string)
    requires |e| >= 2 && e[0] == '.' && '.' !in e[1..]
    ensures JsStrings.EndsWith(JsStrings.ToLower(u), e) <==> ['.'] + JsStrings.ToLower(GetExtension(Some(u))) == e
  {
    var ext := GetExtension(Some(u));
    if '.' in u {
      var k := JsStrings.LastIndexOf(u, '.');
      ExtensionFollowsLastDot(u);
      LowerSameDots(u);
      var low, tail := JsStrings.ToLower(u), JsStrings.ToLower(u[k + 1..]);
      DotSuffixAfter(u, low, e, k);
      LowerFromDot(u, k);
      assert JsStrings.ToLower(ext) == tail;
      assert low[k..] == ['.'] + tail;
    } else {
      UndottedHasNoDotSuffix(u, e);
      assert |['.'] + JsStrings.ToLower(ext)| == 1;
    }
  }

  /** A URL without a '.' ends, lower-cased, with no dot suffix. */
  lemma UndottedHasNoDotSuffix(u: string, e: string)
    requires |e| >= 1 && e[0] == '.'
    requires '.' !in u
    ensures !JsStrings.EndsWith(JsStrings.ToLower(u), e)
  {
    if JsStrings.EndsWith(JsStrings.ToLower(u), e) {
      LowerKeepsDot(u, |u| - |e|);
    }
  }

  /** A URL is an image URL exactly when its lower-cased extension, with
      its dot, is one of the image suffixes: the two helpers agree. */
  lemma ImageIffExtension(u: string)
    ensures IsValidImageUrl(Some(u)) <==> ['.'] + JsStrings.ToLower(GetExtension(Some(u))) in ImageExtensions
  {
    forall i | 0 <= i < |ImageExtensions|
      ensures JsStrings.EndsWith(JsStrings.ToLower(u), ImageExtensions[i]) <==> ['.'] + JsStrings.ToLower(GetExtension(Some(u))) == ImageExtensions[i]
    {
      EndsWithDotSuffix(u, ImageExtensions[i]);
    }
    if u == [] {
      assert ['.'] + JsStrings.ToLower(GetExtension(Some(u))) == ".";
    }
  }

  /** The check ignores the case the URL is written in. */
  lemma ImageCheckIgnoresCase(u: string)
    ensures IsValidImageUrl(Some(u)) == IsValidImageUrl(Some(JsStrings.ToLower(u)))
    ensures IsValidImageUrl(Some(u)) == IsValidImageUrl(Some(JsStrings.ToUpper(u)))
  {
    JsStrings.LowerOfUpper(u);
  }

  /** What the component renders. */
  datatype Preview = Image(uri: string) | ExtensionLabel(caption: string)

  /** The image when `isImage && fileUri`, otherwise the label "." followed
      by the upper-cased extension. */
  function ChoosePreview(fileUri: Option<string>): (p: Preview)
    ensures p.Image? ==> fileUri == Some(p.uri)
  {
    if IsValidImageUrl(fileUri) && fileUri.Some? && fileUri.value != [] then Image(fileUri.value)
    else ExtensionLabel(['.'] + JsStrings.ToUpper(GetExtension(fileUri)))
  }

  /** An image is shown exactly for URLs whose extension, compared without
      case, is an image extension; every other file gets a label made of one
      '.' and its extension in upper case. */
  lemma PreviewChoice(fileUri: Option<string>)
    ensures ChoosePreview(fileUri).Image? <==>
      fileUri.Some? && ['.'] + JsStrings.ToLower(GetExtension(fileUri)) in ImageExtensions
    ensures ChoosePreview(fileUri).ExtensionLabel? ==>
      var caption := ChoosePreview(fileUri).caption;
      && |caption| >= 1 && caption[0] == '.' && '.' !in caption[1..]
      && JsStrings.ToLower(caption[1..]) == JsStrings.ToLower(GetExtension(fileUri))
      && forall i :: 0 <= i < |caption| ==> !JsStrings.IsLowerAscii(caption[i])
  {
    if fileUri.Some? {
      ImageIffExtension(fileUri.value);
    }
    var ext := GetExtension(fileUri);
    var up := JsStrings.ToUpper(ext);
    JsStrings.LowerOfUpper(ext);
    assert (['.'] + up)[1..] == up;
  }

  /** The samples of the component: no URL and the empty URL are neither
      images nor have an extension. */
  lemma AbsentUrlSamples()
    ensures !IsValidImageUrl(None) && !IsValidImageUrl(Some(""))
    ensures GetExtension(None) == "" && GetExtension(Some("")) == ""
    ensures ChoosePreview(None) == ExtensionLabel(".")
  {
  }
}
