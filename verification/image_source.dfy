/**
 Image-source classification of `renderImage` in index.js.

 A node's `src` is sorted into one of the branches the source takes:
 nothing to draw, a source that is not an inline `data:image` URL, an
 inline raster the PDF library embeds directly, an inline SVG that must
 first be drawn onto a canvas, any other inline type, and an inline
 source the regular expression `/^data\:image\/(.+)\;/` does not match,
 on which the source's destructuring throws.

 The capture group is greedy: it ends at the LAST ';' reachable before
 the first line terminator, not at the first ';'.
 */
module ImageSource {

  import opened Optional

  /** What `/^data\:image/` tests for. */
  const InlinePrefix: string := "data:image"

  /** The fixed text in front of the capture group of `/^data\:image\/(.+)\;/`. */
  const CapturePrefix: string := "data:image/"

  predicate StartsWith(s: string, prefix: string) {
    |prefix| <= |s| && s[..|prefix|] == prefix
  }

  /** The characters JavaScript's `.` does not match. */
  predicate IsLineTerminator(ch: char) {
    ch == '\n' || ch == '\r' || ch == '\U{2028}' || ch == '\U{2029}'
  }

  /** Index of the first line terminator at or after `i`, or `|s|`. */
  function LineEnd(s: string, i: nat): (e: nat)
    requires i <= |s|
    ensures i <= e <= |s|
    ensures forall j :: i <= j < e ==> !IsLineTerminator(s[j])
    ensures e < |s| ==> IsLineTerminator(s[e])
    decreases |s| - i
  {
    if i == |s| || IsLineTerminator(s[i]) then i else LineEnd(s, i + 1)
  }

  /** The last index in `[lo, hi)` holding ';', if any. */
  function LastSemicolon(s: string, lo: nat, hi: nat): (k: Option<nat>)
    requires lo <= hi <= |s|
    ensures k.Some? ==> lo <= k.value < hi && s[k.value] == ';'
    ensures k.Some? ==> forall j :: k.value < j < hi ==> s[j] != ';'
    ensures k.None? ==> forall j :: lo <= j < hi ==> s[j] != ';'
    decreases hi - lo
  {
    if hi == lo then None
    else if s[hi - 1] == ';' then Some(hi - 1)
    else LastSemicolon(s, lo, hi - 1)
  }

  /** Index `k` can end a match of `/^data\:image\/(.+)\;/`: it holds ';',
      the group before it is not empty and crosses no line terminator. */
  predicate MatchEnd(src: string, k: int) {
    && StartsWith(src, CapturePrefix)
    && |CapturePrefix| < k < |src|
    && src[k] == ';'
    && forall j :: |CapturePrefix| <= j < k ==> !IsLineTerminator(src[j])
  }

  /** The group `src.match(/^data\:image\/(.+)\;/)[1]`, or `None` when
      `match` returns null. */
  function CaptureImageType(src: string): (t: Option<string>)
    ensures t.Some? ==>
      var k := |CapturePrefix| + |t.value|;
      && MatchEnd(src, k)
      && src[|CapturePrefix|..k] == t.value
  {
    if !StartsWith(src, CapturePrefix) then None
    else
      var e := LineEnd(src, |CapturePrefix|);
      if e <= |CapturePrefix| then None
      else
        match LastSemicolon(src, |CapturePrefix| + 1, e)
        case None => None
        case Some(k) => Some(src[|CapturePrefix|..k])
  }

  /** The branches of `renderImage`. */
  datatype ImageClass =
    | NoSource                      // `!src`
    | NotInline                     // the empty `else {}`
    | Raster(format: string)        // jpeg, png, webp: embedded directly
    | Svg                           // svg+xml: drawn on a canvas, embedded as PNG
    | OtherInline(imageType: string) // any other captured type: nothing drawn
    | Unmatched                     // the destructuring of `null` throws

  /** ASCII `toUpperCase`, enough for the three raster type names. */
  function Upper(s: string): (u: string)
    ensures |u| == |s|
    ensures forall i :: 0 <= i < |s| ==>
      u[i] == if 'a' <= s[i] <= 'z' then (s[i] - 'a' + 'A') as char else s[i]
  {
    if |s| == 0 then []
    else [if 'a' <= s[0] <= 'z' then (s[0] - 'a' + 'A') as char else s[0]] + Upper(s[1..])
  }

  predicate IsRasterType(t: string) {
    t == "jpeg" || t == "png" || t == "webp"
  }

  /** `renderImage`'s decision on `src` (`None` is an absent property). */
  function Classify(src: Option<string>): (c: ImageClass)
    ensures c == NoSource <==> src == None || src == Some("")
    ensures c == NotInline <==> src.Some? && src.value != "" && !StartsWith(src.value, InlinePrefix)
    ensures c == Unmatched <==>
      src.Some? && StartsWith(src.value, InlinePrefix) && forall k :: !MatchEnd(src.value, k)
    ensures c.Raster? ==> c.format == "JPEG" || c.format == "PNG" || c.format == "WEBP"
    ensures c.Raster? || c == Svg || c.OtherInline? ==>
      src.Some? && CaptureImageType(src.value).Some?
    ensures c.Raster? ==>
      var t := CaptureImageType(src.value).value;
      IsRasterType(t) && c.format == Upper(t)
    ensures c == Svg ==> CaptureImageType(src.value) == Some("svg+xml")
    ensures c.OtherInline? ==>
      && CaptureImageType(src.value) == Some(c.imageType)
      && !IsRasterType(c.imageType) && c.imageType != "svg+xml"
  {
    if src == None || src == Some("") then NoSource
    else
      var s := src.value;
      if !StartsWith(s, InlinePrefix) then NotInline
      else
        CaptureCharacterised(s);
        match CaptureImageType(s)
        case None => Unmatched
        case Some(t) =>
          if IsRasterType(t) then
            UpperOfRasterTypes();
            Raster(Upper(t))
          else if t == "svg+xml" then Svg
          else OtherInline(t)
  }

  /** The three raster type names upper-case to the format names. */
  lemma UpperOfRasterTypes()
    ensures Upper("jpeg") == "JPEG" && Upper("png") == "PNG" && Upper("webp") == "WEBP"
  {
    UpperOfLetters("jpeg", "JPEG");
    UpperOfLetters("png", "PNG");
    UpperOfLetters("webp", "WEBP");
  }

  /** A word of lower-case letters upper-cases letter by letter. */
  lemma UpperOfLetters(s: string, u: string)
    requires |u| == |s|
    requires forall i :: 0 <= i < |s| ==> 'a' <= s[i] <= 'z' && u[i] == (s[i] - 'a' + 'A') as char
    ensures Upper(s) == u
  {
  }

  /** Once the group is captured, the branch depends on it alone. */
  lemma ClassifyCaptured(src: string, t: string)
    requires StartsWith(src, InlinePrefix) && CaptureImageType(src) == Some(t)
    ensures Classify(Some(src)) ==
      if IsRasterType(t) then Raster(Upper(t)) else if t == "svg+xml" then Svg else OtherInline(t)
  {
  }

  // ---------------------------------------------------------------------
  // The capture group is the greedy one.
  // ---------------------------------------------------------------------

  /** The regular expression matches exactly when some index can end the
      group, and the group then ends at the largest such index. */
  lemma CaptureCharacterised(src: string)
    ensures CaptureImageType(src).Some? <==> exists k :: MatchEnd(src, k)
    ensures CaptureImageType(src).Some? ==>
      var t := CaptureImageType(src).value;
      var k := |CapturePrefix| + |t|;
      && MatchEnd(src, k)
      && src[|CapturePrefix|..k] == t
      && forall k' :: MatchEnd(src, k') ==> k' <= k
  {
    var n := |CapturePrefix|;
    if StartsWith(src, CapturePrefix) {
      var e := LineEnd(src, n);
      forall k | MatchEnd(src, k)
        ensures k < e
      {
      }
      if e > n {
        match LastSemicolon(src, n + 1, e)
        case None =>
          forall k | MatchEnd(src, k)
            ensures false
          {
          }
        case Some(k) =>
          assert MatchEnd(src, k);
      }
    }
  }

  /** No character of `t` is a line terminator. */
  predicate SingleLine(t: string) {
    '\n' !in t && '\r' !in t && '\U{2028}' !in t && '\U{2029}' !in t
  }

  /** When nothing after a ';' is another ';', the group is everything
      between `data:image/` and that ';' — however many ';' it holds. */
  lemma CaptureOfParts(t: string, rest: string)
    requires |t| >= 1 && SingleLine(t)
    requires ';' !in rest
    ensures CaptureImageType(CapturePrefix + t + ";" + rest) == Some(t)
  {
    var src := CapturePrefix + t + ";" + rest;
    var n := |CapturePrefix|;
    var k := n + |t|;
    assert src[..n] == CapturePrefix;
    assert src[n..k] == t;
    assert src[k] == ';';
    forall j | n <= j < k
      ensures !IsLineTerminator(src[j])
    {
      assert src[j] == t[j - n];
    }
    assert MatchEnd(src, k);
    CaptureCharacterised(src);
    var t' := CaptureImageType(src).value;
    var k' := n + |t'|;
    assert MatchEnd(src, k');
  }

  /** The greedy quirk in general: two ';' after the type name are both
      swallowed up to the last one. */
  lemma GreedyCapture(t1: string, t2: string, rest: string)
    requires |t1| >= 1 && SingleLine(t1) && SingleLine(t2)
    requires ';' !in rest
    ensures CaptureImageType(CapturePrefix + t1 + ";" + t2 + ";" + rest) == Some(t1 + ";" + t2)
  {
    var t := t1 + ";" + t2;
    assert SingleLine(t);
    assert CapturePrefix + t1 + ";" + t2 + ";" + rest == CapturePrefix + t + ";" + rest;
    CaptureOfParts(t, rest);
  }

  /** An inline source with no ';' at all is not matched. */
  lemma NoSemicolonIsUnmatched(src: string)
    requires StartsWith(src, InlinePrefix) && ';' !in src
    ensures Classify(Some(src)) == Unmatched
  {
    forall k | MatchEnd(src, k)
      ensures false
    {
    }
  }

  /** Everything that matches the capture prefix passes the inline test. */
  lemma CapturePrefixIsInline(rest: string)
    ensures StartsWith(CapturePrefix + rest, InlinePrefix)
  {
    assert (CapturePrefix + rest)[..|InlinePrefix|] == CapturePrefix[..|InlinePrefix|];
  }

  /** A one-line type name followed by ';' and a tail without ';' is an
      inline source whose group is that type name. */
  lemma PartsCaptured(t: string, rest: string)
    requires |t| >= 1 && SingleLine(t)
    requires ';' !in rest
    ensures StartsWith(CapturePrefix + t + ";" + rest, InlinePrefix)
    ensures CaptureImageType(CapturePrefix + t + ";" + rest) == Some(t)
  {
    CaptureOfParts(t, rest);
    CapturePrefixIsInline(t + ";" + rest);
    assert CapturePrefix + t + ";" + rest == CapturePrefix + (t + ";" + rest);
  }

  /** Such a source is classified by its type name. */
  lemma ClassifyOfParts(t: string, rest: string)
    requires |t| >= 1 && SingleLine(t)
    requires ';' !in rest
    ensures Classify(Some(CapturePrefix + t + ";" + rest)) ==
      if IsRasterType(t) then Raster(Upper(t)) else if t == "svg+xml" then Svg else OtherInline(t)
  {
    PartsCaptured(t, rest);
    ClassifyCaptured(CapturePrefix + t + ";" + rest, t);
  }

  /** An inline PNG is embedded directly, its format upper-cased. */
  lemma PngExample()
    ensures Classify(Some(CapturePrefix + "png" + ";" + "base64,iVBO")) == Raster("PNG")
  {
    ClassifyOfParts("png", "base64,iVBO");
    UpperOfRasterTypes();
  }

  /** An inline SVG goes through the canvas branch. */
  lemma SvgExample()
    ensures Classify(Some(CapturePrefix + "svg+xml" + ";" + "base64,PHN2")) == Svg
  {
    ClassifyOfParts("svg+xml", "base64,PHN2");
  }

  /** An inline GIF matches no case. */
  lemma GifExample()
    ensures Classify(Some(CapturePrefix + "gif" + ";" + "base64,R0lG")) == OtherInline("gif")
  {
    ClassifyOfParts("gif", "base64,R0lG");
  }

  /** A remote URL is not inline, so nothing is drawn. */
  lemma RemoteExample()
    ensures Classify(Some("https://example.com/a.png")) == NotInline
  {
    assert "https://example.com/a.png"[0] != InlinePrefix[0];
  }

  /** Greediness on a real source: an SVG URL that names its charset
      captures `svg+xml;charset=utf-8`, matches no case, and draws nothing. */
  lemma GreedyCharsetExample()
    ensures Classify(Some(CapturePrefix + "svg+xml;charset=utf-8" + ";" + "base64,PHN2"))
      == OtherInline("svg+xml;charset=utf-8")
  {
    var t := "svg+xml;charset=utf-8";
    assert SingleLine(t);
    assert !IsRasterType(t) && t != "svg+xml" by {
      assert |t| == 21;
    }
    ClassifyOfParts(t, "base64,PHN2");
  }

  /** A URL-encoded SVG carries no ';', so the source throws on it. */
  lemma UnmatchedExample()
    ensures Classify(Some("data:image/svg+xml,%3Csvg%3E")) == Unmatched
  {
    NoSemicolonIsUnmatched("data:image/svg+xml,%3Csvg%3E");
  }
}
