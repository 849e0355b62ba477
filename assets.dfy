/** The local names of downloaded assets: a stylesheet is saved as "Style"
    plus its zero-padded position in the stylesheet list, an image under the
    last '/' segment of its link. Pages and the manifest refer to the
    stylesheets by number too; the three numberings are set side by side
    here. */
module Assets {
  import opened Text
  import opened Links

  /** list.index(x): the position of the first entry equal to x. */
  function IndexOf<T(==)>(s: seq<T>, x: T): (r: nat)
    requires x in s
    ensures r < |s| && s[r] == x && x !in s[..r]
    ensures forall j :: 0 <= j < r ==> s[j] != x
  {
    if s[0] == x then 0
    else
      var k := IndexOf(s[1..], x);
      assert s[1..][..k] == s[1..k + 1];
      k + 1
  }

  predicate NoDups<T(==)>(s: seq<T>) {
    forall i, j :: 0 <= i < j < |s| ==> s[i] != s[j]
  }

  /** In a list without repeats, an entry's first position is its position. */
  lemma IndexOfNoDups<T>(s: seq<T>, k: nat)
    requires NoDups(s) && k < |s|
    ensures IndexOf(s, s[k]) == k
  {
  }

  /** "Style{0:0>2}.css".format(n) */
  function CssFileName(n: nat): string {
    "Style" + Pad2(n) + ".css"
  }

  /** Different numbers name different files. */
  lemma CssFileNameInjective(m: nat, n: nat)
    requires m != n
    ensures CssFileName(m) != CssFileName(n)
  {
    if CssFileName(m) == CssFileName(n) {
      Pad2Value(m);
      Pad2Value(n);
      assert CssFileName(m) == "Style" + (Pad2(m) + ".css");
      assert CssFileName(n) == "Style" + (Pad2(n) + ".css");
      PrefixCancel("Style", Pad2(m) + ".css", Pad2(n) + ".css");
      DigitRunPrefix(Pad2(m), ".css", Pad2(n), ".css");
      Pad2Injective(m, n);
      assert false;
    }
  }

  /** The file a stylesheet is saved under: its first position in the
      list, counted from 0. */
  function SavedCssName(css: seq<string>, url: string): string
    requires url in css
  {
    CssFileName(IndexOf(css, url))
  }

  /** The stylesheet files on disk once every entry of the list is saved. */
  function SavedCssNames(css: seq<string>): (r: seq<string>)
    ensures |r| == |css|
  {
    seq(|css|, k requires 0 <= k < |css| => SavedCssName(css, css[k]))
  }

  /** The stylesheet files the manifest lists for a listing of n files:
      numbers 1 to n. */
  function ManifestCssNames(n: nat): (r: seq<string>)
    ensures |r| == n
  {
    seq(n, k requires 0 <= k < n => CssFileName(k + 1))
  }

  /** The files of a duplicate-free list are numbered 0 to N-1. */
  lemma SavedCssNamesAt(css: seq<string>, k: nat)
    requires NoDups(css) && k < |css|
    ensures SavedCssNames(css)[k] == CssFileName(k)
  {
    IndexOfNoDups(css, k);
  }

  /** As written, the saved files and the manifest disagree at both ends:
      the manifest lists a file numbered N that was never saved, and the
      file numbered 0 is saved but not listed. */
  lemma StyleNumberingMismatch(css: seq<string>)
    requires |css| > 0 && NoDups(css)
    ensures CssFileName(|css|) in ManifestCssNames(|css|)
    ensures CssFileName(|css|) !in SavedCssNames(css)
    ensures CssFileName(0) in SavedCssNames(css)
    ensures CssFileName(0) !in ManifestCssNames(|css|)
  {
    var n := |css|;
    assert ManifestCssNames(n)[n - 1] == CssFileName(n);
    SavedCssNamesAt(css, 0);
    forall k | 0 <= k < n
      ensures SavedCssNames(css)[k] != CssFileName(n)
    {
      SavedCssNamesAt(css, k);
      CssFileNameInjective(k, n);
    }
    forall k | 0 <= k < n
      ensures ManifestCssNames(n)[k] != CssFileName(0)
    {
      CssFileNameInjective(k + 1, 0);
    }
  }

  /** A page with one stylesheet, the only one of the book, links to a file
      that is not the one its stylesheet was saved under. */
  lemma FirstPageLinkMismatch(u: string)
    ensures SavedCssName([u], u) == CssFileName(0)
    ensures CssFileName(1) != SavedCssName([u], u)
  {
    CssFileNameInjective(1, 0);
  }

  // ---------------------------------------------------------------------
  // The numbering the three places evidently mean to share: the manifest's,
  // from 1, used for the saved file and for every page link.

  function CorrectedSavedCssName(css: seq<string>, url: string): string
    requires url in css
  {
    CssFileName(IndexOf(css, url) + 1)
  }

  /** The files a page's stylesheet links refer to, one per stylesheet of
      the page, each by its position in the book's list. */
  function CorrectedPageCssNames(css: seq<string>, urls: seq<string>): (r: seq<string>)
    requires forall k :: 0 <= k < |urls| ==> urls[k] in css
    ensures |r| == |urls|
  {
    seq(|urls|, k requires 0 <= k < |urls| => CorrectedSavedCssName(css, urls[k]))
  }

  /** With the corrected numbering the saved files are exactly the files
      the manifest lists, in order, and every stylesheet link of every page
      names the file its stylesheet was saved under, which is listed. */
  lemma CorrectedStylesAgree(css: seq<string>, urls: seq<string>)
    requires NoDups(css)
    requires forall k :: 0 <= k < |urls| ==> urls[k] in css
    ensures seq(|css|, k requires 0 <= k < |css| => CorrectedSavedCssName(css, css[k])) ==
            ManifestCssNames(|css|)
    ensures forall k :: 0 <= k < |urls| ==>
      CorrectedPageCssNames(css, urls)[k] == CorrectedSavedCssName(css, urls[k]) &&
      CorrectedPageCssNames(css, urls)[k] in ManifestCssNames(|css|)
  {
    forall k | 0 <= k < |css|
      ensures CorrectedSavedCssName(css, css[k]) == ManifestCssNames(|css|)[k]
    {
      IndexOfNoDups(css, k);
    }
    forall k | 0 <= k < |urls|
      ensures CorrectedPageCssNames(css, urls)[k] in ManifestCssNames(|css|)
    {
      var i := IndexOf(css, urls[k]);
      assert ManifestCssNames(|css|)[i] == CssFileName(i + 1);
    }
  }

  // ---------------------------------------------------------------------
  // Images.

  /** A page refers to an image under the very name the image is saved
      under, and that name is a flat file name. */
  lemma PageImageRefIsSavedFile(link: string)
    requires link != [] && IsImageLink(link)
    ensures RewriteLink(link) == "Images/" + LastSegment(link)
    ensures '/' !in LastSegment(link)
  {
    LastSegmentSuffix(link);
  }
}
