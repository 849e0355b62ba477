/** Classification and rewriting of the references found inside a chapter's
    content: image references become "Images/<name>", relative page
    references get the ".xhtml" extension, everything else is kept. */
module Links {
  import opened Text

  /** link[-3:]: the last three characters, or all of a shorter link. Since
      it never has more than three characters it can never equal "jpeg". */
  function Suffix3(link: string): (r: string)
    ensures |r| <= 3 && r != "jpeg"
  {
    if |link| >= 3 then link[|link| - 3..] else link
  }

  /** A root-relative reference that mentions cover, images or graphics, or
      whose last three characters are an image extension. */
  predicate IsImageLink(link: string)
    requires link != []
  {
    link[0] == '/' &&
    (Contains(link, "cover") || Contains(link, "images") || Contains(link, "graphics") ||
     Suffix3(link) in ["jpg", "jpeg", "png"])
  }

  /** link.split("/")[-1] */
  function LastSegment(link: string): string {
    Last(Split(link, '/'))
  }

  /** The last segment holds no '/', ends the link, and is either the whole
      link or preceded by a '/'. */
  lemma LastSegmentSuffix(link: string)
    ensures var seg := LastSegment(link);
      '/' !in seg && |seg| <= |link| && link[|link| - |seg|..] == seg &&
      (|seg| < |link| ==> link[|link| - |seg| - 1] == '/')
  {
    var parts := Split(link, '/');
    JoinSplit(link, '/');
    SplitPiecesFree(link, '/');
    assert '/' !in Last(parts);
    if |parts| >= 2 {
      JoinLast("/", parts);
    } else {
      assert parts == [parts[0]];
    }
  }

  /** The value the reference is rewritten to. */
  function RewriteLink(link: string): string
    requires link != []
  {
    if IsImageLink(link) then "Images/" + LastSegment(link)
    else if link[0] != '/' && link[0] != 'h' then ReplaceHtml(link)
    else link
  }

  /** The three-way classification: an image reference becomes a flat name
      under "Images/"; a relative page reference keeps no ".html"; anything
      else, in particular every link that starts with 'h', is untouched. */
  lemma RewriteLinkClasses(link: string)
    requires link != []
    ensures IsImageLink(link) ==>
      StartsWith(RewriteLink(link), "Images/") && '/' !in RewriteLink(link)[7..] &&
      RewriteLink(link)[7..] == LastSegment(link)
    ensures !IsImageLink(link) && link[0] != '/' && link[0] != 'h' ==>
      RewriteLink(link) == ReplaceHtml(link) && NoHtml(RewriteLink(link))
    ensures link[0] == 'h' || (link[0] == '/' && !IsImageLink(link)) ==>
      RewriteLink(link) == link
  {
    LastSegmentSuffix(link);
    ReplaceHtmlLeavesNoHtml(link);
    var r := RewriteLink(link);
    if IsImageLink(link) {
      assert r[..7] == "Images/";
    }
  }

  /** Rewriting a page reference twice changes nothing more. */
  lemma RewritePageLinkStable(link: string)
    requires link != [] && link[0] != '/' && link[0] != 'h'
    ensures RewriteLink(link) != [] && RewriteLink(RewriteLink(link)) == RewriteLink(link)
  {
    ReplaceHtmlIdempotent(link);
    ReplaceHtmlFirst(link);
  }
}
