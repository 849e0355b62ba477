/** What processing one chapter page does to the downloader's lists: its
    stylesheet links are resolved and added to the book's stylesheet list
    if new, the page gets one numbered link element per stylesheet, and its
    image references are collected as they are rewritten. */
module Pages {
  import opened Text
  import opened Links
  import opened Assets

  /** A reference inside a page's content. `link_replace` reads its first
      character, so a reference is never empty. */
  type Link = s: string | s != [] witness "#"

  /** A chapter page as the parser sees it: the hrefs of its stylesheet
      `<link>` elements and the references inside its content, both in
      document order. */
  datatype PageContent = PageContent(stylesheets: seq<string>, links: seq<Link>)

  // ---------------------------------------------------------------------
  // Stylesheets.

  /** A protocol-relative href ("//host/...") is resolved against "https:";
      any other href against the page's base URL by the given resolver. */
  function ResolveHref(base: string, href: string, resolve: (string, string) -> string): (r: string)
    ensures StartsWith(href, "//") ==> r == "https:" + href
  {
    if |href| >= 2 && href[..2] == "//" then "https:" + href else resolve(base, href)
  }

  function ResolveAll(base: string, hrefs: seq<string>, resolve: (string, string) -> string): (r: seq<string>)
    ensures |r| == |hrefs|
  {
    seq(|hrefs|, k requires 0 <= k < |hrefs| => ResolveHref(base, hrefs[k], resolve))
  }

  /** The list after appending, in order, each of ys that it does not hold
      yet. */
  function AddAll(xs: seq<string>, ys: seq<string>): seq<string>
    decreases |ys|
  {
    if ys == [] then xs
    else
      var r := AddAll(xs, ys[..|ys| - 1]);
      if Last(ys) in r then r else r + [Last(ys)]
  }

  lemma ResolveAllSnoc(base: string, hrefs: seq<string>, i: nat, resolve: (string, string) -> string)
    requires i < |hrefs|
    ensures ResolveAll(base, hrefs[..i + 1], resolve) ==
      ResolveAll(base, hrefs[..i], resolve) + [ResolveHref(base, hrefs[i], resolve)]
  {
  }

  lemma AddAllSnoc(xs: seq<string>, ys: seq<string>, y: string)
    ensures AddAll(xs, ys + [y]) ==
      if y in AddAll(xs, ys) then AddAll(xs, ys) else AddAll(xs, ys) + [y]
  {
    assert (ys + [y])[..|ys|] == ys;
  }

  /** Adding two runs one after the other is adding their concatenation. */
  lemma {:induction false} AddAllAppend(xs: seq<string>, ys: seq<string>, zs: seq<string>)
    ensures AddAll(xs, ys + zs) == AddAll(AddAll(xs, ys), zs)
    decreases |zs|
  {
    if zs == [] {
      assert ys + zs == ys;
    } else {
      var p := zs[..|zs| - 1];
      AddAllAppend(xs, ys, p);
      assert (ys + zs)[..|ys + zs| - 1] == ys + p;
      assert Last(ys + zs) == Last(zs);
    }
  }

  /** The old list stays a prefix, the result holds exactly the old entries
      and the new ones, and no entry is added twice. */
  lemma {:induction false} AddAllSpec(xs: seq<string>, ys: seq<string>)
    ensures |xs| <= |AddAll(xs, ys)| && AddAll(xs, ys)[..|xs|] == xs
    ensures forall x :: x in AddAll(xs, ys) <==> x in xs || x in ys
    ensures NoDups(xs) ==> NoDups(AddAll(xs, ys))
    decreases |ys|
  {
    if ys != [] {
      var p := ys[..|ys| - 1];
      AddAllSpec(xs, p);
      assert ys == p + [Last(ys)];
    }
  }

  lemma IndexOfSnocEarlier(p: seq<string>, y: string, x: string)
    requires x in p
    ensures IndexOf(p + [y], x) == IndexOf(p, x)
  {
    var i, j := IndexOf(p + [y], x), IndexOf(p, x);
    assert (p + [y])[j] == x;
    assert i < |p| ==> p[i] == x;
  }

  lemma IndexOfSnocLast(p: seq<string>, y: string)
    requires y !in p
    ensures IndexOf(p + [y], y) == |p|
  {
    assert (p + [y])[|p|] == y;
    assert forall k :: 0 <= k < |p| ==> (p + [y])[k] == p[k];
  }

  /** The added entries come in the order in which they are first met. */
  lemma {:induction false} AddAllOrder(xs: seq<string>, ys: seq<string>)
    ensures var r := AddAll(xs, ys);
      forall i :: |xs| <= i < |r| ==> r[i] in ys && r[i] !in xs
    ensures var r := AddAll(xs, ys);
      forall i, j :: |xs| <= i < j < |r| ==> IndexOf(ys, r[i]) < IndexOf(ys, r[j])
    decreases |ys|
  {
    if ys != [] {
      var p, y := ys[..|ys| - 1], Last(ys);
      assert ys == p + [y];
      AddAllSpec(xs, p);
      AddAllOrder(xs, p);
      var r0 := AddAll(xs, p);
      forall i | |xs| <= i < |r0|
        ensures IndexOf(ys, r0[i]) == IndexOf(p, r0[i])
      {
        IndexOfSnocEarlier(p, y, r0[i]);
      }
      if y !in r0 {
        IndexOfSnocLast(p, y);
        forall i | |xs| <= i < |r0|
          ensures IndexOf(ys, r0[i]) < |p|
        {
        }
      }
    }
  }

  /** The element that links the page's n-th stylesheet, n counted from 1. */
  function StyleLinkLine(n: nat): string {
    "<link href=\"Styles/" + CssFileName(n) + "\" rel=\"stylesheet\" type=\"text/css\" />"
  }

  /** The link block of a page with n stylesheets. */
  function StyleLinks(n: nat): string {
    if n == 0 then "" else StyleLinks(n - 1) + StyleLinkLine(n) + "\n"
  }

  lemma NotInConcat(c: char, a: string, b: string, d: string)
    requires c !in a && c !in b && c !in d
    ensures c !in a + b + d
  {
  }

  lemma CssFileNameOneLine(n: nat)
    ensures '\n' !in CssFileName(n)
  {
    Pad2Value(n);
    assert forall k :: 0 <= k < |Pad2(n)| ==> Pad2(n)[k] != '\n';
    NotInConcat('\n', "Style", Pad2(n), ".css");
  }

  lemma StyleLinkLineOneLine(n: nat)
    ensures '\n' !in StyleLinkLine(n)
  {
    CssFileNameOneLine(n);
    NotInConcat('\n', "<link href=\"Styles/", CssFileName(n), "\" rel=\"stylesheet\" type=\"text/css\" />");
  }

  /** The link elements of a page with n stylesheets, one per stylesheet,
      the k-th (from 0) numbered k + 1. */
  function StyleLinkLines(n: nat): (r: seq<string>)
    ensures |r| == n
  {
    seq(n, k requires 0 <= k < n => StyleLinkLine(k + 1))
  }

  lemma {:induction false} StyleLinksAreLines(n: nat)
    ensures StyleLinks(n) == Lines(StyleLinkLines(n))
  {
    if n > 0 {
      StyleLinksAreLines(n - 1);
      var ls := StyleLinkLines(n);
      assert ls[..n - 1] == StyleLinkLines(n - 1);
      assert Last(ls) == StyleLinkLine(n);
    }
  }

  /** The block holds exactly one line per stylesheet of the page, the k-th
      linking "Styles/Style" and k padded to two digits, each ended by a
      newline. */
  lemma StyleLinksLines(n: nat)
    ensures Split(StyleLinks(n), '\n') == StyleLinkLines(n) + [""]
  {
    StyleLinksAreLines(n);
    forall k | 0 <= k < n
      ensures '\n' !in StyleLinkLines(n)[k]
    {
      StyleLinkLineOneLine(k + 1);
    }
    SplitLines(StyleLinkLines(n));
  }

  // ---------------------------------------------------------------------
  // Image references met while a page's links are rewritten.

  /** The image references among the links, in order, repeats kept. */
  function ImageLinks(links: seq<string>): seq<string>
    requires forall k :: 0 <= k < |links| ==> links[k] != []
    decreases |links|
  {
    if links == [] then []
    else
      var p := links[..|links| - 1];
      ImageLinks(p) + (if IsImageLink(Last(links)) then [Last(links)] else [])
  }

  lemma ImageLinksSnoc(links: seq<string>, i: nat)
    requires forall k :: 0 <= k < |links| ==> links[k] != []
    requires i < |links|
    ensures ImageLinks(links[..i + 1]) ==
      ImageLinks(links[..i]) + (if IsImageLink(links[i]) then [links[i]] else [])
  {
    var p := links[..i + 1];
    assert p[..i] == links[..i];
  }

  /** Exactly the image references are collected, no more than there are
      links. */
  lemma {:induction false} ImageLinksSpec(links: seq<string>)
    requires forall k :: 0 <= k < |links| ==> links[k] != []
    ensures |ImageLinks(links)| <= |links|
    ensures forall x :: x in ImageLinks(links) <==> x in links && IsImageLink(x)
    decreases |links|
  {
    if links != [] {
      var p := links[..|links| - 1];
      ImageLinksSpec(p);
      assert links == p + [Last(links)];
    }
  }

  /** Each image reference is collected as often as it occurs among the
      links: repeats are kept, nothing is deduplicated. */
  lemma {:induction false} ImageLinksCount(links: seq<string>)
    requires forall k :: 0 <= k < |links| ==> links[k] != []
    ensures forall x ::
      multiset(ImageLinks(links))[x] == (if x in links && IsImageLink(x) then multiset(links)[x] else 0)
    decreases |links|
  {
    if links != [] {
      var p := links[..|links| - 1];
      ImageLinksCount(p);
      assert links == p + [Last(links)];
      assert multiset(links) == multiset(p) + multiset{Last(links)};
    }
  }
}
