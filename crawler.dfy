/** The downloader's state and the operations that update it: the progress
    display, the crawl over the chapter queue, the per-page bookkeeping of
    stylesheets and images, and the assembly of content.opf. */
module Crawler {
  import opened Text
  import opened Chapters
  import opened Links
  import opened Opf
  import opened Assets
  import opened Pages

  // ---------------------------------------------------------------------
  // Progress.

  /** int(done * 100 / origin) on non-negative counts. */
  function Progress(origin: nat, done: nat): nat
    requires origin > 0
  {
    done * 100 / origin
  }

  function Max(a: int, b: int): int {
    if a < b then b else a
  }

  lemma {:induction false} MulMono(x: int, y: int, o: nat)
    requires x <= y
    ensures x * o <= y * o
    decreases o
  {
    if o > 0 {
      MulMono(x, y, o - 1);
      assert x * o == x * (o - 1) + x && y * o == y * (o - 1) + y;
    }
  }

  /** The quotient is the q with q * o <= a < (q + 1) * o. */
  lemma DivBounds(a: nat, o: nat)
    requires o > 0
    ensures (a / o) * o <= a < (a / o + 1) * o
  {
    assert a == (a / o) * o + a % o;
  }

  lemma DivMono(a: nat, b: nat, o: nat)
    requires o > 0 && a <= b
    ensures a / o <= b / o
  {
    DivBounds(a, o);
    DivBounds(b, o);
    if a / o > b / o {
      MulMono(b / o + 1, a / o, o);
    }
  }

  /** More work done never shows less progress. */
  lemma ProgressMonotone(origin: nat, d1: nat, d2: nat)
    requires origin > 0 && d1 <= d2
    ensures Progress(origin, d1) <= Progress(origin, d2)
  {
    DivMono(d1 * 100, d2 * 100, origin);
  }

  /** Progress never exceeds 100, and it is 100 exactly when all the work is
      done. */
  lemma ProgressBounds(origin: nat, done: nat)
    requires origin > 0 && done <= origin
    ensures Progress(origin, done) <= 100
    ensures Progress(origin, done) == 100 <==> done == origin
  {
    var p := Progress(origin, done);
    DivBounds(done * 100, origin);
    if p > 100 {
      MulMono(101, p, origin);
    } else if done == origin && p < 100 {
      MulMono(p + 1, 100, origin);
    }
  }

  class Display {
    /** The highest percentage drawn so far. */
    var stateStatus: int
    /** Whether the notice about already downloaded pages is settled. */
    var bookAdInfo: bool

    /** A display for a run; the notice counts as settled when the book's
        content directory had to be created. */
    constructor (oebpsCreated: bool)
      ensures stateStatus == 0 && bookAdInfo == oebpsCreated
    {
      stateStatus := 0;
      bookAdInfo := oebpsCreated;
    }

    /** Redraw the bar only when the percentage has grown. */
    method State(origin: nat, done: nat) returns (redrawn: bool)
      requires origin > 0
      modifies this`stateStatus
      ensures redrawn == (old(stateStatus) < Progress(origin, done))
      ensures stateStatus == Max(old(stateStatus), Progress(origin, done))
    {
      var progress := done * 100 / origin;
      redrawn := stateStatus < progress;
      if redrawn {
        stateStatus := progress;
      }
    }
  }

  // ---------------------------------------------------------------------
  // The crawl.

  /** The file a chapter page is saved as. */
  function PageName(c: Chapter): string {
    ReplaceHtml(c.filename)
  }

  /** The page files of a run of chapters. */
  function PageNames(q: seq<Chapter>): set<string> {
    if q == [] then {} else PageNames(q[..|q| - 1]) + {PageName(Last(q))}
  }

  /** The chapters fetched, in order, when the queue q is crawled while the
      files `existing` are on disk: a chapter is fetched when its page file
      is absent, and a saved page counts as present for the rest of the
      queue. */
  function ToFetch(q: seq<Chapter>, existing: set<string>): (r: seq<Chapter>)
    ensures |r| <= |q|
  {
    if q == [] then []
    else
      var p := q[..|q| - 1];
      ToFetch(p, existing) +
      (if PageName(Last(q)) in existing + PageNames(p) then [] else [Last(q)])
  }

  lemma {:induction false} PageNamesHas(q: seq<Chapter>, k: nat)
    requires k < |q|
    ensures PageName(q[k]) in PageNames(q)
    decreases |q|
  {
    if k < |q| - 1 {
      var p := q[..|q| - 1];
      PageNamesHas(p, k);
      assert p[k] == q[k];
    }
  }

  /** The pages fetched are exactly the pages of the queue that were not on
      disk. */
  lemma {:induction false} ToFetchNames(q: seq<Chapter>, existing: set<string>)
    ensures PageNames(ToFetch(q, existing)) == PageNames(q) - existing
    decreases |q|
  {
    if q != [] {
      var p, c := q[..|q| - 1], Last(q);
      var t := ToFetch(p, existing);
      ToFetchNames(p, existing);
      if PageName(c) !in existing + PageNames(p) {
        var r := t + [c];
        assert r[..|r| - 1] == t;
      } else {
        assert ToFetch(q, existing) == t;
      }
    }
  }

  /** Every chapter fetched comes from the queue and its page was not on
      disk. */
  lemma {:induction false} ToFetchFresh(q: seq<Chapter>, existing: set<string>)
    ensures forall i :: 0 <= i < |ToFetch(q, existing)| ==>
      PageName(ToFetch(q, existing)[i]) !in existing && ToFetch(q, existing)[i] in q
    decreases |q|
  {
    if q != [] {
      var p, c := q[..|q| - 1], Last(q);
      ToFetchFresh(p, existing);
      assert q == p + [c];
    }
  }

  /** No page is fetched twice. */
  lemma {:induction false} ToFetchDistinct(q: seq<Chapter>, existing: set<string>)
    ensures forall i, j :: 0 <= i < j < |ToFetch(q, existing)| ==>
      PageName(ToFetch(q, existing)[i]) != PageName(ToFetch(q, existing)[j])
    decreases |q|
  {
    if q != [] {
      var p, c := q[..|q| - 1], Last(q);
      var t := ToFetch(p, existing);
      ToFetchDistinct(p, existing);
      if PageName(c) !in existing + PageNames(p) {
        ToFetchNames(p, existing);
        forall i | 0 <= i < |t|
          ensures PageName(t[i]) != PageName(c)
        {
          PageNamesHas(t, i);
        }
      }
    }
  }

  /** The pages fetched are exactly the pages not on disk at the start, each
      fetched once: no fetched page existed and no page is fetched twice;
      every fetched chapter comes from the queue. */
  lemma ToFetchSpec(q: seq<Chapter>, existing: set<string>)
    ensures PageNames(ToFetch(q, existing)) == PageNames(q) - existing
    ensures forall i :: 0 <= i < |ToFetch(q, existing)| ==>
      PageName(ToFetch(q, existing)[i]) !in existing && ToFetch(q, existing)[i] in q
    ensures forall i, j :: 0 <= i < j < |ToFetch(q, existing)| ==>
      PageName(ToFetch(q, existing)[i]) != PageName(ToFetch(q, existing)[j])
  {
    ToFetchNames(q, existing);
    ToFetchFresh(q, existing);
    ToFetchDistinct(q, existing);
  }

  lemma CrawlStep(done: seq<Chapter>, c: Chapter, existing: set<string>)
    ensures ToFetch(done + [c], existing) ==
      ToFetch(done, existing) + (if PageName(c) in existing + PageNames(done) then [] else [c])
    ensures PageNames(done + [c]) == PageNames(done) + {PageName(c)}
  {
    var p := done + [c];
    assert p[..|done|] == done && Last(p) == c;
  }

  /** Once every page of the queue is on disk, crawling it again fetches
      nothing. */
  lemma {:induction false} SecondRunFetchesNothing(q: seq<Chapter>, existing: set<string>)
    requires PageNames(q) <= existing
    ensures ToFetch(q, existing) == []
  {
    ToFetchSpec(q, existing);
  }

  // ---------------------------------------------------------------------
  // What the fetched pages add to the stylesheet and image lists.

  /** The service's side of a crawl: the content served for the page at
      each chapter file name (relative to the base URL), the book's base
      URL, and the URL resolver (`urljoin`). */
  datatype Site = Site(content: string -> PageContent, baseUrl: string, resolve: (string, string) -> string)

  /** The resolved stylesheet URLs of a chapter's page, in page order. */
  function PageStyles(c: Chapter, site: Site): seq<string> {
    ResolveAll(site.baseUrl, site.content(c.filename).stylesheets, site.resolve)
  }

  lemma AppendAssoc(a: seq<string>, b: seq<string>, c: seq<string>)
    ensures (a + b) + c == a + (b + c)
  {
  }

  /** The image references of a chapter's page, in page order, repeats
      kept. */
  function PageImages(c: Chapter, site: Site): seq<string> {
    ImageLinks(site.content(c.filename).links)
  }

  /** The stylesheet URLs met on the pages of cs, page after page, repeats
      kept. */
  function StylesMet(cs: seq<Chapter>, site: Site): seq<string> {
    if cs == [] then [] else StylesMet(cs[..|cs| - 1], site) + PageStyles(Last(cs), site)
  }

  /** The image references met on the pages of cs, page after page,
      repeats kept. */
  function ImagesMet(cs: seq<Chapter>, site: Site): seq<string> {
    if cs == [] then [] else ImagesMet(cs[..|cs| - 1], site) + PageImages(Last(cs), site)
  }

  lemma MetStep(cs: seq<Chapter>, c: Chapter, site: Site)
    ensures StylesMet(cs + [c], site) == StylesMet(cs, site) + PageStyles(c, site)
    ensures ImagesMet(cs + [c], site) == ImagesMet(cs, site) + PageImages(c, site)
  {
    assert (cs + [c])[..|cs|] == cs;
  }

  /** A URL is among the stylesheets met exactly when it is a stylesheet of
      one of the pages. */
  lemma {:induction false} StylesMetMembers(cs: seq<Chapter>, site: Site)
    ensures forall u :: u in StylesMet(cs, site) <==> exists i :: 0 <= i < |cs| && u in PageStyles(cs[i], site)
    decreases |cs|
  {
    if cs != [] {
      var p := cs[..|cs| - 1];
      StylesMetMembers(p, site);
      assert cs == p + [Last(cs)];
      forall u | u in StylesMet(cs, site)
        ensures exists i :: 0 <= i < |cs| && u in PageStyles(cs[i], site)
      {
        if u !in StylesMet(p, site) {
          assert u in PageStyles(cs[|cs| - 1], site);
        }
      }
    }
  }

  /** A link is among the images met exactly when it is an image reference
      of one of the pages. */
  lemma {:induction false} ImagesMetMembers(cs: seq<Chapter>, site: Site)
    ensures forall u :: u in ImagesMet(cs, site) <==>
      exists i :: 0 <= i < |cs| && u in site.content(cs[i].filename).links && IsImageLink(u)
    decreases |cs|
  {
    if cs != [] {
      var p, c := cs[..|cs| - 1], Last(cs);
      ImagesMetMembers(p, site);
      ImageLinksSpec(site.content(c.filename).links);
      assert cs == p + [c];
      forall u | u in ImagesMet(cs, site)
        ensures exists i :: 0 <= i < |cs| && u in site.content(cs[i].filename).links && IsImageLink(u)
      {
        if u !in ImagesMet(p, site) {
          assert u in site.content(cs[|cs| - 1].filename).links;
        }
      }
    }
  }

  /** Once every page of the queue is on disk, a second crawl adds no
      stylesheet and no image. */
  lemma SecondRunFindsNothing(q: seq<Chapter>, existing: set<string>, site: Site,
                              css: seq<string>, images: seq<string>)
    requires PageNames(q) <= existing
    ensures AddAll(css, StylesMet(ToFetch(q, existing), site)) == css
    ensures images + ImagesMet(ToFetch(q, existing), site) == images
  {
    SecondRunFetchesNothing(q, existing);
    assert images + [] == images;
  }

  /** The lists after the chapters `done` were visited, begun with css0 and
      img0 and the page files s0 on disk: the stylesheets of the fetched
      pages were added when new, and their image references appended. */
  ghost predicate Discoveries(s0: set<string>, css0: seq<string>, img0: seq<string>, site: Site,
                              done: seq<Chapter>, css: seq<string>, images: seq<string>)
  {
    css == AddAll(css0, StylesMet(ToFetch(done, s0), site)) &&
    images == img0 + ImagesMet(ToFetch(done, s0), site)
  }

  /** Visiting one more chapter grows the lists by its page exactly when
      the page is fetched. */
  lemma DiscoveriesStep(s0: set<string>, css0: seq<string>, img0: seq<string>, site: Site,
                        done: seq<Chapter>, css: seq<string>, images: seq<string>, c: Chapter)
    requires Discoveries(s0, css0, img0, site, done, css, images)
    ensures var fetch := PageName(c) !in s0 + PageNames(done);
      Discoveries(s0, css0, img0, site, done + [c],
                  if fetch then AddAll(css, PageStyles(c, site)) else css,
                  images + if fetch then PageImages(c, site) else [])
  {
    CrawlStep(done, c, s0);
    var t, t' := ToFetch(done, s0), ToFetch(done + [c], s0);
    if PageName(c) !in s0 + PageNames(done) {
      assert t' == t + [c];
      MetStep(t, c, site);
      AddAllAppend(css0, StylesMet(t, site), PageStyles(c, site));
      assert AddAll(css, PageStyles(c, site)) == AddAll(css0, StylesMet(t', site));
      AppendAssoc(img0, ImagesMet(t, site), PageImages(c, site));
    } else {
      assert t' == t + [] == t;
      assert images + [] == images;
    }
  }

  // ---------------------------------------------------------------------
  // The downloader.

  /** The account of a crawl of the queue q0 of a book of n chapters, begun
      with the page files s0 on disk, the log f0, the notice flag b0 and the
      percentage st0, once the chapters `done` are visited and `queue` is
      left: the log holds what ToFetch fetches, the files on disk gained the
      visited pages, the notice is settled once a visited page was already
      on disk, and the display shows the highest percentage reached. */
  ghost predicate Account(q0: seq<Chapter>, s0: set<string>, n: nat, f0: seq<Chapter>, b0: bool, st0: int,
                          done: seq<Chapter>, queue: seq<Chapter>, fetched: seq<Chapter>,
                          oebps: set<string>, adInfo: bool, status: int)
  {
    |q0| <= n && q0 == done + queue &&
    fetched == f0 + ToFetch(done, s0) &&
    oebps == s0 + PageNames(done) &&
    adInfo == (b0 || |ToFetch(done, s0)| < |done|) &&
    status == if done == [] then st0 else Max(st0, Progress(n, n - |queue|))
  }

  /** Visiting the head of the queue (fetch it when its page is absent,
      settle the notice when present, redraw) advances the account by that
      chapter. */
  lemma AccountStep(q0: seq<Chapter>, s0: set<string>, n: nat, f0: seq<Chapter>, b0: bool, st0: int,
                    done: seq<Chapter>, queue: seq<Chapter>, fetched: seq<Chapter>,
                    oebps: set<string>, adInfo: bool, status: int)
    requires Account(q0, s0, n, f0, b0, st0, done, queue, fetched, oebps, adInfo, status) && queue != []
    ensures n > 0
    ensures var c := queue[0];
      Account(q0, s0, n, f0, b0, st0, done + [c], queue[1..],
              fetched + (if PageName(c) in oebps then [] else [c]),
              oebps + {PageName(c)},
              adInfo || PageName(c) in oebps,
              Max(status, Progress(n, n - |queue[1..]|)))
  {
    var c, rest := queue[0], queue[1..];
    assert queue == [c] + rest;
    assert q0 == (done + [c]) + rest;
    var added := if PageName(c) in oebps then [] else [c];
    CrawlStep(done, c, s0);
    assert ToFetch(done + [c], s0) == ToFetch(done, s0) + added;
    assert fetched + added == f0 + ToFetch(done + [c], s0);
    assert oebps + {PageName(c)} == s0 + PageNames(done + [c]);
    StatusStep(st0, status, n, n - |queue|, done == []);
  }

  /** Redrawing after one more chapter leaves the highest percentage of the
      run so far. */
  lemma StatusStep(st0: int, status: int, n: nat, d: nat, first: bool)
    requires d < n
    requires status == if first then st0 else Max(st0, Progress(n, d))
    ensures Max(status, Progress(n, d + 1)) == Max(st0, Progress(n, d + 1))
  {
    if !first {
      ProgressMonotone(n, d, d + 1);
    }
  }

  /** Once the queue is empty every chapter of it was visited: the log
      gained exactly ToFetch of the queue, the files on disk gained all its
      pages, and the display reached 100 unless the queue was empty. */
  lemma AccountDone(q0: seq<Chapter>, s0: set<string>, n: nat, f0: seq<Chapter>, b0: bool, st0: int,
                    done: seq<Chapter>, fetched: seq<Chapter>, oebps: set<string>, adInfo: bool, status: int)
    requires Account(q0, s0, n, f0, b0, st0, done, [], fetched, oebps, adInfo, status)
    ensures done == q0
    ensures fetched == f0 + ToFetch(q0, s0) && oebps == s0 + PageNames(q0)
    ensures adInfo == (b0 || |ToFetch(q0, s0)| < |q0|)
    ensures status == if q0 == [] then st0 else Max(st0, 100)
  {
    assert q0 == done + [];
    if q0 != [] {
      ProgressBounds(n, n);
    }
  }

  /** The manifest items of the image listing, in listing order, and the
      id of the first image as the fallback cover. */
  method ImageManifest(images: seq<string>) returns (lines: seq<string>, altCoverId: Option<string>)
    ensures lines == ImageLines(images)
    ensures altCoverId == if images == [] then None else Some(ImageId(images[0]))
  {
    lines := [];
    altCoverId := None;
    for i := 0 to |images|
      invariant |lines| == i && forall k :: 0 <= k < i ==> lines[k] == ImageItem(images[k])
      invariant i == 0 ==> altCoverId == None
      invariant i > 0 ==> altCoverId == Some(ImageId(images[0]))
    {
      var head := ImageId(images[i]);
      lines := lines + [ImageItem(images[i])];
      if altCoverId.None? {
        altCoverId := Some(head);
      }
    }
  }

  /** The manifest items of n stylesheets, numbered from 1. */
  method StyleManifest(n: nat) returns (lines: seq<string>)
    ensures lines == StyleLines(n)
  {
    lines := [];
    for i := 0 to n
      invariant |lines| == i && forall k :: 0 <= k < i ==> lines[k] == StyleItem(k + 1)
    {
      lines := lines + [StyleItem(i + 1)];
    }
  }

  class SafariBooks {
    var bookChapters: seq<Chapter>
    var chaptersQueue: seq<Chapter>
    var css: seq<string>
    var images: seq<string>
    var cover: string
    /** The files in the book's content directory. */
    var oebps: set<string>
    /** The chapters whose pages were fetched, parsed and saved, in order. */
    var fetched: seq<Chapter>
    const display: Display

    /** The queue is what is left of the chapter list. */
    predicate Valid()
      reads this
    {
      |chaptersQueue| <= |bookChapters| &&
      chaptersQueue == bookChapters[|bookChapters| - |chaptersQueue|..]
    }

    constructor (chapters: seq<Chapter>, existing: set<string>, d: Display)
      ensures Valid()
      ensures bookChapters == chapters && chaptersQueue == chapters
      ensures css == [] && images == [] && cover == ""
      ensures oebps == existing && fetched == [] && display == d
    {
      bookChapters := chapters;
      chaptersQueue := chapters;
      css := [];
      images := [];
      cover := "";
      oebps := existing;
      fetched := [];
      display := d;
    }

    /** The link rewriter applied to every reference of a page. */
    method LinkReplace(link: string) returns (r: string)
      requires link != []
      modifies this`images
      ensures r == RewriteLink(link)
      ensures images == old(images) + (if IsImageLink(link) then [link] else [])
    {
      if link[0] == '/' && (Contains(link, "cover") || Contains(link, "images") ||
                            Contains(link, "graphics") || Suffix3(link) in ["jpg", "jpeg", "png"]) {
        images := images + [link];
        r := "Images/" + LastSegment(link);
      } else if link[0] != '/' && link[0] != 'h' {
        r := ReplaceHtml(link);
      } else {
        r := link;
      }
    }

    /** The rewriting pass over the references of one page, in document
        order. */
    method RewriteLinks(links: seq<string>) returns (out: seq<string>)
      requires forall k :: 0 <= k < |links| ==> links[k] != []
      modifies this`images
      ensures |out| == |links| && forall k :: 0 <= k < |links| ==> out[k] == RewriteLink(links[k])
      ensures images == old(images) + ImageLinks(links)
    {
      out := [];
      for i := 0 to |links|
        invariant |out| == i && forall k :: 0 <= k < i ==> out[k] == RewriteLink(links[k])
        invariant images == old(images) + ImageLinks(links[..i])
      {
        ImageLinksSnoc(links, i);
        var r := LinkReplace(links[i]);
        out := out + [r];
      }
      assert links[..|links|] == links;
    }

    /** The stylesheet part of parsing a page: each stylesheet link is
        resolved and added to the book's list when new, and the page gets a
        link element per stylesheet, numbered by its position on the page. */
    method ParseStylesheets(hrefs: seq<string>, base: string, resolve: (string, string) -> string)
      returns (pageCss: string)
      modifies this`css
      ensures css == AddAll(old(css), ResolveAll(base, hrefs, resolve))
      ensures pageCss == StyleLinks(|hrefs|)
    {
      pageCss := "";
      var count := 0;
      for i := 0 to |hrefs|
        invariant count == i
        invariant css == AddAll(old(css), ResolveAll(base, hrefs[..i], resolve))
        invariant pageCss == StyleLinks(count)
      {
        var cssUrl := ResolveHref(base, hrefs[i], resolve);
        ResolveAllSnoc(base, hrefs, i, resolve);
        AddAllSnoc(old(css), ResolveAll(base, hrefs[..i], resolve), cssUrl);
        if cssUrl !in css {
          css := css + [cssUrl];
        }
        count := count + 1;
        pageCss := pageCss + StyleLinkLine(count) + "\n";
        assert pageCss == StyleLinks(count);
      }
      assert hrefs[..|hrefs|] == hrefs;
    }

    /** Parse a fetched page: the stylesheet part gives the page's link
        block, and the content comes back with every reference rewritten. */
    method ParseHtml(page: PageContent, baseUrl: string, resolve: (string, string) -> string)
      returns (pageCss: string, xhtml: seq<string>)
      modifies this`css, this`images
      ensures css == AddAll(old(css), ResolveAll(baseUrl, page.stylesheets, resolve))
      ensures images == old(images) + ImageLinks(page.links)
      ensures pageCss == StyleLinks(|page.stylesheets|)
      ensures |xhtml| == |page.links| && forall k :: 0 <= k < |xhtml| ==> xhtml[k] == RewriteLink(page.links[k])
    {
      pageCss := ParseStylesheets(page.stylesheets, baseUrl, resolve);
      xhtml := RewriteLinks(page.links);
    }

    /** One visit: take the next chapter off the queue; if its page file
        exists, settle the notice about existing files, otherwise fetch the
        page from the site, parse it (its stylesheets join `css` when new,
        its image references are appended to `images`) and save it; then
        redraw the progress. */
    method Visit(site: Site)
      requires Valid() && chaptersQueue != []
      modifies this, display
      ensures Valid() && chaptersQueue == old(chaptersQueue)[1..]
      ensures bookChapters == old(bookChapters) && cover == old(cover)
      ensures var c := old(chaptersQueue)[0];
        var fetch := PageName(c) !in old(oebps);
        css == (if fetch then AddAll(old(css), PageStyles(c, site)) else old(css)) &&
        images == old(images) + (if fetch then PageImages(c, site) else [])
      ensures var c := old(chaptersQueue)[0];
        fetched == old(fetched) + (if PageName(c) in old(oebps) then [] else [c]) &&
        oebps == old(oebps) + {PageName(c)} &&
        display.bookAdInfo == (old(display.bookAdInfo) || PageName(c) in old(oebps))
      ensures display.stateStatus ==
        Max(old(display.stateStatus), Progress(|bookChapters|, |bookChapters| - |chaptersQueue|))
    {
      var next := chaptersQueue[0];
      assert next in bookChapters;
      chaptersQueue := chaptersQueue[1..];
      var name := ReplaceHtml(next.filename);
      if name in oebps {
        if !display.bookAdInfo && next !in bookChapters[..IndexOf(bookChapters, next)] {
          display.bookAdInfo := true;
        }
      } else {
        var pageCss, xhtml := ParseHtml(site.content(next.filename), site.baseUrl, site.resolve);
        fetched := fetched + [next];
        oebps := oebps + {name};
      }
      var _ := display.State(|bookChapters|, |bookChapters| - |chaptersQueue|);
    }

    /** The crawl of the queue q0 of a book of n chapters, begun with the
        page files s0 on disk, the log f0, the notice flag b0, the
        percentage st0 and the lists css0 and img0, has visited the chapters
        `done` of the site. */
    ghost predicate Crawled(q0: seq<Chapter>, s0: set<string>, n: nat, f0: seq<Chapter>, b0: bool, st0: int,
                            css0: seq<string>, img0: seq<string>, site: Site, done: seq<Chapter>)
      reads this, display
    {
      Valid() && n == |bookChapters| &&
      Account(q0, s0, n, f0, b0, st0, done, chaptersQueue, fetched, oebps,
              display.bookAdInfo, display.stateStatus) &&
      Discoveries(s0, css0, img0, site, done, css, images)
    }

    /** One visit keeps the crawl's account: the visited chapter joins
        `done`. */
    method Step(ghost q0: seq<Chapter>, ghost s0: set<string>, ghost n: nat, ghost f0: seq<Chapter>,
                ghost b0: bool, ghost st0: int, ghost css0: seq<string>, ghost img0: seq<string>,
                site: Site, ghost done: seq<Chapter>)
      requires Crawled(q0, s0, n, f0, b0, st0, css0, img0, site, done) && chaptersQueue != []
      modifies this, display
      ensures Crawled(q0, s0, n, f0, b0, st0, css0, img0, site, done + [old(chaptersQueue)[0]])
      ensures |chaptersQueue| < |old(chaptersQueue)|
      ensures bookChapters == old(bookChapters) && cover == old(cover)
    {
      AccountStep(q0, s0, n, f0, b0, st0, done, chaptersQueue, fetched, oebps,
                  display.bookAdInfo, display.stateStatus);
      DiscoveriesStep(s0, css0, img0, site, done, css, images, chaptersQueue[0]);
      Visit(site);
    }

    /** Crawl the chapter queue in order, one visit per chapter, until it is
        empty. */
    method Get(site: Site)
      requires Valid()
      modifies this, display
      ensures Valid() && chaptersQueue == []
      ensures bookChapters == old(bookChapters) && cover == old(cover)
      ensures css == AddAll(old(css), StylesMet(ToFetch(old(chaptersQueue), old(oebps)), site))
      ensures images == old(images) + ImagesMet(ToFetch(old(chaptersQueue), old(oebps)), site)
      ensures fetched == old(fetched) + ToFetch(old(chaptersQueue), old(oebps))
      ensures oebps == old(oebps) + PageNames(old(chaptersQueue))
      ensures display.bookAdInfo ==
        (old(display.bookAdInfo) || |ToFetch(old(chaptersQueue), old(oebps))| < |old(chaptersQueue)|)
      ensures display.stateStatus ==
        if old(chaptersQueue) == [] then old(display.stateStatus) else Max(old(display.stateStatus), 100)
    {
      ghost var q0, s0, n := chaptersQueue, oebps, |bookChapters|;
      ghost var f0, b0, st0 := fetched, display.bookAdInfo, display.stateStatus;
      ghost var css0, img0 := css, images;
      ghost var done: seq<Chapter> := [];
      assert q0 == done + chaptersQueue;
      assert img0 + [] == img0;
      while chaptersQueue != []
        invariant Crawled(q0, s0, n, f0, b0, st0, css0, img0, site, done)
        invariant bookChapters == old(bookChapters) && cover == old(cover)
        decreases |chaptersQueue|
      {
        ghost var c := chaptersQueue[0];
        Step(q0, s0, n, f0, b0, st0, css0, img0, site, done);
        done := done + [c];
      }
      AccountDone(q0, s0, n, f0, b0, st0, done, fetched, oebps, display.bookAdInfo, display.stateStatus);
    }

    /** Rename every chapter to its ".xhtml" page in place and give its
        manifest item and spine itemref, in chapter order. */
    method RenameChapters() returns (manifest: seq<string>, spine: seq<string>)
      modifies this`bookChapters
      ensures bookChapters == Renamed(old(bookChapters))
      ensures manifest == ChapterLines(Filenames(bookChapters))
      ensures spine == SpineLines(Filenames(bookChapters))
    {
      manifest := [];
      spine := [];
      for i := 0 to |bookChapters|
        invariant |bookChapters| == |old(bookChapters)|
        invariant forall k :: 0 <= k < i ==> bookChapters[k] == Renamed(old(bookChapters))[k]
        invariant forall k :: i <= k < |bookChapters| ==> bookChapters[k] == old(bookChapters)[k]
        invariant |manifest| == i && forall k :: 0 <= k < i ==> manifest[k] == ChapterItem(bookChapters[k].filename)
        invariant |spine| == i && forall k :: 0 <= k < i ==> spine[k] == SpineItem(bookChapters[k].filename)
      {
        var f := ReplaceHtml(bookChapters[i].filename);
        bookChapters := bookChapters[i := bookChapters[i].(filename := f)];
        manifest := manifest + [ChapterItem(f)];
        spine := spine + [SpineItem(f)];
      }
    }

    /** Everything content.opf is filled with besides the book record: take
        the cover from the first image link met, store the listings of the
        Styles and Images directories, rename every chapter to its ".xhtml"
        page in place, list chapters, images and stylesheets in the
        manifest and chapters in the spine, and choose the cover meta and
        the guide target. */
    method PackageParts(cssListing: seq<string>, imageListing: seq<string>)
      returns (coverMeta: string, manifest: seq<string>, spine: seq<string>, guide: string)
      requires |bookChapters| > 0
      modifies this
      ensures bookChapters == Renamed(old(bookChapters))
      ensures cover == (if old(images) != [] then old(images)[0] else "")
      ensures css == cssListing && images == imageListing
      ensures chaptersQueue == old(chaptersQueue) && oebps == old(oebps) && fetched == old(fetched)
      ensures coverMeta == CoverMeta(cover, imageListing)
      ensures manifest == ManifestLines(Filenames(bookChapters), imageListing, |cssListing|)
      ensures spine == SpineLines(Filenames(bookChapters))
      ensures guide == bookChapters[0].filename
    {
      cover := if |images| > 0 then images[0] else "";
      css := cssListing;
      images := imageListing;

      manifest, spine := RenameChapters();
      var imageLines, altCoverId := ImageManifest(images);
      var styleLines := StyleManifest(|css|);
      manifest := manifest + imageLines + styleLines;

      coverMeta := if cover != "" then cover
                   else if altCoverId.Some? then altCoverId.value else "False";
      GuideIsFirstChapter(old(bookChapters), images, |css|);
      guide := ReplaceHtml(bookChapters[0].filename);
    }

    /** content.opf of the downloaded book. */
    method CreateContentOpf(cssListing: seq<string>, imageListing: seq<string>,
                            info: BookInfo, bookId: string, title: string) returns (text: string)
      requires |bookChapters| > 0
      modifies this
      ensures bookChapters == Renamed(old(bookChapters))
      ensures cover == (if old(images) != [] then old(images)[0] else "")
      ensures css == cssListing && images == imageListing
      ensures chaptersQueue == old(chaptersQueue) && oebps == old(oebps) && fetched == old(fetched)
      ensures text == ContentOpf(info, bookId, title, CoverMeta(cover, imageListing),
                                 ManifestLines(Filenames(bookChapters), imageListing, |cssListing|),
                                 SpineLines(Filenames(bookChapters)), bookChapters[0].filename)
    {
      var coverMeta, manifest, spine, guide := PackageParts(cssListing, imageListing);
      text := ContentOpf(info, bookId, title, coverMeta, manifest, spine, guide);
    }
  }
}
