/** The chapter list of a book: the paginated chapter endpoint is read page
    by page, each page's cover entries are moved to the front of that page,
    and the pages are concatenated in order. */
module Chapters {
  import opened Text

  /** The fields of a chapter record that the downloader reads. */
  datatype Chapter = Chapter(title: string, filename: string)

  /** One response of the chapter endpoint, as decoded from JSON. */
  datatype Page =
    | NoResponse
      // the request itself failed
    | NotDict
      // the JSON body is not an object
    | Dict(keyCount: nat, results: Option<seq<Chapter>>, next: bool)
      // an object: how many keys it has, its "results" list if present, and
      // whether its "next" field is truthy

  datatype ApiError =
    | Unreachable   // "API: unable to retrieve book chapters." after a failed request
    | ApiRefused    // the body is the service's error or authentication payload
    | NoChapters    // "results" is missing or empty

  /** A body that is not an object, or an object with exactly one key, is the
      service's error payload rather than data. */
  predicate IsErrorPayload(p: Page) {
    p.NotDict? || (p.Dict? && p.keyCount == 1)
  }

  /** A page the downloader accepts as data. */
  predicate ValidPage(p: Page) {
    p.Dict? && p.keyCount != 1 && p.results.Some? && |p.results.value| > 0
  }

  /** `"cover." in c["filename"]` */
  predicate IsCover(c: Chapter) {
    Contains(c.filename, "cover.")
  }

  /** The cover entries of a page, in page order. */
  function Covers(rs: seq<Chapter>): (r: seq<Chapter>)
    ensures forall k :: 0 <= k < |r| ==> IsCover(r[k])
    ensures |r| <= |rs|
  {
    if rs == [] then []
    else if IsCover(rs[0]) then [rs[0]] + Covers(rs[1..])
    else Covers(rs[1..])
  }

  /** The other entries of a page, in page order. */
  function Others(rs: seq<Chapter>): (r: seq<Chapter>)
    ensures forall k :: 0 <= k < |r| ==> !IsCover(r[k])
    ensures |r| <= |rs|
  {
    if rs == [] then []
    else if IsCover(rs[0]) then Others(rs[1..])
    else [rs[0]] + Others(rs[1..])
  }

  /** The page's entries with its covers moved to the front. */
  function CoversFirst(rs: seq<Chapter>): seq<Chapter> {
    Covers(rs) + Others(rs)
  }

  /** Moving the covers to the front neither loses nor adds an entry. */
  lemma {:induction false} CoversFirstPermutation(rs: seq<Chapter>)
    ensures multiset(CoversFirst(rs)) == multiset(rs)
    ensures |CoversFirst(rs)| == |rs|
  {
    if rs != [] {
      CoversFirstPermutation(rs[1..]);
      assert rs == [rs[0]] + rs[1..];
    }
  }

  // ---------------------------------------------------------------------
  // The source builds the reordered page with a removal loop: it copies the
  // cover entries out, then deletes each of them from the page by the
  // position of its first equal entry.

  /** `del s[s.index(x)]`: drop the first entry equal to x. */
  function RemoveFirst(s: seq<Chapter>, x: Chapter): (r: seq<Chapter>)
    requires x in s
    ensures |r| == |s| - 1
  {
    if s[0] == x then s[1..] else [s[0]] + RemoveFirst(s[1..], x)
  }

  /** The page with its first k cover entries dropped. */
  function DropCovers(s: seq<Chapter>, k: nat): seq<Chapter> {
    if s == [] then []
    else if IsCover(s[0]) && k > 0 then DropCovers(s[1..], k - 1)
    else [s[0]] + DropCovers(s[1..], k)
  }

  lemma {:induction false} DropNoCovers(s: seq<Chapter>)
    ensures DropCovers(s, 0) == s
  {
    if s != [] {
      DropNoCovers(s[1..]);
      assert s == [s[0]] + s[1..];
    }
  }

  /** Removing the k-th cover entry from the page that has lost its first k
      covers drops the (k+1)-th cover. */
  lemma {:induction false} RemoveNextCover(s: seq<Chapter>, k: nat)
    requires k < |Covers(s)|
    ensures Covers(s)[k] in DropCovers(s, k)
    ensures RemoveFirst(DropCovers(s, k), Covers(s)[k]) == DropCovers(s, k + 1)
  {
    var h, t := s[0], s[1..];
    if IsCover(h) {
      if k == 0 {
        DropNoCovers(t);
        assert DropCovers(s, 0) == [h] + t == s;
      } else {
        RemoveNextCover(t, k - 1);
      }
    } else {
      RemoveNextCover(t, k);
      var x := Covers(t)[k];
      assert IsCover(x);
      assert DropCovers(s, k) == [h] + DropCovers(t, k);
    }
  }

  /** Dropping every cover leaves exactly the other entries. */
  lemma {:induction false} DropAllCovers(s: seq<Chapter>)
    ensures DropCovers(s, |Covers(s)|) == Others(s)
  {
    if s != [] {
      DropAllCovers(s[1..]);
    }
  }

  /** The reordering loop of the source; its result is the page with the
      covers first. */
  method ReorderPage(results: seq<Chapter>) returns (r: seq<Chapter>)
    ensures r == CoversFirst(results)
  {
    var result := Covers(results);
    var rest := results;
    DropNoCovers(results);
    for i := 0 to |result|
      invariant rest == DropCovers(results, i)
    {
      RemoveNextCover(results, i);
      rest := RemoveFirst(rest, result[i]);
    }
    DropAllCovers(results);
    r := result + rest;
  }

  // ---------------------------------------------------------------------
  // Pagination. `pages[i]` is the response to the request for page i; a
  // request past the end of the sequence gets no response.

  /** get_book_chapters: the chapter list, or the error that aborts the
      run. The list is only ever obtained from an accepted first page. */
  function GetBookChapters(pages: seq<Page>): (r: Result<seq<Chapter>, ApiError>)
    ensures r.Ok? ==> pages != [] && ValidPage(pages[0])
    decreases |pages|
  {
    if pages == [] then Err(Unreachable)
    else
      var p := pages[0];
      if p.NoResponse? then Err(Unreachable)
      else if IsErrorPayload(p) then Err(ApiRefused)
      else if p.results.None? || p.results.value == [] then Err(NoChapters)
      else
        var here := CoversFirst(p.results.value);
        if !p.next then Ok(here)
        else
          match GetBookChapters(pages[1..])
          case Ok(rest) => Ok(here + rest)
          case Err(e) => Err(e)
  }

  /** How many responses the downloader reads before it stops, successfully
      or not. */
  function PagesRead(pages: seq<Page>): (n: nat)
    ensures n <= |pages|
  {
    if pages == [] then 0
    else if ValidPage(pages[0]) && pages[0].next then 1 + PagesRead(pages[1..])
    else 1
  }

  /** The merge of a run of accepted pages: each page reordered, pages in order. */
  function Merged(pages: seq<Page>): seq<Chapter>
    requires forall i :: 0 <= i < |pages| ==> ValidPage(pages[i])
  {
    if pages == [] then []
    else
      assert ValidPage(pages[0]);
      CoversFirst(pages[0].results.value) + Merged(pages[1..])
  }

  /** The chapter list is obtained exactly when the first n responses are
      accepted pages, each of the first n-1 says there is a next page and the
      n-th says there is none; the list is then their merge. */
  lemma {:induction false} GetBookChaptersOk(pages: seq<Page>)
    ensures GetBookChapters(pages).Ok? <==>
      (var n := PagesRead(pages);
       n > 0 && (forall i :: 0 <= i < n ==> ValidPage(pages[i])) && !pages[n - 1].next)
    ensures GetBookChapters(pages).Ok? ==>
      (var n := PagesRead(pages);
       (forall i :: 0 <= i < n - 1 ==> pages[i].next) &&
       GetBookChapters(pages).value == Merged(pages[..n]))
    decreases |pages|
  {
    if pages != [] && ValidPage(pages[0]) && pages[0].next {
      var n := PagesRead(pages);
      GetBookChaptersOk(pages[1..]);
      assert forall i :: 1 <= i < n ==> pages[i] == pages[1..][i - 1];
      if GetBookChapters(pages).Ok? {
        assert pages[..n][1..] == pages[1..][..n - 1];
      }
    } else if pages != [] && ValidPage(pages[0]) {
      assert pages[..1][1..] == [];
    }
  }

  /** A first response that is not accepted aborts the whole run. */
  lemma FirstPageRejected(pages: seq<Page>)
    requires pages != [] && !ValidPage(pages[0])
    ensures GetBookChapters(pages).Err?
    ensures pages[0].NoResponse? ==> GetBookChapters(pages).error == Unreachable
    ensures IsErrorPayload(pages[0]) ==> GetBookChapters(pages).error == ApiRefused
    ensures pages[0].Dict? && pages[0].keyCount != 1 ==> GetBookChapters(pages).error == NoChapters
  {
  }

  /** Every chapter of every page read ends up in the list, and nothing else. */
  lemma {:induction false} MergedPermutation(pages: seq<Page>)
    requires forall i :: 0 <= i < |pages| ==> ValidPage(pages[i])
    ensures multiset(Merged(pages)) == AllResults(pages)
  {
    if pages != [] {
      CoversFirstPermutation(pages[0].results.value);
      MergedPermutation(pages[1..]);
    }
  }

  function AllResults(pages: seq<Page>): multiset<Chapter>
    requires forall i :: 0 <= i < |pages| ==> ValidPage(pages[i])
  {
    if pages == [] then multiset{}
    else
      assert ValidPage(pages[0]);
      multiset(pages[0].results.value) + AllResults(pages[1..])
  }
}
