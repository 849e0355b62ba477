/** The navigation map of the package (the navMap of an NCX document, as
    ANSI/NISO Z39.86-2005 defines it): the service's nested table of contents
    is walked in pre-order, each entry gets the next play order, and the
    deepest level seen is kept for the document head. */
module Toc {
  import opened Text

  /** One entry of the table of contents returned by the service. */
  datatype Node = Node(depth: int, fragment: string, id: string, navLabel: string, href: string,
                       children: seq<Node>)

  /** The navMap text is a sequence of opened and closed navPoint elements. */
  datatype NavToken =
    | Open(id: string, playOrder: int, navLabel: string, src: string)
    | Close

  /** The opening of the navPoint element for node n with play order c: the
      fragment names it when there is one, else its id; the label is escaped
      and the target gets the ".xhtml" extension. */
  function OpenOf(n: Node, c: int): NavToken {
    Open(if |n.fragment| > 0 then n.fragment else n.id, c, Escape(n.navLabel), ReplaceHtml(n.href))
  }

  function RenderToken(t: NavToken): string {
    match t
    case Open(id, po, navLabel, src) =>
      "<navPoint id=\"" + id + "\" playOrder=\"" + IntToString(po) + "\">" +
      "<navLabel><text>" + navLabel + "</text></navLabel>" +
      "<content src=\"" + src + "\"/>"
    case Close => "</navPoint>\n"
  }

  /** The navMap text of a token sequence. */
  function Render(ts: seq<NavToken>): string {
    if ts == [] then [] else RenderToken(ts[0]) + Render(ts[1..])
  }

  /** parse_toc(l, c, mx): the navPoints of the forest l, the last play order
      used and the largest depth seen, starting from play order c and depth
      mx. Siblings are handled left to right, each one's children between its
      opening and its closing. */
  function ParseToc(l: seq<Node>, c: int, mx: int): (seq<NavToken>, int, int)
    decreases l
  {
    if l == [] then ([], c, mx)
    else
      var cc := l[0];
      var c1 := c + 1;
      var mx1 := if cc.depth > mx then cc.depth else mx;
      var sub := if cc.children != [] then ParseToc(cc.children, c1, mx1) else ([], c1, mx1);
      var rest := ParseToc(l[1..], sub.1, sub.2);
      ([OpenOf(cc, c1)] + sub.0 + [Close] + rest.0, rest.1, rest.2)
  }

  // ---------------------------------------------------------------------
  // Reference definitions: the pre-order listing of a forest and the
  // largest depth along a listing.

  /** Parent, then its children, then the next sibling. */
  function Preorder(l: seq<Node>): seq<Node>
    decreases l
  {
    if l == [] then [] else [l[0]] + Preorder(l[0].children) + Preorder(l[1..])
  }

  /** The largest of m and the depths of ns. */
  function MaxDepth(m: int, ns: seq<Node>): (r: int)
    decreases |ns|
    ensures r >= m
    ensures forall k :: 0 <= k < |ns| ==> ns[k].depth <= r
    ensures r == m || exists k :: 0 <= k < |ns| && ns[k].depth == r
  {
    if ns == [] then m
    else
      var r := MaxDepth(if ns[0].depth > m then ns[0].depth else m, ns[1..]);
      assert forall k :: 1 <= k < |ns| ==> ns[k] == ns[1..][k - 1];
      r
  }

  lemma {:induction false} MaxDepthAppend(m: int, a: seq<Node>, b: seq<Node>)
    ensures MaxDepth(m, a + b) == MaxDepth(MaxDepth(m, a), b)
    decreases |a|
  {
    if a != [] {
      var m' := if a[0].depth > m then a[0].depth else m;
      assert (a + b)[0] == a[0] && (a + b)[1..] == a[1..] + b;
      assert MaxDepth(m, a + b) == MaxDepth(m', a[1..] + b);
      assert MaxDepth(m, a) == MaxDepth(m', a[1..]);
      MaxDepthAppend(m', a[1..], b);
    } else {
      assert a + b == b;
    }
  }

  /** The opening tokens of a token sequence, in order. */
  function Opens(ts: seq<NavToken>): seq<NavToken> {
    if ts == [] then []
    else if ts[0].Open? then [ts[0]] + Opens(ts[1..])
    else Opens(ts[1..])
  }

  function CloseCount(ts: seq<NavToken>): nat {
    if ts == [] then 0 else (if ts[0].Close? then 1 else 0) + CloseCount(ts[1..])
  }

  lemma {:induction false} OpensAppend(a: seq<NavToken>, b: seq<NavToken>)
    ensures Opens(a + b) == Opens(a) + Opens(b)
    ensures CloseCount(a + b) == CloseCount(a) + CloseCount(b)
    decreases |a|
  {
    if a != [] {
      assert (a + b)[0] == a[0] && (a + b)[1..] == a[1..] + b;
      OpensAppend(a[1..], b);
      if a[0].Open? {
        assert Opens(a + b) == [a[0]] + Opens(a[1..] + b);
        assert Opens(a) == [a[0]] + Opens(a[1..]);
      } else {
        assert Opens(a + b) == Opens(a[1..] + b);
      }
      assert CloseCount(a + b) == (if a[0].Close? then 1 else 0) + CloseCount(a[1..] + b);
    } else {
      assert a + b == b;
    }
  }

  /** The nodes ns opened with consecutive play orders from c. */
  function Numbered(ns: seq<Node>, c: int): (r: seq<NavToken>)
    ensures |r| == |ns|
  {
    seq(|ns|, k requires 0 <= k < |ns| => OpenOf(ns[k], c + k))
  }

  /** Numbering a concatenation numbers the second part on from where the
      first one stops. */
  lemma NumberedAppend(a: seq<Node>, b: seq<Node>, c: int)
    ensures Numbered(a + b, c) == Numbered(a, c) + Numbered(b, c + |a|)
  {
    var l, r := Numbered(a + b, c), Numbered(a, c) + Numbered(b, c + |a|);
    forall k | 0 <= k < |l|
      ensures l[k] == r[k]
    {
      if k < |a| {
        assert (a + b)[k] == a[k];
      } else {
        assert (a + b)[k] == b[k - |a|];
      }
    }
  }

  /** One step of parse_toc on a non-empty forest, with the walk of the
      children written as a call also when there are none. */
  lemma ParseTocStep(l: seq<Node>, c: int, mx: int)
    requires l != []
    ensures var cc := l[0];
      var mx1 := if cc.depth > mx then cc.depth else mx;
      var sub := ParseToc(cc.children, c + 1, mx1);
      var rest := ParseToc(l[1..], sub.1, sub.2);
      ParseToc(l, c, mx) == ([OpenOf(cc, c + 1)] + sub.0 + [Close] + rest.0, rest.1, rest.2)
  {
  }

  /** parse_toc returns c plus the number of nodes. */
  lemma {:induction false} ParseTocCount(l: seq<Node>, c: int, mx: int)
    ensures ParseToc(l, c, mx).1 == c + |Preorder(l)|
    decreases l
  {
    if l != [] {
      var cc := l[0];
      var mx1 := if cc.depth > mx then cc.depth else mx;
      ParseTocStep(l, c, mx);
      ParseTocCount(cc.children, c + 1, mx1);
      var sub := ParseToc(cc.children, c + 1, mx1);
      ParseTocCount(l[1..], sub.1, sub.2);
    }
  }

  /** parse_toc returns the largest of mx and every node's depth. */
  lemma {:induction false} ParseTocMaxDepth(l: seq<Node>, c: int, mx: int)
    ensures ParseToc(l, c, mx).2 == MaxDepth(mx, Preorder(l))
    decreases l
  {
    if l != [] {
      var cc := l[0];
      var mx1 := if cc.depth > mx then cc.depth else mx;
      ParseTocStep(l, c, mx);
      ParseTocMaxDepth(cc.children, c + 1, mx1);
      var sub := ParseToc(cc.children, c + 1, mx1);
      ParseTocMaxDepth(l[1..], sub.1, sub.2);
      var pc, pr := Preorder(cc.children), Preorder(l[1..]);
      assert Preorder(l) == [cc] + pc + pr;
      MaxDepthAppend(mx, [cc] + pc, pr);
      MaxDepthAppend(mx, [cc], pc);
      assert MaxDepth(mx, [cc]) == mx1 by {
        assert [cc][1..] == [];
      }
    }
  }

  /** A navPoint followed by more tokens: its opening, the openings inside
      it, then those after it; one more closing. */
  lemma OpensOfNavPoint(o: NavToken, inner: seq<NavToken>, after: seq<NavToken>)
    requires o.Open?
    ensures Opens([o] + inner + [Close] + after) == [o] + Opens(inner) + Opens(after)
    ensures CloseCount([o] + inner + [Close] + after) == CloseCount(inner) + 1 + CloseCount(after)
  {
    OpensAppend([o] + inner + [Close], after);
    OpensAppend([o] + inner, [Close]);
    OpensAppend([o], inner);
    assert Opens([o]) == [o] && CloseCount([o]) == 0 by { assert [o][1..] == []; }
    assert Opens([Close]) == [] && CloseCount([Close]) == 1 by { assert [Close][1..] == []; }
  }

  /** Numbering a node followed by two runs: the node gets c, the runs go
      on from c + 1. */
  lemma NumberedCons(n: Node, a: seq<Node>, b: seq<Node>, c: int)
    ensures Numbered([n] + a + b, c) == [OpenOf(n, c)] + Numbered(a, c + 1) + Numbered(b, c + 1 + |a|)
  {
    NumberedAppend([n] + a, b, c);
    NumberedAppend([n], a, c);
    assert Numbered([n], c) == [OpenOf(n, c)];
  }

  /** The pre-order numbering of a non-empty forest: its first node, then
      that node's subtree, then the remaining siblings. */
  lemma NumberedPreorder(l: seq<Node>, c: int, pc: seq<Node>, pr: seq<Node>)
    requires l != [] && pc == Preorder(l[0].children) && pr == Preorder(l[1..])
    ensures Numbered(Preorder(l), c) == [OpenOf(l[0], c)] + Numbered(pc, c + 1) + Numbered(pr, c + 1 + |pc|)
  {
    assert Preorder(l) == [l[0]] + pc + pr;
    NumberedCons(l[0], pc, pr, c);
  }

  /** parse_toc opens the nodes in pre-order with play orders c+1, c+2, ... */
  lemma {:induction false} ParseTocOpens(l: seq<Node>, c: int, mx: int)
    ensures Opens(ParseToc(l, c, mx).0) == Numbered(Preorder(l), c + 1)
    decreases l
  {
    if l != [] {
      var cc := l[0];
      var c1 := c + 1;
      var mx1 := if cc.depth > mx then cc.depth else mx;
      ParseTocStep(l, c, mx);
      ParseTocOpens(cc.children, c1, mx1);
      ParseTocCount(cc.children, c1, mx1);
      var sub := ParseToc(cc.children, c1, mx1);
      ParseTocOpens(l[1..], sub.1, sub.2);
      var rest := ParseToc(l[1..], sub.1, sub.2);
      var pc, pr := Preorder(cc.children), Preorder(l[1..]);
      var head := [OpenOf(cc, c1)];
      assert ParseToc(l, c, mx).0 == head + sub.0 + [Close] + rest.0;
      assert sub.1 + 1 == c1 + 1 + |pc|;
      var inner, after := Numbered(pc, c1 + 1), Numbered(pr, c1 + 1 + |pc|);
      assert Opens(sub.0) == inner;
      assert Opens(rest.0) == after;
      assert Opens(ParseToc(l, c, mx).0) == head + inner + after by {
        OpensOfNavPoint(OpenOf(cc, c1), sub.0, rest.0);
      }
      NumberedPreorder(l, c1, pc, pr);
      assert Numbered(Preorder(l), c1) == head + inner + after;
    }
  }

  /** parse_toc closes every node exactly once. */
  lemma {:induction false} ParseTocCloses(l: seq<Node>, c: int, mx: int)
    ensures CloseCount(ParseToc(l, c, mx).0) == |Preorder(l)|
    decreases l
  {
    if l != [] {
      var cc := l[0];
      var c1 := c + 1;
      var mx1 := if cc.depth > mx then cc.depth else mx;
      ParseTocStep(l, c, mx);
      ParseTocCloses(cc.children, c1, mx1);
      var sub := ParseToc(cc.children, c1, mx1);
      ParseTocCloses(l[1..], sub.1, sub.2);
      var rest := ParseToc(l[1..], sub.1, sub.2);
      OpensOfNavPoint(OpenOf(cc, c1), sub.0, rest.0);
      assert Preorder(l) == [cc] + Preorder(cc.children) + Preorder(l[1..]);
    }
  }

  /** A small table of contents: two top-level entries,
      the first with one child, get play orders 1, 2, 3 and depth 2. */
  lemma ParseTocExample(a: Node, b: Node, x: Node)
    requires a.depth == 1 && b.depth == 2 && x.depth == 1
    requires a.children == [b] && b.children == [] && x.children == []
    ensures var res := ParseToc([a, x], 0, 0);
      res.1 == 3 && res.2 == 2 &&
      res.0 == [OpenOf(a, 1), OpenOf(b, 2), Close, Close, OpenOf(x, 3), Close]
  {
    ParseTocLeaf(b, 1, 1);
    ParseTocLeaf(x, 2, 2);
    ParseTocStep([a, x], 0, 0);
    assert [a, x][1..] == [x];
  }

  /** A single leaf opens and closes one navPoint. */
  lemma ParseTocLeaf(n: Node, c: int, mx: int)
    requires n.children == []
    ensures ParseToc([n], c, mx) ==
      ([OpenOf(n, c + 1), Close], c + 1, if n.depth > mx then n.depth else mx)
  {
    ParseTocStep([n], c, mx);
    assert [n][1..] == [];
    assert [OpenOf(n, c + 1)] + [] + [Close] + [] == [OpenOf(n, c + 1), Close];
  }

  // ---------------------------------------------------------------------
  // create_toc: the decoded response of the TOC endpoint, and toc.ncx.

  datatype TocResponse =
    | TocNoResponse
    | TocList(nodes: seq<Node>)
    | TocDict(keyCount: nat)
    | TocScalar

  datatype TocError =
    | TocUnreachable   // the request failed
    | TocApiRefused    // an object with exactly one key: the service's error payload
    | TocMalformed     // a scalar (it has no keys to count) or an object with several keys
                       // (the walk meets key strings with no "depth")

  /** The navMap text of a TOC and the depth of its deepest entry. */
  datatype NavMap = NavMap(text: string, maxDepth: int)

  /** The navMap text and depth for a response. An object with no keys walks
      as an empty forest; a scalar body has no keys to count and an object
      with several keys yields key strings that have no "depth", so both
      abort. */
  function NavMapOf(resp: TocResponse): (r: Result<NavMap, TocError>)
    ensures resp.TocList? ==>
      r.Ok? && r.value.maxDepth == MaxDepth(0, Preorder(resp.nodes)) && r.value.maxDepth >= 0
    ensures resp.TocDict? && resp.keyCount == 1 ==> r == Err(TocApiRefused)
  {
    match resp
    case TocNoResponse => Err(TocUnreachable)
    case TocScalar => Err(TocMalformed)
    case TocDict(k) =>
      if k == 1 then Err(TocApiRefused)
      else if k == 0 then Ok(NavMap([], 0))
      else Err(TocMalformed)
    case TocList(nodes) =>
      var res := ParseToc(nodes, 0, 0);
      ParseTocMaxDepth(nodes, 0, 0);
      Ok(NavMap(Render(res.0), res.2))
  }

  /** The XML declaration, the doctype and the opening of the ncx and head
      elements. */
  const NcxPrologue: string :=
    "<?xml version=\"1.0\" encoding=\"UTF-8\" standalone=\"no\" ?>" +
    "<!DOCTYPE ncx PUBLIC \"-//NISO//DTD ncx 2005-1//EN\"" +
    " \"http://www.daisy.org/z3986/2005/ncx-2005-1.dtd\">" +
    "<ncx xmlns=\"http://www.daisy.org/z3986/2005/ncx/\" version=\"2005-1\">" +
    "<head>"

  /** The page-count metadata, always zero, and the end of the head. */
  const NcxPageMeta: string :=
    "<meta content=\"0\" name=\"dtb:totalPageCount\"/>" +
    "<meta content=\"0\" name=\"dtb:maxPageNumber\"/>" +
    "</head>"

  /** toc.ncx: identifier (the ISBN, or the book id when there is none), depth,
      title, authors joined by ", " and the navMap. */
  function TocNcx(isbn: string, bookId: string, maxDepth: int, title: string, authors: seq<string>,
                  navMap: string): string
  {
    NcxPrologue +
    "<meta content=\"ID:ISBN:" + (if |isbn| > 0 then isbn else bookId) + "\" name=\"dtb:uid\"/>" +
    "<meta content=\"" + IntToString(maxDepth) + "\" name=\"dtb:depth\"/>" +
    NcxPageMeta +
    "<docTitle><text>" + title + "</text></docTitle>" +
    "<docAuthor><text>" + Join(", ", authors) + "</text></docAuthor>" +
    "<navMap>" + navMap + "</navMap>" +
    "</ncx>"
  }

  function CreateToc(resp: TocResponse, isbn: string, bookId: string, title: string,
                     authors: seq<string>): (r: Result<string, TocError>)
    ensures r.Ok? <==> NavMapOf(resp).Ok?
  {
    match NavMapOf(resp)
    case Ok(m) => Ok(TocNcx(isbn, bookId, m.maxDepth, title, authors, m.text))
    case Err(e) => Err(e)
  }
}
