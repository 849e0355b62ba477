# safaribooks: a verified model of the downloader's bookkeeping

`safaribooks.py` downloads a book from the Safari Books Online service and
packs it as an EPUB. This project models the sequential bookkeeping of its
`SafariBooks` class. That bookkeeping covers:

- reading and merging the paginated chapter list;
- rewriting the references inside a chapter page;
- discovering stylesheets and numbering their `<link>` elements;
- the resumable crawl over the chapter queue;
- flattening the table of contents into an NCX navMap;
- splitting the asset downloads into batches of five;
- assembling the OPF 2.0.1 package document (`content.opf`): manifest, spine, guide and cover meta.

Modules, one per file:

| file | module | what it holds |
|---|---|---|
| `text.dfy` | `Text` | `str.replace(".html", ".xhtml")`, `html.escape` with its inverse, `split`/`join`, `{0:0>2}` padding |
| `chapters.dfy` | `Chapters` | `get_book_chapters` over a sequence of decoded API pages, and the cover-first reordering loop |
| `links.dfy` | `Links` | the classification and rewriting of `link_replace` |
| `pages.dfy` | `Pages` | the stylesheet part of `parse_html`, and the image links collected while a page's links are rewritten |
| `assets.dfy` | `Assets` | local names of stylesheets and images, and the three stylesheet numberings side by side |
| `toc.dfy` | `Toc` | `parse_toc`, its pre-order reference definition, and `create_toc` |
| `opf.dfy` | `Opf` | item ids, manifest, spine and guide lines, the cover meta, and the text of `content.opf` |
| `batches.dfy` | `Batching` | the chunking of `_start_multiprocessing` |
| `crawler.dfy` | `Crawler` | class `Display` (`state`), and class `SafariBooks` with the crawl (`get`), `link_replace`, the stylesheet loop and `create_content_opf` |

The state the source mutates lives in two classes:

- `Crawler.SafariBooks` has the chapter list, the queue, the stylesheet and image lists, the cover, the set of files in the book's `OEBPS` directory, and a log of the chapters fetched.
- The service side of a crawl is an input value, `Crawler.Site`: the content served for each chapter file name (its stylesheet hrefs and its references), the book's base URL, and the URL resolver.
- `Crawler.Display` has the highest percentage shown and the "already downloaded" notice flag.

The methods of these classes are proved against pure specification functions:

- `ToFetch` gives the pages a crawl fetches.
- `StylesMet` and `ImagesMet` give what the fetched pages contribute to the stylesheet and image lists.
- `AddAll` gives append-if-absent.
- `ImageLinks` gives the image references of a page.
- `ManifestLines` gives the OPF manifest.

Pure parts of the source are functions: `parse_toc`, the chunking, escaping, item ids, media type and cover choice.

Quirks of the code that the model keeps:

- A page's stylesheet links are numbered by page position (`stylesheet_count`, safaribooks.py:487-489), not by the stylesheet's place in `self.css`.
- `"jpeg"` is compared with `link[-3:]` (safaribooks.py:452), so it can never match.
- Image links are appended to `self.images` without a membership test (safaribooks.py:453), so repeats are kept.
- Missing or empty `results` abort the run on whichever page they occur (safaribooks.py:415-419, reached by the recursion at 427).

## Model

| member | source | states |
|---|---|---|
| Text.ReplaceHtml | safaribooks.py:459 | `str.replace(".html", ".xhtml")`: left to right, non-overlapping; its properties are the four lemmas below |
| Text.ReplaceHtmlLeavesNoHtml | safaribooks.py:459 | after `replace(".html", ".xhtml")` no ".html" occurrence is left in the string |
| Text.ReplaceHtmlIdempotent | safaribooks.py:710 | replacing a second time (as the guide target does with an already renamed file) changes nothing |
| Text.ReplaceHtmlNoOp | safaribooks.py:459 | a string without ".html" is returned unchanged |
| Text.ReplaceHtmlFirst | safaribooks.py:458-459 | the rewrite keeps the first character, so a rewritten page link is still classified as a page link |
| Text.Escape | safaribooks.py:670 | `escape` leaves none of `<`, `>`, `"`, `'` in its result and never shortens the text |
| Text.EscapeRoundTrip | safaribooks.py:670 | unescaping the escaped text gives back the original: `escape` loses no information |
| Text.UnescapeStep | safaribooks.py:670 | each escaped character unescapes to itself whatever follows it |
| Text.Split | safaribooks.py:455 | `str.split(sep)` on one character: at least one piece, `"".split` giving `[""]` |
| Text.Join | safaribooks.py:455 | `sep.join(parts)`; `JoinSplit` below shows it undoes `Split` |
| Text.JoinSplit | safaribooks.py:455 | joining the pieces of `split(sep)` with the separator gives back the string |
| Text.SplitPiecesFree | safaribooks.py:455 | no piece of `split(sep)` contains the separator |
| Text.SplitSnoc | safaribooks.py:678 | splitting `a + sep + b` (b free of sep) gives the pieces of a followed by b |
| Text.SplitLines | safaribooks.py:488-489 | lines free of newlines, each ended by "\n", split back into exactly those lines plus an empty tail |
| Text.ConcatSplit | safaribooks.py:670 | `"".join(s.split(sep))` is s with every sep removed |
| Text.NatToStringValue | safaribooks.py:721-724 | the decimal text of a play order denotes that number |
| Text.Pad2 | safaribooks.py:568 | `{0:0>2}`: a single digit gets a leading "0"; at least two characters |
| Text.Pad2Value | safaribooks.py:568 | `{0:0>2}` gives at least two digits denoting the number |
| Text.Pad2Injective | safaribooks.py:568 | different numbers get different padded texts |
| Chapters.CoversFirst | safaribooks.py:421-426 | one page's results with its cover entries in front, as the copy-then-delete loop leaves them; `ReorderPage` and `CoversFirstPermutation` state its meaning |
| Chapters.Covers | safaribooks.py:422 | every entry picked is a cover entry (its filename contains "cover."), and there are no more of them than entries on the page |
| Chapters.Others | safaribooks.py:426 | the rest of the page holds only non-cover entries, no more than the page has |
| Chapters.CoversFirstPermutation | safaribooks.py:421-426 | the reordered page is a permutation of the page |
| Chapters.RemoveNextCover | safaribooks.py:423-424 | `del results[results.index(c)]` for the k-th cover removes exactly that cover from the page left after the first k removals |
| Chapters.DropAllCovers | safaribooks.py:423-426 | after all removals the page holds exactly its non-cover entries in order |
| Chapters.ReorderPage | safaribooks.py:421-426 | the copy-then-delete loop yields the cover entries in page order followed by the other entries in page order |
| Chapters.GetBookChapters | safaribooks.py:408-427 | the chapter list or the aborting error, page after page; a list is only obtained from an accepted first page (`GetBookChaptersOk` gives the full characterisation) |
| Chapters.RemoveFirst | safaribooks.py:424 | `del results[results.index(c)]`: the entry equal to c that comes first is removed, and the page is one shorter |
| Chapters.PagesRead | safaribooks.py:427 | the recursion never reads more responses than exist |
| Chapters.GetBookChaptersOk | safaribooks.py:408-427 | the list is obtained if and only if the responses read are accepted pages, every one but the last says `next` and the last does not; the list is then the pages' reordered results concatenated in order |
| Chapters.FirstPageRejected | safaribooks.py:410-419 | a rejected first response aborts the run: a failed request with `Unreachable`, an error payload (not a dict, or one key) with `ApiRefused`, any other object (missing or empty results) with `NoChapters` |
| Chapters.MergedPermutation | safaribooks.py:426-427 | the merged list holds every chapter of every page read, and nothing else |
| Links.IsImageLink | safaribooks.py:451-452 | the test of `link_replace`: root-relative, and mentions cover, images or graphics, or `link[-3:]` is an image extension |
| Links.RewriteLink | safaribooks.py:450-461 | the value `link_replace` returns; `RewriteLinkClasses` states its three cases |
| Links.Suffix3 | safaribooks.py:452 | `link[-3:]` has at most three characters, so it is never "jpeg" |
| Links.LastSegmentSuffix | safaribooks.py:455 | `link.split("/")[-1]` ends the link, holds no '/', and is the whole link or follows a '/' |
| Links.RewriteLinkClasses | safaribooks.py:450-461 | image references become "Images/" plus their last segment, relative page references get ".xhtml" for ".html", every other link (all starting with 'h') is returned unchanged |
| Links.RewritePageLinkStable | safaribooks.py:458-459 | a rewritten page reference is rewritten to itself |
| Pages.ResolveHref | safaribooks.py:480-481 | a protocol-relative href resolves to "https:" plus the href |
| Pages.AddAll | safaribooks.py:483-484 | append-if-absent over a run of URLs, in order; its properties are `AddAllSpec`, `AddAllOrder` and `AddAllAppend` |
| Pages.AddAllAppend | safaribooks.py:483-484 | adding one run after another is adding their concatenation, so page after page equals all pages at once |
| Pages.AddAllSpec | safaribooks.py:483-484 | append-if-absent keeps the old list as a prefix, holds exactly the old and the new URLs, and keeps a duplicate-free list duplicate-free |
| Pages.AddAllOrder | safaribooks.py:479-484 | the URLs added are new ones, in the order of their first occurrence on the page |
| Pages.StyleLinkLineOneLine | safaribooks.py:488-489 | a stylesheet `<link>` element contains no newline |
| Pages.StyleLinks | safaribooks.py:487-489 | the `page_css` block of a page with n stylesheet links; `StyleLinksLines` states its lines |
| Pages.StyleLinksLines | safaribooks.py:487-489 | the link block has exactly one line per stylesheet link of the page, the k-th naming "Style" plus k padded to two digits (by page position), each ended by a newline |
| Pages.ImageLinks | safaribooks.py:451-453 | the links `link_replace` appends to `self.images` over one page, repeats kept; `ImageLinksSpec` states its contents |
| Pages.ImageLinksCount | safaribooks.py:450-453 | each image reference is collected exactly as often as it occurs among the page's links, and no other link is collected: no deduplication |
| Pages.ImageLinksSpec | safaribooks.py:451-453 | the references collected are exactly the image references of the page, no more than there are links |
| Assets.SavedCssName | safaribooks.py:568 | the file a stylesheet URL is saved under: "Style" plus its first position in `self.css`, counted from 0 and padded to two digits |
| Assets.IndexOf | safaribooks.py:568 | `list.index(x)` is the first position holding x |
| Assets.CssFileNameInjective | safaribooks.py:568 | different stylesheet numbers give different file names |
| Assets.StyleNumberingMismatch | safaribooks.py:568 | as written, the saved files are Style00 to Style(N-1), while the manifest lists Style01 to StyleN: StyleN is listed but never saved, Style00 saved but never listed |
| Assets.FirstPageLinkMismatch | safaribooks.py:568 | as written, a page whose single stylesheet is the book's first links Style01 (safaribooks.py:487-489) while that stylesheet is saved as Style00 |
| Assets.CorrectedStylesAgree | safaribooks.py:688-690 | numbered from 1 as the manifest does, the saved files are exactly the manifest's files and every page link names a listed file |
| Assets.PageImageRefIsSavedFile | safaribooks.py:591 | a page refers to an image under the name the image is saved under, a flat name without '/' |
| Batching.Batches | safaribooks.py:616-630 | a queue of at most five is one batch, a longer one is cut by `SlicesFrom`; `BatchesSpec` states the plan |
| Batching.SlicesFrom | safaribooks.py:620-622 | the slices `q[i:i+5]` for `i` in `range(start, len(q), 5)`; `SlicesFromSpec` states them |
| Batching.SlicesFromSpec | safaribooks.py:620-622 | the slices from `start` on concatenate to the rest of the queue, none empty, all but the last of five |
| Batching.BatchesSpec | safaribooks.py:616-630 | run in order the batches give back the queue, every item scheduled once and in place, no batch larger than five |
| Toc.ParseToc | safaribooks.py:714-734 | `parse_toc` as tokens with the updated counter and depth; the lemmas below state its output against `Preorder` and `MaxDepth` |
| Toc.OpenOf | safaribooks.py:721-726 | the opening of a node's navPoint: the fragment as id when non-empty, else the id; the given play order; the escaped label; the href with ".html" rewritten |
| Toc.Render | safaribooks.py:721-732 | the navMap text of the tokens: one `<navPoint ...>` opening with label and content per node, one `</navPoint>\n` per close |
| Toc.TocNcx | safaribooks.py:753-759 | the TOC_NCX template filled with the identifier, depth, title, authors and navMap |
| Toc.MaxDepth | safaribooks.py:718-719 | the running maximum is at least the start, bounds every depth, and is the start or some node's depth |
| Toc.ParseTocCount | safaribooks.py:714-734 | `parse_toc` returns c plus the number of nodes of the forest |
| Toc.ParseTocMaxDepth | safaribooks.py:714-734 | `parse_toc` returns the largest of mx and every node's depth |
| Toc.ParseTocOpens | safaribooks.py:714-734 | the navPoints are opened in pre-order (parent, children, next sibling) with play orders c+1, c+2, ... |
| Toc.ParseTocCloses | safaribooks.py:732 | exactly one `</navPoint>` per node |
| Toc.NumberedAppend | safaribooks.py:717 | numbering a concatenation numbers the second part on from where the first stops |
| Toc.ParseTocExample | safaribooks.py:714-734 | two top-level entries, the first with a child, get play orders 1, 2, 3 and depth 2, closings nested |
| Toc.NavMapOf | safaribooks.py:743-752 | a list response yields its navMap and the largest depth (at least 0); an object with one key is the error payload |
| Toc.CreateToc | safaribooks.py:736-759 | toc.ncx is produced exactly when the navMap is |
| Opf.ItemId | safaribooks.py:670 | the manifest id of a file: the escaped name without its extension and its dots; `ItemIdOfName` and `ItemIdNoDot` state it |
| Opf.MediaType | safaribooks.py:682 | the media type suffix: "jpeg" for an extension containing "jp", else the extension |
| Opf.ContentOpf | safaribooks.py:699-711 | the OPF template filled with the book record, cover meta, manifest, spine and guide |
| Opf.ChapterItem | safaribooks.py:670-672 | the manifest item of a renamed chapter file: its id and its href, as application/xhtml+xml |
| Opf.SpineItem | safaribooks.py:673 | the spine itemref naming the chapter item's id |
| Opf.ImageItem | safaribooks.py:677-681 | the manifest item of an image file: the id "img_" plus its item id, href under "Images/", and the media type from its extension |
| Opf.ItemIdOfName | safaribooks.py:670 | the id of `a.ext` is the escaped `a` with its own dots dropped |
| Opf.ItemIdNoDot | safaribooks.py:670 | a file name without a dot has the empty id |
| Opf.Extension | safaribooks.py:680 | the extension holds no dot |
| Opf.ManifestLayout | safaribooks.py:666-690 | the manifest holds one item per chapter, image and stylesheet, in that order; the k-th chapter item and k-th spine itemref share the id |
| Opf.StyleItemInjective | safaribooks.py:688-690 | different stylesheet numbers give different manifest items |
| Opf.StyleLinesDistinct | safaribooks.py:688-690 | the stylesheet items are pairwise distinct |
| Opf.CoverMeta | safaribooks.py:676-707 | the cover meta is the first image link met, else the id of the listing's first image (the id of its manifest item), else the text "False" |
| Opf.GuideIsFirstChapter | safaribooks.py:669-710 | after renaming no chapter keeps ".html", and the guide target is the first chapter's file, the first manifest item |
| Crawler.Progress | safaribooks.py:118 | the percentage `done * 100 / origin`; `ProgressMonotone` and `ProgressBounds` state it |
| Crawler.ProgressMonotone | safaribooks.py:118 | more work done never shows less progress |
| Crawler.ProgressBounds | safaribooks.py:118 | progress is at most 100, and 100 exactly when everything is done |
| Crawler.Display.constructor | safaribooks.py:42-47 | a display starts with percentage 0; its notice flag starts settled exactly when `create_dirs` had to create the OEBPS directory (safaribooks.py:531-534) |
| Crawler.Display.State | safaribooks.py:117-121 | the bar is redrawn exactly when the percentage grows, and the stored percentage becomes the maximum |
| Crawler.PageName | safaribooks.py:550 | the file a chapter page is looked up and saved as: its filename with ".html" rewritten to ".xhtml" |
| Crawler.ToFetch | safaribooks.py:550-562 | the chapters a crawl fetches, in queue order; the lemmas below state which |
| Crawler.ToFetchNames | safaribooks.py:550-562 | the pages fetched are exactly the queue's pages that were not on disk |
| Crawler.ToFetchFresh | safaribooks.py:550-562 | every fetched chapter comes from the queue and its page was not on disk |
| Crawler.ToFetchDistinct | safaribooks.py:550-562 | no page is fetched twice |
| Crawler.ToFetchSpec | safaribooks.py:542-565 | the three facts above together |
| Crawler.CrawlStep | safaribooks.py:546-562 | visiting one more chapter fetches it exactly when its page is not on disk yet, and its page is on disk afterwards |
| Crawler.SecondRunFetchesNothing | safaribooks.py:550 | once every page of the queue is on disk, a second crawl fetches nothing |
| Crawler.SecondRunFindsNothing | safaribooks.py:550-556 | once every page of the queue is on disk, a second crawl adds no stylesheet and no image: pages on disk are not parsed |
| Crawler.StylesMetMembers | safaribooks.py:475-484 | a URL is among the stylesheets met on a run of pages exactly when it is a resolved stylesheet href of one of them |
| Crawler.ImagesMetMembers | safaribooks.py:450-453 | a link is among the images met on a run of pages exactly when it is an image reference of one of them |
| Crawler.DiscoveriesStep | safaribooks.py:550-562 | visiting one more chapter grows `css` by its page's stylesheets (append-if-absent) and `images` by its image references exactly when its page is fetched |
| Crawler.AccountStep | safaribooks.py:546-564 | one visit advances the crawl's account (log, files, notice, percentage) by the visited chapter |
| Crawler.StatusStep | safaribooks.py:564 | redrawing after one more chapter keeps the highest percentage of the run |
| Crawler.AccountDone | safaribooks.py:542-544 | when the queue is empty, every chapter was visited and the percentage reached 100 unless there was nothing to do |
| Crawler.ImageManifest | safaribooks.py:676-686 | the image loop emits the image items of the listing in order and keeps the first image's id as fallback cover |
| Crawler.StyleManifest | safaribooks.py:688-690 | the style loop emits items numbered 1 to n |
| Crawler.SafariBooks.constructor | safaribooks.py:262-284 | the queue is a copy of the chapter list; no stylesheet, image or cover is known yet |
| Crawler.SafariBooks.LinkReplace | safaribooks.py:450-461 | returns the rewritten link and appends the link to `images` exactly when it is an image reference |
| Crawler.SafariBooks.RewriteLinks | safaribooks.py:509 | every link of the page is rewritten in order, and `images` grows by the page's image references in order, repeats kept |
| Crawler.SafariBooks.ParseStylesheets | safaribooks.py:475-489 | `css` becomes the append-if-absent of the resolved hrefs, and the page gets the link block numbered by page position |
| Crawler.SafariBooks.ParseHtml | safaribooks.py:463-522 | parsing a fetched page adds its resolved stylesheets to `css` when new, appends its image references to `images`, and returns the numbered link block and every reference rewritten |
| Crawler.SafariBooks.Visit | safaribooks.py:546-564 | one visit pops the queue; when the page file is absent it fetches and parses the page, growing `css` and `images` by that page; when present it settles the notice and changes neither list; then it redraws |
| Crawler.SafariBooks.Step | safaribooks.py:546-565 | a visit keeps the crawl's account and its discoveries with the visited chapter added |
| Crawler.SafariBooks.Get | safaribooks.py:542-565 | the crawl empties the queue; exactly `ToFetch` of the queue is fetched; `css` gains the fetched pages' stylesheets append-if-absent in order, `images` their image references; every page of the queue is on disk, and the percentage ends at 100 |
| Crawler.SafariBooks.RenameChapters | safaribooks.py:668-674 | every chapter's filename is rewritten in place, and the chapter manifest items and spine itemrefs are emitted in chapter order |
| Crawler.SafariBooks.PackageParts | safaribooks.py:662-710 | the cover, listings, renamed chapters, manifest, spine, cover meta and guide target of the package |
| Crawler.SafariBooks.CreateContentOpf | safaribooks.py:661-711 | content.opf is the package text of those parts and the book record |

## Left out

- Login, CSRF scraping, cookies and request headers, and every HTTP request. A response is an input value: a `Chapters.Page` per chapter-list request, a `Toc.TocResponse` for the TOC.
- The book-record request `get_book_info` and its validity check (safaribooks.py:394-406) are not part of this model. The record's fields are the `Opf.BookInfo` input.
- HTML parsing with lxml, XPath, `rewrite_links` traversal and `tostring`. A page is given as a `Pages.PageContent`: its stylesheet hrefs and its references, in document order. Inline `<style>` elements (safaribooks.py:491-506) are not modelled.
- The random check for the "controls" interstitial (safaribooks.py:464-466), which is nondeterministic.
- `multiprocessing` processes, queues and shared values, and the download workers' streaming writes. Only the batch plan is modelled.
- Terminal and log output of `Display`, the ANSI strings and the notice texts. The notices are modelled only as the `bookAdInfo` flag.
- `urljoin` for relative hrefs is the `resolve` parameter. Directory listings (`os.walk`) are input sequences, so their order is the input's.
- Fetching a page is reading `Site.content` at its file name. This read always succeeds. Saving it adds its name to the `oebps` set and the chapter to the `fetched` log; the text written (the BASE_HTML template around the link block and the rewritten content) is not kept.
- Crawler.SafariBooks.Visit / Get / ParseHtml: a fetched page is always retrieved and parsed. The model has no abort outcome for the run-ending exits of the source: a failed page request (safaribooks.py:431-435), an unparseable response (441-446), a page without the `sbo-rt-content` region (469-473), and the two serialisation errors (498-506, 512-520). Each of these ends the program through `Display.exit`.
- Crawler.SafariBooks.Get: the loop finishes for a queue of any length. The source's `get` calls itself once per queued chapter (safaribooks.py:565), and CPython does not eliminate tail calls. With the default recursion limit of 1000, a queue of roughly a thousand chapters or more raises RecursionError. The excepthook set at safaribooks.py:48 routes that error to `Display.exit`, ending the run. This bound depends on the interpreter's configuration, so the model does not state it.
- Pages.Link: a reference is non-empty by its type. `link_replace` reads `link[0]` and raises on an empty reference.
- Zip creation and renaming, `create_epub`'s file writes, and the command-line parsing.
- Crawler.Progress: uses integer division in place of `int(done * 100 / origin)` on floats. The two agree for non-negative counts up to float precision.
- Crawler.SafariBooks.LinkReplace: requires a non-empty link. The source indexes `link[0]` and raises on an empty one.
- Crawler.SafariBooks.PackageParts: requires at least one chapter. The source reads `book_chapters[0]` and raises on an empty list.
- Crawler.SafariBooks.CreateContentOpf: requires at least one chapter, for the same reason.
- Chapters.GetBookChapters: `next` is a boolean. A response without a "next" key (a KeyError in the source) is not modelled.
- Chapters.Chapter: holds only the title and the filename, the fields the downloader reads.
- Toc.NavMapOf: models the navMap as open/close tokens rendered to text by `Toc.Render`. A scalar response is the `TocMalformed` error: the source fails at safaribooks.py:745, where `response.keys()` is called on a non-dict, before the walk. An object with several keys is also `TocMalformed`: the source fails inside the walk (safaribooks.py:718), where `cc["depth"]` is applied to a key string.
- Crawler.SafariBooks: the chapter queue is a copy of the chapter list. The in-place renaming of chapters after the crawl does not reach the queue, which is empty by then.
- Assets.StyleNumberingMismatch: assumes the Styles listing holds exactly the saved files, one per entry of the stylesheet list.

## Findings

| source | as written | input that shows it | evidently intended | confidence | as-written member | corrected member |
|---|---|---|---|---|---|---|
| safaribooks.py:568 | each stylesheet is saved as `Style{index:0>2}.css` with its 0-based index in `self.css`, while the manifest (safaribooks.py:688-690) lists Style01 to StyleN and each page links `Style01`, `Style02`, ... by position (safaribooks.py:487-489) | `css = [u]`, one page whose single stylesheet is u: saved as Style00.css, linked and listed as Style01.css, which does not exist | one numbering from 1 for the saved file, the manifest item and every page link | not executed | Assets.StyleNumberingMismatch | Assets.CorrectedStylesAgree |
